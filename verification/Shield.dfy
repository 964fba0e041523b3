/** The shield middleware of one request: dictionary matches spliced into tokens, the PII
    replacement pass, and when the restoring passes give the messages back. */
module Shield {
  import opened Sequences
  import opened Folding
  import opened Texts
  import opened Masking
  import opened Tokens
  import opened Overlaps
  import opened AllOrders
  import opened Splices

  // ---------- what the splice loop should produce ----------

  /** A match together with the token issued for it. */
  datatype Issue = Issue(match_: Match, token: string)

  /** Tokens are numbered in splicing order, so the rightmost match gets the lowest number;
      the result lists the matches from left to right. */
  function Issues(ms: seq<Match>, c: nat): seq<Issue> {
    if ms == [] then []
    else
      var n := |ms| - 1;
      [Issue(ms[n], DictToken(c + n))] + Issues(ms[..n], c)
  }

  lemma {:induction false} IssueAt(ms: seq<Match>, c: nat, i: nat)
    requires i < |ms|
    ensures |Issues(ms, c)| == |ms|
    ensures Issues(ms, c)[i] == Issue(ms[|ms| - 1 - i], DictToken(c + (|ms| - 1 - i)))
  {
    var n := |ms| - 1;
    if i > 0 {
      IssueAt(ms[..n], c, i - 1);
    } else if n > 0 {
      IssueAt(ms[..n], c, 0);
    }
  }

  /** Simultaneous substitution: `text[pos..]` cut at its matches, left to right. */
  function Cut(text: string, pos: nat, issues: seq<Issue>): seq<Piece>
    requires pos <= |text| && Ascending(text, pos, issues)
    decreases |issues|
  {
    if issues == [] then [Lit(text[pos..])]
    else
      var m := issues[0].match_;
      [Lit(text[pos..m.start]), Tok(issues[0].token, m.fragment)] + Cut(text, m.end, issues[1..])
  }

  predicate Ascending(text: string, pos: nat, issues: seq<Issue>)
    decreases |issues|
  {
    pos <= |text| && (issues == [] ||
      (InText(text, issues[0].match_) && pos <= issues[0].match_.start &&
       Ascending(text, issues[0].match_.end, issues[1..])))
  }

  lemma {:induction false} DescendingAscends(text: string, ms: seq<Match>, c: nat, pos: nat)
    requires Descending(text, ms) && pos <= |text|
    requires forall i :: 0 <= i < |ms| ==> pos <= ms[i].start
    ensures Ascending(text, pos, Issues(ms, c))
    decreases |ms|
  {
    if ms != [] {
      var n := |ms| - 1;
      assert Issues(ms, c)[1..] == Issues(ms[..n], c);
      DescendingAscends(text, ms[..n], c, ms[n].end);
    }
  }

  /** The pieces of one message whose matches take the tokens from number `c` on. */
  function Pieces(text: string, ms: seq<Match>, c: nat): seq<Piece>
    requires Descending(text, ms)
  {
    DescendingAscends(text, ms, c, 0);
    Cut(text, 0, Issues(ms, c))
  }

  lemma {:induction false} CutFull(text: string, pos: nat, issues: seq<Issue>)
    requires Ascending(text, pos, issues)
    ensures Full(Cut(text, pos, issues)) == text[pos..]
    decreases |issues|
  {
    var ps := Cut(text, pos, issues);
    if issues == [] {
      assert ps[1..] == [];
    } else {
      var m := issues[0].match_;
      var rest := Cut(text, m.end, issues[1..]);
      assert ps[1..] == [Tok(issues[0].token, m.fragment)] + rest && ps[1..][1..] == rest;
      CutFull(text, m.end, issues[1..]);
      assert text[pos..] == text[pos..m.start] + (text[m.start..m.end] + text[m.end..]);
    }
  }

  /** Starting later, but before the first match, only shortens the first literal. */
  lemma CutShift(text: string, pos: nat, q: nat, issues: seq<Issue>)
    requires Ascending(text, pos, issues) && Ascending(text, q, issues) && pos <= q
    ensures Render(Cut(text, pos, issues), {}) == text[pos..q] + Render(Cut(text, q, issues), {})
  {
    var ps, qs := Cut(text, pos, issues), Cut(text, q, issues);
    assert ps[1..] == qs[1..];
    var e := if issues == [] then |text| else issues[0].match_.start;
    assert text[pos..e] == text[pos..q] + text[q..e];
    Assoc(text[pos..q], text[q..e], Render(ps[1..], {}));
  }

  /** The message after the first `j` matches were spliced. */
  function Progress(text: string, ms: seq<Match>, j: nat, c: nat): string
    requires Descending(text, ms) && j <= |ms|
  {
    Render(Pieces(text, ms[..j], c), {})
  }

  /** Nothing to the left of an unspliced match has moved yet. */
  lemma ProgressShift(text: string, ms: seq<Match>, j: nat, c: nat)
    requires Descending(text, ms) && j < |ms|
    ensures Ascending(text, ms[j].end, Issues(ms[..j], c))
    ensures Progress(text, ms, j, c) == text[0..ms[j].end] + Render(Cut(text, ms[j].end, Issues(ms[..j], c)), {})
  {
    DescendingAscends(text, ms[..j], c, 0);
    DescendingAscends(text, ms[..j], c, ms[j].end);
    CutShift(text, 0, ms[j].end, Issues(ms[..j], c));
  }

  /** One round of the splice loop: the match to the left of all earlier ones. */
  lemma SpliceStep(text: string, ms: seq<Match>, j: nat, c: nat)
    requires Descending(text, ms) && j < |ms|
    ensures ms[j].start + |ms[j].fragment| <= |Progress(text, ms, j, c)|
    ensures Progress(text, ms, j + 1, c) == Spliced(Progress(text, ms, j, c), ms[j], DictToken(c + j))
  {
    var m, xs := ms[j], Issues(ms[..j], c);
    ProgressShift(text, ms, j, c);
    SpliceText(text, m, Render(Cut(text, m.end, xs), {}));
    SpliceRight(text, ms, j, c);
  }

  lemma SpliceRight(text: string, ms: seq<Match>, j: nat, c: nat)
    requires Descending(text, ms) && j < |ms|
    requires Ascending(text, ms[j].end, Issues(ms[..j], c))
    ensures Progress(text, ms, j + 1, c) ==
      text[0..ms[j].start] + DictToken(c + j) + Render(Cut(text, ms[j].end, Issues(ms[..j], c)), {})
  {
    var xs' := Issues(ms[..j + 1], c);
    assert ms[..j + 1][..j] == ms[..j];
    assert xs' == [Issue(ms[j], DictToken(c + j))] + Issues(ms[..j], c);
    DescendingAscends(text, ms[..j + 1], c, 0);
    SplicePieces(text, ms[j], DictToken(c + j), Issues(ms[..j], c));
  }

  lemma ProgressEnds(text: string, ms: seq<Match>, c: nat)
    requires Descending(text, ms)
    ensures Progress(text, ms, 0, c) == text
    ensures Progress(text, ms, |ms|, c) == Render(Pieces(text, ms, c), {})
  {
    assert ms[..|ms|] == ms && ms[..0] == [];
    SpliceNone(text, c);
  }

  lemma SpliceNone(text: string, c: nat)
    ensures Render(Pieces(text, [], c), {}) == text
  {
    var ps := Pieces(text, [], c);
    assert Issues([], c) == [];
    assert ps == [Lit(text[0..])] && ps[1..] == [] && text[0..] == text;
    Unit(text);
  }

  lemma SpliceText(text: string, m: Match, r: string)
    requires InText(text, m)
    ensures m.start + |m.fragment| == m.end <= |text[0..m.end] + r|
    ensures (text[0..m.end] + r)[..m.start] == text[0..m.start]
    ensures (text[0..m.end] + r)[m.start + |m.fragment|..] == r
  {
  }

  lemma SplicePieces(text: string, m: Match, token: string, xs: seq<Issue>)
    requires Ascending(text, 0, [Issue(m, token)] + xs) && Ascending(text, m.end, xs)
    ensures Render(Cut(text, 0, [Issue(m, token)] + xs), {}) ==
            text[0..m.start] + token + Render(Cut(text, m.end, xs), {})
  {
    var xs' := [Issue(m, token)] + xs;
    assert xs'[1..] == xs;
    var rest := Cut(text, m.end, xs);
    var ps := [Lit(text[0..m.start]), Tok(token, m.fragment)] + rest;
    assert Cut(text, 0, xs') == ps;
    assert ps[1..] == [Tok(token, m.fragment)] + rest && ps[1..][1..] == rest;
    Assoc(text[0..m.start], token, Render(rest, {}));
  }

  // ---------- what the mapping should hold ----------

  /** Matches spliced in a message; an empty message is skipped. */
  function Used(text: string, ms: seq<Match>): seq<Match> {
    if text == "" then [] else ms
  }

  /** Number of the first token of message `i`. */
  function Base(texts: seq<string>, kept: seq<seq<Match>>, i: nat): nat
    requires i <= |texts| == |kept|
  {
    if i == 0 then 0 else Base(texts, kept, i - 1) + |Used(texts[i - 1], kept[i - 1])|
  }

  /** The kept matches of every message are as the splice loop takes them; kept folded. */
  ghost predicate Ready(texts: seq<string>, kept: seq<seq<Match>>) {
    forall k :: Unfold(k) ==>
      |kept| == |texts| && forall i :: 0 <= i < |texts| ==> Spliceable(texts[i], Used(texts[i], kept[i]))
  }

  lemma ReadyMessage(texts: seq<string>, kept: seq<seq<Match>>, i: nat)
    requires Ready(texts, kept) && i < |texts| == |kept|
    ensures Spliceable(texts[i], Used(texts[i], kept[i]))
  {
    assert Unfold(0);
  }

  /** In no message an empty match comes before a longer one with the same start. */
  ghost predicate Tidy(texts: seq<string>, kept: seq<seq<Match>>) {
    |kept| == |texts| && forall i :: 0 <= i < |texts| ==> TidyAt(texts, kept, i)
  }

  ghost predicate TidyAt(texts: seq<string>, kept: seq<seq<Match>>, i: nat)
    requires i < |texts| == |kept|
  {
    forall k :: Unfold(k) ==> Descending(texts[i], Used(texts[i], kept[i]))
  }

  lemma TidyMessage(texts: seq<string>, kept: seq<seq<Match>>, i: nat)
    requires i < |texts| == |kept| && TidyAt(texts, kept, i)
    ensures Descending(texts[i], Used(texts[i], kept[i]))
  {
    assert Unfold(0);
  }

  function MessagePieces(texts: seq<string>, kept: seq<seq<Match>>, i: nat): seq<Piece>
    requires i < |texts| == |kept| && Descending(texts[i], Used(texts[i], kept[i]))
  {
    Pieces(texts[i], Used(texts[i], kept[i]), Base(texts, kept, i))
  }

  /** The first `n` dictionary tokens. */
  function TokensBelow(n: nat): set<string> {
    if n == 0 then {} else TokensBelow(n - 1) + {DictToken(n - 1)}
  }

  /** The keys of `m` are the first `n` dictionary tokens. */
  ghost predicate KeysBelow(m: Mapping, n: nat) {
    forall k :: Unfold(k) ==> m.Keys == TokensBelow(n)
  }

  lemma {:induction false} BelowHolds(n: nat, t: string)
    ensures t in TokensBelow(n) <==> exists k: nat :: k < n && t == DictToken(k)
  {
    if n > 0 {
      BelowHolds(n - 1, t);
    }
  }

  lemma {:induction false} CutMapsTo(text: string, pos: nat, issues: seq<Issue>, m: Mapping)
    requires Ascending(text, pos, issues)
    requires forall i :: 0 <= i < |issues| ==>
      issues[i].token in m && m[issues[i].token] == issues[i].match_.fragment
    ensures MapsTo(Cut(text, pos, issues), m)
    decreases |issues|
  {
    if issues != [] {
      CutMapsTo(text, issues[0].match_.end, issues[1..], m);
    }
  }

  lemma DictTokensIssued(m: Mapping, n: nat)
    requires KeysBelow(m, n)
    ensures TokenSet(m.Keys)
  {
    assert Unfold(0);
    forall t | t in m.Keys ensures Issued(t) {
      BelowHolds(n, t);
      var k: nat :| k < n && t == DictToken(k);
      DictTokenShape(k);
    }
    IssuedTokenSet(m.Keys);
  }

  lemma MessageFull(texts: seq<string>, kept: seq<seq<Match>>, i: nat)
    requires i < |texts| == |kept| && Descending(texts[i], Used(texts[i], kept[i]))
    ensures Full(MessagePieces(texts, kept, i)) == texts[i]
  {
    var ms, c := Used(texts[i], kept[i]), Base(texts, kept, i);
    DescendingAscends(texts[i], ms, c, 0);
    CutFull(texts[i], 0, Issues(ms, c));
    assert texts[i][0..] == texts[i];
  }

  ghost predicate HoldsToken(texts: seq<string>, m: Mapping) {
    exists i, t :: 0 <= i < |texts| && t in m && Contains(texts[i], t)
  }

  /** Every order of restoring passes gives back every message. */
  ghost predicate AllRestored(masked: seq<string>, texts: seq<string>, m: Mapping) {
    |masked| == |texts| &&
    forall i, order :: 0 <= i < |texts| && IsOrder(order, m) ==> Restores(masked[i], order, m, texts[i])
  }

  /** The dictionary pass over all messages of a request. */
  ghost predicate Masked(texts: seq<string>, kept: seq<seq<Match>>, masked: seq<string>, m: Mapping) {
    forall k :: Outer(k) ==>
      |kept| == |texts| && Ready(texts, kept) && |masked| == |texts| &&
      KeysBelow(m, Base(texts, kept, |texts|)) &&
      forall i :: 0 <= i < |texts| ==> MessageMasked(texts, kept, i, masked[i], m)
  }

  lemma MaskedOpen(texts: seq<string>, kept: seq<seq<Match>>, masked: seq<string>, m: Mapping)
    requires Masked(texts, kept, masked, m)
    ensures |kept| == |texts| == |masked| && Ready(texts, kept) && KeysBelow(m, Base(texts, kept, |texts|))
    ensures forall i :: 0 <= i < |texts| ==> MessageMasked(texts, kept, i, masked[i], m)
  {
    assert Outer(0);
  }

  ghost predicate MessageMasked(texts: seq<string>, kept: seq<seq<Match>>, i: nat, content: string, m: Mapping)
    requires i < |texts| == |kept|
  {
    MessageSpliced(texts[i], Used(texts[i], kept[i]), Base(texts, kept, i), content, m)
  }

  /** `content` is what the splice loop makes of `text` with the tokens from number `c` on, and `m`
      knows what each of these tokens stands for. */
  ghost predicate MessageSpliced(text: string, ms: seq<Match>, c: nat, content: string, m: Mapping) {
    forall k :: Unfold(k) ==> content == SplicedTo(text, ms, |ms|, c) && Knows(m, ms, |ms|, c)
  }

  /** The loop and the simultaneous substitution of the first `j` matches agree. */
  ghost predicate Agreeing(text: string, ms: seq<Match>, j: nat, c: nat) {
    forall k :: Unfold(k) ==>
      Descending(text, ms) && j <= |ms| && SplicedTo(text, ms, j, c) == Progress(text, ms, j, c)
  }

  lemma {:induction false} SplicedIsProgress(text: string, ms: seq<Match>, j: nat, c: nat)
    requires j <= |ms| && Agreeing(text, ms, 0, c)
    ensures Agreeing(text, ms, j, c)
  {
    if j > 0 {
      SplicedIsProgress(text, ms, j - 1, c);
      ProgressNext(text, ms, j - 1, c);
    }
  }

  lemma ProgressNext(text: string, ms: seq<Match>, j: nat, c: nat)
    requires j < |ms| && Agreeing(text, ms, j, c)
    ensures Agreeing(text, ms, j + 1, c)
  {
    assert Unfold(0);
    SpliceStep(text, ms, j, c);
  }

  /** With every match in position, the loop is the simultaneous substitution of all fragments. */
  lemma SplicedIsPieces(text: string, ms: seq<Match>, c: nat, content: string, m: Mapping)
    requires Descending(text, ms) && MessageSpliced(text, ms, c, content, m)
    ensures content == Render(Pieces(text, ms, c), {}) && MapsTo(Pieces(text, ms, c), m)
  {
    assert Unfold(0);
    ProgressEnds(text, ms, c);
    SplicedIsProgress(text, ms, |ms|, c);
    KnownPieces(text, ms, c, m);
  }

  lemma KnownPieces(text: string, ms: seq<Match>, c: nat, m: Mapping)
    requires Descending(text, ms) && Knows(m, ms, |ms|, c)
    ensures MapsTo(Pieces(text, ms, c), m)
  {
    assert Unfold(0);
    DescendingAscends(text, ms, c, 0);
    var xs := Issues(ms, c);
    if ms != [] {
      IssueAt(ms, c, 0);
    }
    forall i | 0 <= i < |xs|
      ensures xs[i].token in m && m[xs[i].token] == xs[i].match_.fragment
    {
      IssueAt(ms, c, i);
      assert Owns(m, c + (|ms| - 1 - i), ms[|ms| - 1 - i]);
    }
    CutMapsTo(text, 0, xs, m);
  }

  /** The first `n` messages are masked, the others still as they came. */
  ghost predicate MaskedTo(texts: seq<string>, kept: seq<seq<Match>>, n: nat, contents: seq<string>, m: Mapping)
    requires n <= |texts| == |kept|
  {
    forall k :: Unfold(k) ==>
      |contents| == |texts| && (forall i :: n <= i < |texts| ==> contents[i] == texts[i]) &&
      forall i :: 0 <= i < n ==> MessageMasked(texts, kept, i, contents[i], m)
  }

  lemma MaskedNone(texts: seq<string>, kept: seq<seq<Match>>)
    requires |kept| == |texts|
    ensures MaskedTo(texts, kept, 0, texts, map[])
  {
  }

  lemma MaskedRest(texts: seq<string>, kept: seq<seq<Match>>, n: nat, contents: seq<string>, m: Mapping)
    requires Ready(texts, kept) && n < |texts| == |kept| && MaskedTo(texts, kept, n, contents, m)
    ensures |contents| == |texts| && contents[n] == texts[n]
    ensures Spliceable(texts[n], Used(texts[n], kept[n]))
  {
    assert Unfold(0);
  }

  lemma MaskedNext(texts: seq<string>, kept: seq<seq<Match>>, n: nat, contents: seq<string>, m: Mapping,
                   content: string, m': Mapping)
    requires n < |texts| == |kept| == |contents| && MaskedTo(texts, kept, n, contents, m)
    requires Grows(m, m') && MessageMasked(texts, kept, n, content, m')
    ensures MaskedTo(texts, kept, n + 1, contents[n := content], m')
  {
    assert Unfold(0);
    forall i | 0 <= i < n ensures MessageMasked(texts, kept, i, contents[i], m') {
      assert MessageMasked(texts, kept, i, contents[i], m);
      KnowsGrows(Used(texts[i], kept[i]), Base(texts, kept, i), m, m');
    }
  }

  lemma MaskedDone(texts: seq<string>, kept: seq<seq<Match>>, masked: seq<string>, m: Mapping)
    requires |kept| == |texts| && Ready(texts, kept) && MaskedTo(texts, kept, |texts|, masked, m)
    requires KeysBelow(m, Base(texts, kept, |texts|))
    ensures Masked(texts, kept, masked, m)
  {
    assert Unfold(0);
  }

  lemma KnowsGrows(ms: seq<Match>, c: nat, m: Mapping, m': Mapping)
    requires Knows(m, ms, |ms|, c) && Grows(m, m')
    ensures Knows(m', ms, |ms|, c)
  {
    assert Unfold(0);
    forall i | 0 <= i < |ms| ensures Owns(m', c + i, ms[i]) {
      assert Owns(m, c + i, ms[i]);
    }
  }

  /** Entries already in the mapping are never changed. */
  ghost predicate Grows(m: Mapping, m': Mapping) {
    forall t :: t in m ==> t in m' && m'[t] == m[t]
  }

  /** No message held an issued token, so every order of passes restores the whole request. */
  lemma DictionaryRoundTrip(texts: seq<string>, kept: seq<seq<Match>>, masked: seq<string>, m: Mapping)
    requires Masked(texts, kept, masked, m) && Tidy(texts, kept) && !HoldsToken(texts, m)
    ensures AllRestored(masked, texts, m)
  {
    MaskedOpen(texts, kept, masked, m);
    forall i, order | 0 <= i < |texts| && IsOrder(order, m)
      ensures Restores(masked[i], order, m, texts[i])
    {
      assert MessageMasked(texts, kept, i, masked[i], m) && TidyAt(texts, kept, i);
      forall t | t in m ensures !Contains(texts[i], t) {}
      MessageRoundTrip(texts, kept, i, masked[i], m, order);
    }
  }

  lemma MessageRoundTrip(texts: seq<string>, kept: seq<seq<Match>>, i: nat, content: string, m: Mapping,
                         order: seq<string>)
    requires i < |texts| == |kept| && TidyAt(texts, kept, i) && MessageMasked(texts, kept, i, content, m)
    requires KeysBelow(m, Base(texts, kept, |texts|)) && IsOrder(order, m)
    requires forall t :: t in m ==> !Contains(texts[i], t)
    ensures Restores(content, order, m, texts[i])
  {
    DictTokensIssued(m, Base(texts, kept, |texts|));
    TidyMessage(texts, kept, i);
    MessageFull(texts, kept, i);
    SplicedIsPieces(texts[i], Used(texts[i], kept[i]), Base(texts, kept, i), content, m);
    OrderInMap(order, m);
    RoundTrip(MessagePieces(texts, kept, i), order, m);
  }

  /** When no fragment can overlap its own token, every order restores the whole request if and only if
      no message held an issued token and no empty match was spliced before a longer one. */
  lemma DictionaryExact(texts: seq<string>, kept: seq<seq<Match>>, masked: seq<string>, m: Mapping)
    requires Masked(texts, kept, masked, m) && forall t :: t in m ==> Apart(m[t], t)
    ensures AllRestored(masked, texts, m) <==> Tidy(texts, kept) && !HoldsToken(texts, m)
  {
    if !HoldsToken(texts, m) {
      EmptiesExact(texts, kept, masked, m);
    } else {
      MaskedOpen(texts, kept, masked, m);
      DictTokensIssued(m, Base(texts, kept, |texts|));
      HeldTokenFails(texts, masked, m);
    }
  }

  /** A message that held an issued token is lost in some order of passes. */
  lemma HeldTokenFails(texts: seq<string>, masked: seq<string>, m: Mapping)
    requires TokenSet(m.Keys) && |masked| == |texts| && HoldsToken(texts, m)
    requires forall t :: t in m ==> Apart(m[t], t)
    ensures !AllRestored(masked, texts, m)
  {
    var i, t :| 0 <= i < |texts| && t in m && Contains(texts[i], t);
    var order := TokenLastFails(masked[i], texts[i], t, m);
    assert !Restores(masked[i], order, m, texts[i]);
  }

  /** With no token in any message, everything is restored if and only if no empty match was spliced
      before a longer one with its start, whatever the fragments. */
  lemma EmptiesExact(texts: seq<string>, kept: seq<seq<Match>>, masked: seq<string>, m: Mapping)
    requires Masked(texts, kept, masked, m) && !HoldsToken(texts, m)
    ensures AllRestored(masked, texts, m) <==> Tidy(texts, kept)
  {
    if Tidy(texts, kept) {
      DictionaryRoundTrip(texts, kept, masked, m);
    } else {
      MaskedOpen(texts, kept, masked, m);
      var i :| 0 <= i < |texts| && !TidyAt(texts, kept, i);
      ReadyMessage(texts, kept, i);
      assert MessageMasked(texts, kept, i, masked[i], m);
      forall t | t in m ensures !Contains(texts[i], t) {}
      UntidyFails(texts, kept, i, masked[i], m);
    }
  }

  lemma UntidyFails(texts: seq<string>, kept: seq<seq<Match>>, i: nat, content: string, m: Mapping)
    requires i < |texts| == |kept| && Spliceable(texts[i], Used(texts[i], kept[i])) && !TidyAt(texts, kept, i)
    requires MessageMasked(texts, kept, i, content, m) && KeysBelow(m, Base(texts, kept, |texts|))
    requires forall t :: t in m ==> !Contains(texts[i], t)
    ensures exists order :: IsOrder(order, m) && !Restores(content, order, m, texts[i])
  {
    var text, ms, c := texts[i], Used(texts[i], kept[i]), Base(texts, kept, i);
    KeysFresh(text, m, Base(texts, kept, |texts|));
    SpliceableExact(text, ms);
    MessageExact(text, ms, c, m);
    assert Unfold(0);
  }

  lemma SpliceableExact(text: string, ms: seq<Match>)
    requires Spliceable(text, ms)
    ensures Descending(text, ms) <==> forall i, j :: 0 <= i < j < |ms| ==> !EmptyFirst(ms[i], ms[j])
  {
    assert Unfold(0);
    DescendingExact(text, ms);
  }

  lemma KeysFresh(text: string, m: Mapping, n: nat)
    requires KeysBelow(m, n) && forall t :: t in m ==> !Contains(text, t)
    ensures FreshTokens(text, m)
  {
    DictTokensIssued(m, n);
    assert Unfold(0);
    forall t | t in m ensures OneClosing(t) && t[0] == '[' {
      BelowHolds(n, t);
      var k: nat :| k < n && t == DictToken(k);
      OneClosingToken(k);
    }
  }

  lemma OneClosingToken(n: nat)
    ensures OneClosing(DictToken(n)) && DictToken(n)[0] == '['
  {
    DictTokenShape(n);
    var t := DictToken(n);
    assert forall i :: 0 <= i < |t| - 1 ==> t[..|t| - 1][i] == t[i];
  }

  // ---------- the PII pass ----------

  /** One message after the replacements were applied in the given order. */
  function PiiMask(s: string, order: seq<string>, repl: Mapping): string
    requires forall t | t in order :: t in repl
    decreases |order|
  {
    if order == [] then s
    else PiiMask(ReplaceAll(s, repl[order[0]], order[0]), order[1..], repl)
  }

  /** A literal cut at the leftmost non-overlapping occurrences of `o`. */
  function Chop(x: string, o: string, token: string): seq<Piece>
    requires o != ""
  {
    if |x| < |o| then [Lit(x)]
    else if x[..|o|] == o then [Tok(token, o)] + Chop(x[|o|..], o, token)
    else [Lit([x[0]])] + Chop(x[1..], o, token)
  }

  lemma {:induction false} ChopIsReplace(x: string, o: string, token: string)
    requires o != ""
    ensures Render(Chop(x, o, token), {}) == ReplaceAll(x, o, token)
    ensures Full(Chop(x, o, token)) == x
    ensures forall i :: 0 <= i < |Chop(x, o, token)| && Chop(x, o, token)[i].Tok? ==>
      Chop(x, o, token)[i] == Tok(token, o)
  {
    var ps := Chop(x, o, token);
    if |x| < |o| {
      assert ps[1..] == [];
    } else if x[..|o|] == o {
      ChopIsReplace(x[|o|..], o, token);
      assert ps[1..] == Chop(x[|o|..], o, token) && x == o + x[|o|..];
    } else {
      ChopIsReplace(x[1..], o, token);
      assert ps[1..] == Chop(x[1..], o, token) && x == [x[0]] + x[1..];
    }
  }

  /** All literal runs of `x + ps` cut at `o`; `x` is the literal text read so far. */
  function Cover(x: string, ps: seq<Piece>, o: string, token: string): seq<Piece>
    requires o != ""
    decreases |ps|
  {
    if ps == [] then Chop(x, o, token)
    else match ps[0]
      case Lit(text) => Cover(x + text, ps[1..], o, token)
      case Tok(_, _) => Chop(x, o, token) + [ps[0]] + Cover("", ps[1..], o, token)
  }

  /** Replacing an original that overlaps no token only masks more of the literal text. */
  lemma {:induction false} CoverIsReplace(x: string, ps: seq<Piece>, o: string, token: string)
    requires o != "" && forall i :: 0 <= i < |ps| && ps[i].Tok? ==> Apart(ps[i].token, o)
    ensures ReplaceAll(x + Render(ps, {}), o, token) == Render(Cover(x, ps, o, token), {})
    decreases |ps|
  {
    ChopIsReplace(x, o, token);
    if ps == [] {
      Unit(x);
    } else {
      var rest := ps[1..];
      if ps[0].Lit? {
        Assoc(x, ps[0].text, Render(rest, {}));
        CoverIsReplace(x + ps[0].text, rest, o, token);
      } else {
        var u, r := ps[0].token, Render(rest, {});
        Assoc(x, u, r);
        ReplaceAcross(x, u, r, o, token);
        Unit(r);
        CoverIsReplace("", rest, o, token);
        CoverParts(Chop(x, o, token), ps[0], Cover("", rest, o, token));
      }
    }
  }

  lemma CoverParts(a: seq<Piece>, p: Piece, b: seq<Piece>)
    ensures Render(a + [p] + b, {}) == Render(a, {}) + Shown(p, {}) + Render(b, {})
    ensures Full(a + [p] + b) == Full(a) + Original(p) + Full(b)
  {
    var ps, i := a + [p] + b, |a|;
    assert ps[..i] == a && ps[i] == p && ps[i + 1..] == b;
    RenderSplit(ps, {}, i);
    FullSplit(ps, i);
  }

  lemma {:induction false} CoverKeeps(x: string, ps: seq<Piece>, o: string, token: string, m: Mapping)
    requires o != "" && MapsTo(ps, m) && token in m && m[token] == o
    ensures Full(Cover(x, ps, o, token)) == x + Full(ps)
    ensures MapsTo(Cover(x, ps, o, token), m)
    decreases |ps|
  {
    ChopIsReplace(x, o, token);
    if ps == [] {
      Unit(x);
    } else {
      var rest := ps[1..];
      if ps[0].Lit? {
        Assoc(x, ps[0].text, Full(rest));
        CoverKeeps(x + ps[0].text, rest, o, token, m);
      } else {
        CoverKeeps("", rest, o, token, m);
        Unit(Full(rest));
        CoverParts(Chop(x, o, token), ps[0], Cover("", rest, o, token));
        Assoc(x, Original(ps[0]), Full(rest));
      }
    }
  }

  /** No original, of either pass, overlaps a token that may be in the text. */
  ghost predicate PiiApart(repl: Mapping, T: set<string>) {
    forall p, t :: p in repl && t in T ==> repl[p] != "" && Apart(t, repl[p])
  }

  lemma {:induction false} PiiPieces(ps: seq<Piece>, order: seq<string>, repl: Mapping, m: Mapping)
    returns (qs: seq<Piece>)
    requires MapsTo(ps, m) && PiiApart(repl, m.Keys)
    requires forall p | p in order :: p in repl && p in m && m[p] == repl[p]
    ensures Render(qs, {}) == PiiMask(Render(ps, {}), order, repl)
    ensures Full(qs) == Full(ps) && MapsTo(qs, m)
    decreases |order|
  {
    if order == [] {
      qs := ps;
    } else {
      var p := order[0];
      var o := repl[p];
      qs := Cover("", ps, o, p);
      CoverIsReplace("", ps, o, p);
      CoverKeeps("", ps, o, p, m);
      Unit(Render(ps, {}));
      Unit(Full(ps));
      qs := PiiPieces(qs, order[1..], repl, m);
    }
  }

  /** Whatever order the replacements ran in, and whatever order the restoring passes run in,
      the merged mapping gives back the text from before all masking. */
  lemma PiiRoundTrip(ps: seq<Piece>, m: Mapping, repl: Mapping, maskOrder: seq<string>, order: seq<string>)
    requires MapsTo(ps, m) && m.Keys !! repl.Keys
    requires TokenSet((m + repl).Keys) && PiiApart(repl, (m + repl).Keys)
    requires forall t :: t in m + repl ==> !Contains(Full(ps), t)
    requires IsOrder(maskOrder, repl) && IsOrder(order, m + repl)
    ensures forall t | t in maskOrder :: t in repl
    ensures forall t | t in order :: t in m + repl
    ensures Restore(PiiMask(Render(ps, {}), maskOrder, repl), order, m + repl) == Full(ps)
  {
    OrderInMap(maskOrder, repl);
    OrderInMap(order, m + repl);
    var qs := PiiPieces(ps, maskOrder, repl, m + repl);
    RoundTrip(qs, order, m + repl);
  }

  /** No original of the PII pass is left in the text, whatever order the replacements ran in. */
  lemma {:induction false} PiiHidden(s: string, order: seq<string>, repl: Mapping, p: string)
    requires PiiApart(repl, repl.Keys) && (forall t | t in order :: t in repl) && p in repl
    requires p in order || !Contains(s, repl[p])
    ensures !Contains(PiiMask(s, order, repl), repl[p])
    decreases |order|
  {
    if order != [] {
      var q, rest := order[0], order[1..];
      var s' := ReplaceAll(s, repl[q], q);
      if repl[q] == repl[p] {
        PassErases("", s, repl[q], q);
        Unit(s');
      } else if !Contains(s, repl[p]) {
        Unit(s);
        ReplaceKeepsOut("", s, repl[q], q, repl[p]);
        Unit(s');
      }
      PiiHidden(s', rest, repl, p);
    }
  }

  ghost predicate PiiMasked(before: seq<string>, after: seq<string>, repl: Mapping) {
    |after| == |before| &&
    forall i :: 0 <= i < |before| ==> PiiPass(before[i], repl, after[i])
  }

  /** `r` is `s` after the replacements ran in some order. */
  ghost predicate PiiPass(s: string, repl: Mapping, r: string) {
    exists order :: IsOrder(order, repl) && PiiShows(s, order, repl, r)
  }

  ghost predicate PiiShows(s: string, order: seq<string>, repl: Mapping, r: string) {
    (forall t | t in order :: t in repl) && r == PiiMask(s, order, repl)
  }

  /** The replacements carry rule tokens, whatever the labels. */
  ghost predicate RuleTokens(repl: Mapping) {
    forall p :: p in repl ==> exists name, n :: p == PiiToken(name, n)
  }

  lemma TokensDiffer(m: Mapping, n: nat, repl: Mapping)
    requires KeysBelow(m, n) && RuleTokens(repl)
    ensures m.Keys !! repl.Keys
  {
    assert Unfold(0);
    forall t | t in m ensures t !in repl {
      BelowHolds(n, t);
      var k: nat :| k < n && t == DictToken(k);
      assert t[1] == 'M';
      RuleTokenOpens(repl);
    }
  }

  lemma RuleTokenOpens(repl: Mapping)
    requires RuleTokens(repl)
    ensures forall p :: p in repl ==> |p| > 1 && p[1] == '['
  {
    forall p | p in repl ensures |p| > 1 && p[1] == '[' {
      var name, n :| p == PiiToken(name, n);
    }
  }

  /** Labels without brackets give tokens that can never overlap with each other or with those of the
      dictionary pass. */
  lemma PlainLabels(m: Mapping, n: nat, repl: Mapping)
    requires KeysBelow(m, n) && forall p :: p in repl ==> PiiShape(p)
    ensures TokenSet((m + repl).Keys)
  {
    assert Unfold(0);
    forall t | t in m + repl ensures Issued(t) {
      if t in m {
        BelowHolds(n, t);
        var k: nat :| k < n && t == DictToken(k);
        DictTokenShape(k);
      }
    }
    IssuedTokenSet((m + repl).Keys);
  }

  /** Both passes over a whole request, then any restoring order: every message comes back. */
  lemma RequestRoundTrip(texts: seq<string>, kept: seq<seq<Match>>, dict: seq<string>, m: Mapping,
                         masked: seq<string>, repl: Mapping)
    requires Masked(texts, kept, dict, m) && PiiMasked(dict, masked, repl) && Tidy(texts, kept)
    requires RuleTokens(repl) && TokenSet((m + repl).Keys)
    requires PiiApart(repl, (m + repl).Keys) && !HoldsToken(texts, m + repl)
    ensures AllRestored(masked, texts, m + repl)
  {
    MaskedOpen(texts, kept, dict, m);
    TokensDiffer(m, Base(texts, kept, |texts|), repl);
    forall i, order | 0 <= i < |texts| && IsOrder(order, m + repl)
      ensures Restores(masked[i], order, m + repl, texts[i])
    {
      assert MessageMasked(texts, kept, i, dict[i], m) && PiiPass(dict[i], repl, masked[i]) && TidyAt(texts, kept, i);
      var maskOrder :| IsOrder(maskOrder, repl) && PiiShows(dict[i], maskOrder, repl, masked[i]);
      TidyMessage(texts, kept, i);
      MessageFull(texts, kept, i);
      SplicedIsPieces(texts[i], Used(texts[i], kept[i]), Base(texts, kept, i), dict[i], m);
      PiiRoundTrip(MessagePieces(texts, kept, i), m, repl, maskOrder, order);
    }
  }

  /** Putting back the originals of the PII pass alone undoes that pass. */
  lemma PiiUndone(s: string, r: string, repl: Mapping, order: seq<string>)
    requires PiiPass(s, repl, r) && TokenSet(repl.Keys) && PiiApart(repl, repl.Keys) && IsOrder(order, repl)
    requires forall p :: p in repl ==> !Contains(s, p)
    ensures Restores(r, order, repl, s)
  {
    var ps, none: Mapping := [Lit(s)], map[];
    var maskOrder :| IsOrder(maskOrder, repl) && PiiShows(s, maskOrder, repl, r);
    assert ps[1..] == [] && none + repl == repl;
    Unit(s);
    assert Full(ps) == s + Full([]) && Render(ps, {}) == s + Render([], {});
    OrderInMap(order, repl);
    PiiRoundTrip(ps, none, repl, maskOrder, order);
  }

  lemma {:induction false} RestoreWithin(s: string, order: seq<string>, m: Mapping, more: Mapping)
    requires forall t | t in order :: t in m
    requires forall t :: t in m ==> t in more && more[t] == m[t]
    ensures forall t | t in order :: t in more
    ensures Restore(s, order, m) == Restore(s, order, more)
    decreases |order|
  {
    if order != [] {
      RestoreWithin(ReplaceAll(s, order[0], m[order[0]]), order[1..], m, more);
    }
  }

  lemma OrdersJoin(a: seq<string>, b: seq<string>, repl: Mapping, m: Mapping)
    requires IsOrder(a, repl) && IsOrder(b, m) && m.Keys !! repl.Keys
    ensures IsOrder(a + b, m + repl)
  {
    OrderInMap(a, repl);
    OrderInMap(b, m);
    assert Elements(a + b) == Elements(a) + Elements(b);
    forall i, j | 0 <= i < |a| && 0 <= j < |b| ensures a[i] != b[j] {
      assert a[i] in a && b[j] in b;
    }
  }

  /** An order that loses the message after the dictionary pass, after the originals of the PII pass,
      loses it after both passes. */
  lemma LostAfterBoth(text: string, s: string, r: string, repl: Mapping, m: Mapping, order: seq<string>)
    requires PiiPass(s, repl, r) && m.Keys !! repl.Keys && TokenSet(repl.Keys) && PiiApart(repl, repl.Keys)
    requires forall p :: p in repl ==> !Contains(s, p)
    requires IsOrder(order, m) && !Restores(s, order, m, text)
    ensures exists both :: IsOrder(both, m + repl) && !Restores(r, both, m + repl, text)
  {
    var first := OrderExists(repl.Keys);
    PiiUndone(s, r, repl, first);
    OrderInMap(order, m);
    OrdersJoin(first, order, repl, m);
    OrderInMap(first + order, m + repl);
    RestoreWithin(r, first, repl, m + repl);
    RestoreWithin(s, order, m, m + repl);
    RestoreAppend(r, first, order, m + repl);
  }

  /** The message that the dictionary pass left holds no rule token if it held none before. */
  lemma NoRuleToken(texts: seq<string>, kept: seq<seq<Match>>, i: nat, content: string, m: Mapping, repl: Mapping)
    requires i < |texts| == |kept| && Spliceable(texts[i], Used(texts[i], kept[i])) && !TidyAt(texts, kept, i)
    requires MessageMasked(texts, kept, i, content, m) && RuleTokens(repl) && m.Keys !! repl.Keys
    requires TokenSet((m + repl).Keys) && forall t :: t in m + repl ==> !Contains(texts[i], t)
    ensures forall p :: p in repl ==> !Contains(content, p)
  {
    var text, ms, c := texts[i], Used(texts[i], kept[i]), Base(texts, kept, i);
    UntidyMangles(texts, kept, i);
    MessageShows(texts, kept, i, content, m);
    KnowsGrows(ms, c, m, m + repl);
    forall p | p in repl ensures !Contains(content, p) {
      NoDictToken(repl, p);
      StaysAbsent(text, ms, c, m + repl, p);
    }
  }

  lemma MessageShows(texts: seq<string>, kept: seq<seq<Match>>, i: nat, content: string, m: Mapping)
    requires i < |texts| == |kept| && MessageMasked(texts, kept, i, content, m)
    ensures var ms, c := Used(texts[i], kept[i]), Base(texts, kept, i);
      content == SplicedTo(texts[i], ms, |ms|, c) && Knows(m, ms, |ms|, c)
  {
    assert Unfold(0);
  }

  lemma UntidyMangles(texts: seq<string>, kept: seq<seq<Match>>, i: nat)
    requires i < |texts| == |kept| && Spliceable(texts[i], Used(texts[i], kept[i])) && !TidyAt(texts, kept, i)
    ensures !NoneMangled(Used(texts[i], kept[i]), |Used(texts[i], kept[i])|)
  {
    var ms := Used(texts[i], kept[i]);
    SpliceableExact(texts[i], ms);
    assert Unfold(0);
    var a, b :| 0 <= a < b < |ms| && EmptyFirst(ms[a], ms[b]);
    assert Mangled(ms, b);
  }

  lemma NoDictToken(repl: Mapping, p: string)
    requires RuleTokens(repl) && p in repl
    ensures p != "" && p[0] == '[' && forall k: nat :: p != DictToken(k)
  {
    var name, n :| p == PiiToken(name, n);
    forall k: nat ensures p != DictToken(k) {
      assert p[1] == '[' && DictToken(k)[1] == 'M';
    }
  }

  lemma UntidyRequestFails(texts: seq<string>, kept: seq<seq<Match>>, dict: seq<string>, m: Mapping,
                           masked: seq<string>, repl: Mapping)
    requires Masked(texts, kept, dict, m) && PiiMasked(dict, masked, repl) && !Tidy(texts, kept)
    requires RuleTokens(repl) && TokenSet((m + repl).Keys) && PiiApart(repl, (m + repl).Keys)
    requires !HoldsToken(texts, m + repl)
    ensures !AllRestored(masked, texts, m + repl)
  {
    MaskedOpen(texts, kept, dict, m);
    TokensDiffer(m, Base(texts, kept, |texts|), repl);
    var i :| 0 <= i < |texts| && !TidyAt(texts, kept, i);
    ReadyMessage(texts, kept, i);
    assert MessageMasked(texts, kept, i, dict[i], m) && PiiPass(dict[i], repl, masked[i]);
    forall t | t in m + repl ensures !Contains(texts[i], t) {}
    UntidyFails(texts, kept, i, dict[i], m);
    var order :| IsOrder(order, m) && !Restores(dict[i], order, m, texts[i]);
    NoRuleToken(texts, kept, i, dict[i], m, repl);
    LostAfterBoth(texts[i], dict[i], masked[i], repl, m, order);
  }

  /** Both passes together: every order of restoring gives back every message if and only if none held
      a token and no empty match was spliced before a longer one with its start; given that no original
      can overlap a token, its own included. */
  lemma RequestExact(texts: seq<string>, kept: seq<seq<Match>>, dict: seq<string>, m: Mapping,
                     masked: seq<string>, repl: Mapping)
    requires Masked(texts, kept, dict, m) && PiiMasked(dict, masked, repl)
    requires RuleTokens(repl) && TokenSet((m + repl).Keys) && PiiApart(repl, (m + repl).Keys)
    requires forall t :: t in m ==> Apart(m[t], t)
    ensures AllRestored(masked, texts, m + repl) <==> Tidy(texts, kept) && !HoldsToken(texts, m + repl)
  {
    if HoldsToken(texts, m + repl) {
      forall t | t in m + repl ensures Apart((m + repl)[t], t) {
        assert t in repl ==> Apart(t, repl[t]);
      }
      MaskedOpen(texts, kept, dict, m);
      HeldTokenFails(texts, masked, m + repl);
    } else if Tidy(texts, kept) {
      RequestRoundTrip(texts, kept, dict, m, masked, repl);
    } else {
      UntidyRequestFails(texts, kept, dict, m, masked, repl);
    }
  }
}
