/** The shield middleware's own loops, proved against the passes of module Shield. */
module ShieldRequest {
  import opened Sequences
  import opened Folding
  import opened Texts
  import opened Masking
  import opened Tokens
  import opened Overlaps
  import opened Splices
  import opened Shield

  /** Restoring loop over a Go map: the next entry is any one not visited yet. */
  method RestoreLoop(s: string, m: Mapping) returns (r: string, ghost order: seq<string>)
    ensures IsOrder(order, m) && Restores(s, order, m, r)
    ensures WellFormed(m) ==> r == Unmask(s, m)
  {
    r, order := s, [];
    var left := m.Keys;
    while left != {}
      invariant left <= m.Keys && Elements(order) == m.Keys - left
      invariant Distinct(order) && forall t | t in order :: t in m
      invariant r == Restore(s, order, m)
      decreases left
    {
      var placeholder :| placeholder in left;
      assert forall i :: 0 <= i < |order| ==> order[i] in Elements(order);
      RestoreAppend(s, order, [placeholder], m);
      assert [placeholder][1..] == [];
      r := ReplaceAll(r, placeholder, m[placeholder]);
      order := order + [placeholder];
      left := left - {placeholder};
      assert Elements(order) == Elements(order[..|order| - 1]) + {placeholder};
    }
    if WellFormed(m) {
      RestoreIsUnmask(s, order, m);
    }
  }

  /** The dictionary pass after the first `n` messages, with `c` tokens issued. */
  ghost predicate DictSoFar(texts: seq<string>, kept: seq<seq<Match>>, n: nat, contents: seq<string>, m: Mapping,
                            c: nat)
  {
    forall k :: Outer(k) ==>
      Ready(texts, kept) && n <= |texts| == |kept| && MaskedTo(texts, kept, n, contents, m) &&
      c == Base(texts, kept, n) && KeysBelow(m, c)
  }

  lemma DictStart(texts: seq<string>, kept: seq<seq<Match>>)
    requires |kept| == |texts| && Ready(texts, kept)
    ensures DictSoFar(texts, kept, 0, texts, map[], 0)
  {
    NoKeys();
    MaskedNone(texts, kept);
  }

  lemma DictOpen(texts: seq<string>, kept: seq<seq<Match>>, n: nat, contents: seq<string>, m: Mapping, c: nat)
    requires DictSoFar(texts, kept, n, contents, m, c)
    ensures Ready(texts, kept) && n <= |texts| == |kept| && MaskedTo(texts, kept, n, contents, m)
    ensures c == Base(texts, kept, n) && KeysBelow(m, c)
  {
    assert Outer(0);
  }

  lemma DictClose(texts: seq<string>, kept: seq<seq<Match>>, n: nat, contents: seq<string>, m: Mapping, c: nat)
    requires Ready(texts, kept) && n <= |texts| == |kept| && MaskedTo(texts, kept, n, contents, m)
    requires c == Base(texts, kept, n) && KeysBelow(m, c)
    ensures DictSoFar(texts, kept, n, contents, m, c)
  {
  }

  lemma DictDone(texts: seq<string>, kept: seq<seq<Match>>, contents: seq<string>, m: Mapping, c: nat)
    requires DictSoFar(texts, kept, |texts|, contents, m, c)
    ensures Masked(texts, kept, contents, m)
  {
    DictOpen(texts, kept, |texts|, contents, m, c);
    MaskedDone(texts, kept, contents, m);
  }

  /** One request in the middleware: message contents, token mapping, token counter. */
  class Request {
    var contents: seq<string>
    var mapping: Mapping
    var counter: nat

    constructor (texts: seq<string>)
      ensures contents == texts && mapping == map[] && counter == 0
    {
      contents, mapping, counter := texts, map[], 0;
    }

    /** Splices the kept matches of one message, rightmost first. */
    method SpliceMessage(mi: nat, ms: seq<Match>)
      requires mi < |contents| && Spliceable(contents[mi], ms)
      requires KeysBelow(mapping, counter)
      modifies this
      ensures counter == old(counter) + |ms| && KeysBelow(mapping, counter)
      ensures |contents| == |old(contents)| && contents == old(contents)[mi := contents[mi]]
      ensures MessageSpliced(old(contents[mi]), ms, old(counter), contents[mi], mapping)
      ensures Grows(old(mapping), mapping)
    {
      ghost var before, text, c := contents, contents[mi], counter;
      SpliceStart(text, ms, c);
      var j := 0;
      while j < |ms|
        invariant 0 <= j <= |ms| && counter == c + j
        invariant |contents| == |before| && contents == before[mi := contents[mi]]
        invariant InProgress(text, ms, j, c, contents[mi])
        invariant Assigned(mapping, ms, j, c) && Grows(old(mapping), mapping)
      {
        var r := ms[j];
        var ph := DictToken(counter);
        AssignStep(mapping, ms, j, c);
        SpliceNext(text, ms, j, c, contents[mi]);
        mapping := mapping[ph := r.fragment];
        contents := contents[mi := Spliced(contents[mi], r, ph)];
        counter := counter + 1;
        j := j + 1;
      }
      SplicedAll(text, ms, c, contents[mi], mapping);
    }

    /** One message of the dictionary pass; an empty one is skipped. */
    method MaskMessage(ghost texts: seq<string>, kept: seq<seq<Match>>, mi: nat)
      requires mi < |contents| == |texts| && DictSoFar(texts, kept, mi, contents, mapping, counter)
      modifies this
      ensures |contents| == |texts| && DictSoFar(texts, kept, mi + 1, contents, mapping, counter)
    {
      ghost var before, m := contents, mapping;
      DictOpen(texts, kept, mi, contents, mapping, counter);
      MaskedRest(texts, kept, mi, contents, mapping);
      if contents[mi] == "" {
        EmptySkipped(counter, mapping);
        assert MessageMasked(texts, kept, mi, contents[mi], mapping);
      } else {
        SpliceMessage(mi, kept[mi]);
        assert MessageMasked(texts, kept, mi, contents[mi], mapping);
      }
      assert contents == before[mi := contents[mi]];
      MaskedNext(texts, kept, mi, before, m, contents[mi], mapping);
      DictClose(texts, kept, mi + 1, contents, mapping, counter);
    }

    /** The dictionary pass over all messages. */
    method MaskDictionary(kept: seq<seq<Match>>)
      requires |kept| == |contents| && Ready(contents, kept)
      modifies this
      ensures Masked(old(contents), kept, contents, mapping)
    {
      ghost var texts := contents;
      mapping, counter := map[], 0;
      DictStart(texts, kept);
      var mi := 0;
      while mi < |contents|
        invariant 0 <= mi <= |contents| == |texts|
        invariant DictSoFar(texts, kept, mi, contents, mapping, counter)
      {
        MaskMessage(texts, kept, mi);
        mi := mi + 1;
      }
      DictDone(texts, kept, contents, mapping, counter);
    }

    /** The PII pass: every message takes the replacements in an order of its own. */
    method MaskPii(repl: Mapping)
      modifies this
      ensures PiiMasked(old(contents), contents, repl)
      ensures mapping == old(mapping) + repl
      ensures PiiApart(repl, repl.Keys) ==>
        forall i, p :: 0 <= i < |contents| && p in repl ==> !Contains(contents[i], repl[p])
    {
      ghost var before := contents;
      var mi := 0;
      while mi < |contents|
        invariant 0 <= mi <= |contents| == |before| && mapping == old(mapping)
        invariant forall i :: mi <= i < |before| ==> contents[i] == before[i]
        invariant forall i :: 0 <= i < mi ==> PiiPass(before[i], repl, contents[i])
      {
        var s, order := PiiLoop(contents[mi], repl);
        contents := contents[mi := s];
        mi := mi + 1;
      }
      mapping := mapping + repl;
      NoneLeft(before, contents, repl);
    }

    /** Both passes: with tokens that cannot overlap, originals that overlap no token, and no empty
        match before a longer one with its start, the restoring passes give back every message, in
        every order. That is also needed when no fragment can overlap its own token. */
    method Mask(kept: seq<seq<Match>>, repl: Mapping)
      requires |kept| == |contents| && Ready(contents, kept) && RuleTokens(repl)
      modifies this
      ensures TokenSet(mapping.Keys) && PiiApart(repl, mapping.Keys) ==>
              Tidy(old(contents), kept) && !HoldsToken(old(contents), mapping) ==>
              AllRestored(contents, old(contents), mapping)
      ensures PiiApart(repl, mapping.Keys) ==>
              forall i, p :: 0 <= i < |contents| && p in repl ==> !Contains(contents[i], repl[p])
      ensures TokenSet(mapping.Keys) && PiiApart(repl, mapping.Keys) &&
              (forall t :: t in mapping ==> Apart(mapping[t], t)) ==>
              (AllRestored(contents, old(contents), mapping) <==>
               Tidy(old(contents), kept) && !HoldsToken(old(contents), mapping))
    {
      ghost var texts := contents;
      MaskDictionary(kept);
      ghost var dict, m := contents, mapping;
      MaskPii(repl);
      if TokenSet(mapping.Keys) && PiiApart(repl, mapping.Keys) && Tidy(texts, kept) && !HoldsToken(texts, mapping) {
        RequestRoundTrip(texts, kept, dict, m, contents, repl);
      }
      if TokenSet(mapping.Keys) && PiiApart(repl, mapping.Keys) && forall t :: t in mapping ==> Apart(mapping[t], t) {
        OwnTokens(texts, kept, dict, m, repl);
        RequestExact(texts, kept, dict, m, contents, repl);
      }
    }
  }

  lemma OwnTokens(texts: seq<string>, kept: seq<seq<Match>>, dict: seq<string>, m: Mapping, repl: Mapping)
    requires Masked(texts, kept, dict, m) && RuleTokens(repl)
    requires forall t :: t in m + repl ==> Apart((m + repl)[t], t)
    ensures forall t :: t in m ==> Apart(m[t], t)
  {
    MaskedOpen(texts, kept, dict, m);
    TokensDiffer(m, Base(texts, kept, |texts|), repl);
    forall t | t in m ensures Apart(m[t], t) {
      assert t in m + repl && (m + repl)[t] == m[t];
    }
  }

  lemma NoneLeft(before: seq<string>, after: seq<string>, repl: Mapping)
    requires PiiMasked(before, after, repl)
    ensures PiiApart(repl, repl.Keys) ==>
      forall i, p :: 0 <= i < |after| && p in repl ==> !Contains(after[i], repl[p])
  {
    forall i, p | 0 <= i < |after| && p in repl && PiiApart(repl, repl.Keys) ensures !Contains(after[i], repl[p]) {
      assert PiiPass(before[i], repl, after[i]);
      var order :| IsOrder(order, repl) && PiiShows(before[i], order, repl, after[i]);
      assert p in Elements(order);
      PiiHidden(before[i], order, repl, p);
    }
  }

  method PiiLoop(content: string, repl: Mapping) returns (s: string, ghost order: seq<string>)
    ensures IsOrder(order, repl) && PiiShows(content, order, repl, s)
  {
    s, order := content, [];
    var left := repl.Keys;
    while left != {}
      invariant left <= repl.Keys && Elements(order) == repl.Keys - left
      invariant Distinct(order) && PiiShows(content, order, repl, s)
      decreases left
    {
      var ph :| ph in left;
      assert forall i :: 0 <= i < |order| ==> order[i] in Elements(order);
      PiiAppend(content, order, ph, repl);
      s := ReplaceAll(s, repl[ph], ph);
      order := order + [ph];
      left := left - {ph};
      assert Elements(order) == Elements(order[..|order| - 1]) + {ph};
    }
  }

  lemma {:induction false} PiiAppend(s: string, order: seq<string>, ph: string, repl: Mapping)
    requires ph in repl && forall t | t in order :: t in repl
    ensures forall t | t in order + [ph] :: t in repl
    ensures PiiMask(s, order + [ph], repl) == ReplaceAll(PiiMask(s, order, repl), repl[ph], ph)
    decreases |order|
  {
    if order == [] {
      assert order + [ph] == [ph] && [ph][1..] == [];
    } else {
      assert (order + [ph])[1..] == order[1..] + [ph];
      PiiAppend(ReplaceAll(s, repl[order[0]], order[0]), order[1..], ph, repl);
    }
  }

  /** The first `j` matches own the tokens from number `c` on, the last ones issued. */
  ghost predicate Assigned(m: Mapping, ms: seq<Match>, j: nat, c: nat)
    requires j <= |ms|
  {
    KeysBelow(m, c + j) && Knows(m, ms, j, c)
  }

  lemma AssignStep(m: Mapping, ms: seq<Match>, j: nat, c: nat)
    requires j < |ms| && Assigned(m, ms, j, c)
    ensures Assigned(m[DictToken(c + j) := ms[j].fragment], ms, j + 1, c)
    ensures Grows(m, m[DictToken(c + j) := ms[j].fragment])
  {
    var m' := m[DictToken(c + j) := ms[j].fragment];
    assert Unfold(0);
    TokenIsNew(c + j);
    forall i | 0 <= i < j ensures Owns(m', c + i, ms[i]) {
      assert Owns(m, c + i, ms[i]);
    }
  }

  ghost predicate InProgress(text: string, ms: seq<Match>, j: nat, c: nat, content: string)
    requires j <= |ms|
  {
    forall k :: Unfold(k) ==> content == SplicedTo(text, ms, j, c)
  }

  lemma SpliceStart(text: string, ms: seq<Match>, c: nat)
    ensures InProgress(text, ms, 0, c, text)
  {
  }

  lemma SpliceNext(text: string, ms: seq<Match>, j: nat, c: nat, content: string)
    requires Spliceable(text, ms) && j < |ms| && InProgress(text, ms, j, c, content)
    ensures ms[j].start + |ms[j].fragment| <= |content|
    ensures InProgress(text, ms, j + 1, c, Spliced(content, ms[j], DictToken(c + j)))
  {
    assert Unfold(0);
    InBounds(text, ms, j, c);
  }

  lemma NoKeys()
    ensures KeysBelow(map[], 0)
  {
  }

  lemma EmptySkipped(c: nat, m: Mapping)
    ensures MessageSpliced("", [], c, "", m)
  {
  }

  lemma SplicedAll(text: string, ms: seq<Match>, c: nat, content: string, m: Mapping)
    requires Assigned(m, ms, |ms|, c) && InProgress(text, ms, |ms|, c, content)
    ensures MessageSpliced(text, ms, c, content, m)
  {
    assert Unfold(0);
  }

  lemma TokenIsNew(n: nat)
    ensures DictToken(n) !in TokensBelow(n)
    ensures TokensBelow(n + 1) == TokensBelow(n) + {DictToken(n)}
  {
    BelowHolds(n, DictToken(n));
    if DictToken(n) in TokensBelow(n) {
      var k: nat :| k < n && DictToken(n) == DictToken(k);
      DictTokenInjective(n, k);
    }
  }

  // ---------- response writers ----------

  /** Buffers a whole response and restores it when flushed. */
  class BufferedWriter {
    const mapping: Mapping
    var buf: string
    var statusCode: int
    var wroteHeader: bool
    var sentStatus: int
    var sent: string

    constructor (m: Mapping)
      ensures mapping == m && buf == "" && !wroteHeader && sent == ""
    {
      mapping, buf, statusCode, wroteHeader, sentStatus, sent := m, "", 0, false, 0, "";
    }

    method Write(data: string) returns (n: nat)
      modifies this`buf
      ensures buf == old(buf) + data && n == |data|
    {
      buf := buf + data;
      n := |data|;
    }

    /** Only the first status is kept. */
    method WriteHeader(code: int)
      modifies this`statusCode, this`wroteHeader
      ensures wroteHeader && statusCode == if old(wroteHeader) then old(statusCode) else code
    {
      if wroteHeader {
        return;
      }
      statusCode := code;
      wroteHeader := true;
    }

    method Flush()
      modifies this
      ensures exists order, body ::
        IsOrder(order, mapping) && Restores(old(buf), order, mapping, body) && sent == old(sent) + body
      ensures WellFormed(mapping) ==> sent == old(sent) + Unmask(old(buf), mapping)
      ensures sentStatus == if old(wroteHeader) then old(statusCode) else 200
      ensures buf == "" && wroteHeader == old(wroteHeader)
    {
      if !wroteHeader {
        statusCode := 200;
      }
      var body, order := RestoreLoop(buf, mapping);
      sentStatus := statusCode;
      sent := sent + body;
      buf := "";
    }
  }

  /** Restores every chunk of a streamed response by itself. */
  class StreamWriter {
    const mapping: Mapping
    var sent: string

    constructor (m: Mapping)
      ensures mapping == m && sent == ""
    {
      mapping, sent := m, "";
    }

    method Write(data: string)
      modifies this
      ensures exists order, s ::
        IsOrder(order, mapping) && Restores(data, order, mapping, s) && sent == old(sent) + s
      ensures WellFormed(mapping) ==> sent == old(sent) + Unmask(data, mapping)
    {
      var s, order := RestoreLoop(data, mapping);
      sent := sent + s;
    }

    /** A whole streamed response: it equals the buffered one exactly when no chunk boundary
        cuts a token. */
    method WriteAll(chunks: seq<string>)
      requires WellFormed(mapping)
      modifies this
      ensures sent == old(sent) + UnmaskEach(chunks, mapping)
      ensures sent == old(sent) + Unmask(Flat(chunks), mapping) <==> !Cuts(chunks, mapping)
    {
      var i := 0;
      while i < |chunks|
        invariant 0 <= i <= |chunks|
        invariant sent == old(sent) + UnmaskEach(chunks[..i], mapping)
      {
        Write(chunks[i]);
        UnmaskEachGrows(chunks, i, mapping);
        Assoc(old(sent), UnmaskEach(chunks[..i], mapping), Unmask(chunks[i], mapping));
        i := i + 1;
      }
      assert chunks[..i] == chunks;
      ChunksExact(chunks, mapping);
      Cancel(old(sent), UnmaskEach(chunks, mapping), Unmask(Flat(chunks), mapping));
    }
  }

  lemma {:induction false} UnmaskEachGrows(cs: seq<string>, i: nat, m: Mapping)
    requires i < |cs|
    ensures UnmaskEach(cs[..i + 1], m) == UnmaskEach(cs[..i], m) + Unmask(cs[i], m)
    decreases i
  {
    if i == 0 {
      assert cs[..1][1..] == [];
      Unit(Unmask(cs[0], m));
    } else {
      var rest := cs[1..];
      assert cs[..i + 1][1..] == rest[..i] && cs[..i][1..] == rest[..i - 1];
      UnmaskEachGrows(rest, i - 1, m);
      Assoc(Unmask(cs[0], m), UnmaskEach(rest[..i - 1], m), Unmask(cs[i], m));
    }
  }

  // ---------- where the passes go wrong ----------

  /** An empty match (a regular expression may have one) at the start of another match is not an
      overlap. The kept matches come longest first, so it takes a sort that exchanges equal starts, as
      the library's may, to splice the empty one first. Then the second splice eats the token just
      written, and no order of passes gives the text back. */
  lemma EmptyMatchCorrupts(order: seq<string>)
    requires IsOrder(order, map["[MASK.0]" := "", "[MASK.1]" := "ab"])
    ensures
      var ms := EmptyThen("ab", 2);
      Selected(ms, [ms[1], ms[0]]) && Spliceable("ab", ms) && SplicedTo("ab", ms, 2, 0) == "[MASK.1]ASK.0]ab" &&
      Restores(SplicedTo("ab", ms, 2, 0), order, map["[MASK.0]" := "", "[MASK.1]" := "ab"], "abASK.0]ab")
  {
    EmptyMatchSpliced();
    var e, w := Match(0, 0, ""), Match(0, 2, "ab");
    assert "ab"[..2] == "ab" && EmptyThen("ab", 2) == [e, w];
    CorruptedStays(order);
  }

  lemma EmptyMatchSpliced()
    ensures Spliceable("ab", EmptyThen("ab", 2)) && SplicedTo("ab", EmptyThen("ab", 2), 2, 0) == "[MASK.1]ASK.0]ab"
  {
    SpliceEmptyThen("ab", 2);
    FirstTokens();
    assert ("[MASK.0]" + "ab")[2..] == "ASK.0]ab" && "[MASK.1]" + "ASK.0]ab" == "[MASK.1]ASK.0]ab";
  }

  /** At the start of the text an empty match, then one of `k` characters. */
  function EmptyThen(text: string, k: nat): (ms: seq<Match>)
    requires k <= |text|
    ensures |ms| == 2
  {
    [Match(0, 0, ""), Match(0, k, text[..k])]
  }

  lemma SpliceEmptyThen(text: string, k: nat)
    requires 0 < k <= |text|
    ensures Spliceable(text, EmptyThen(text, k))
    ensures SplicedTo(text, EmptyThen(text, k), 2, 0) == DictToken(1) + (DictToken(0) + text)[k..]
  {
    SpliceTwo(text, EmptyThen(text, k), k);
    EmptyThenFits(text, EmptyThen(text, k), k);
  }

  lemma EmptyThenFits(text: string, ms: seq<Match>, k: nat)
    requires k <= |text| && |ms| == 2 && ms[0] == Match(0, 0, "") && ms[1] == Match(0, k, text[..k])
    ensures Spliceable(text, ms)
  {
    assert text[0..0] == "" && text[0..k] == text[..k];
    assert InText(text, ms[0]) && InText(text, ms[1]);
  }

  lemma SpliceTwo(text: string, ms: seq<Match>, k: nat)
    requires k <= |text| && |ms| == 2 && ms[0] == Match(0, 0, "") && ms[1] == Match(0, k, text[..k])
    ensures SplicedTo(text, ms, 2, 0) == DictToken(1) + (DictToken(0) + text)[k..]
  {
    var t0, t1 := DictToken(0), DictToken(1);
    assert SplicedTo(text, ms, 0, 0) == text;
    SpliceAtStart(text, ms[0], t0);
    assert text[0..] == text;
    var once := SplicedTo(text, ms, 1, 0);
    assert once == t0 + text;
    SpliceAtStart(once, ms[1], t1);
    assert SplicedTo(text, ms, 2, 0) == Spliced(once, ms[1], t1);
  }

  lemma SpliceAtStart(content: string, r: Match, token: string)
    requires r.start == 0 && |r.fragment| <= |content|
    ensures Spliced(content, r, token) == token + content[|r.fragment|..]
  {
    assert content[..0] == "" && "" + token == token;
  }

  lemma FirstTokens()
    ensures DictToken(0) == "[MASK.0]" && DictToken(1) == "[MASK.1]"
  {
  }

  /** A message that holds the text "[MASK.0]" beside a dictionary hit: the pass puts the hit in both
      places, and that is the only order there is. */
  lemma HeldTokenLost()
    ensures
      var text, ms, m := "[MASK.0] Bob", [Match(9, 12, "Bob")], map["[MASK.0]" := "Bob"];
      Spliceable(text, ms) && SplicedTo(text, ms, 1, 0) == "[MASK.0] [MASK.0]" &&
      Restores("[MASK.0] [MASK.0]", ["[MASK.0]"], m, "Bob Bob") && IsOrder(["[MASK.0]"], m)
  {
    var text, ms := "[MASK.0] Bob", [Match(9, 12, "Bob")];
    FirstTokens();
    assert text[9..12] == "Bob" && InText(text, ms[0]);
    assert SplicedTo(text, ms, 0, 0) == text;
    assert text[..9] == "[MASK.0] " && text[12..] == "";
    assert "[MASK.0] " + "[MASK.0]" + "" == "[MASK.0] [MASK.0]";
    HeldTokenPass("[MASK.0]", map["[MASK.0]" := "Bob"]);
  }

  lemma HeldTokenPass(t: string, m: Mapping)
    requires t == "[MASK.0]" && m == map[t := "Bob"]
    ensures Restores("[MASK.0] [MASK.0]", [t], m, "Bob Bob") && IsOrder([t], m)
  {
    assert [t][1..] == [] && DictShape(t);
    TokenTwice(t, "Bob");
    assert t + (" " + t) == "[MASK.0] [MASK.0]" && "Bob" + (" " + "Bob") == "Bob Bob";
    assert Restore("Bob Bob", [], m) == "Bob Bob";
  }

  lemma TokenTwice(t: string, o: string)
    requires DictShape(t)
    ensures ReplaceAll(t + (" " + t), t, o) == o + (" " + o)
  {
    Replaced("", t, " " + t, o);
    Replaced(" ", t, "", o);
    assert " " + t + "" == " " + t && "" + t + (" " + t) == t + (" " + t);
    assert ReplaceAll("", t, o) == "" && " " + o + "" == " " + o && "" + o + (" " + o) == o + (" " + o);
  }

  /** A token behind a text without brackets. */
  lemma Replaced(a: string, t: string, b: string, o: string)
    requires DictShape(t) && '[' !in a
    ensures ReplaceAll(a + t + b, t, o) == a + o + ReplaceAll(b, t, o)
  {
    forall q | 0 <= q < |a| ensures !OccursAt(t, a + t + b, q) {
      if OccursAt(t, a + t + b, q) {
        OccursChars(t, a + t + b, q);
      }
    }
    ReplaceFirst(a, t, b, o);
  }

  /** One order may still give such a text back by accident: the restored match and what is left of
      the cut token make a token again, here of the message "[MASK" with an empty match before it. */
  lemma RestoredByAccident()
    ensures SplicedTo("[MASK", EmptyThen("[MASK", 5), 2, 0) == "[MASK.1].0][MASK"
    ensures var m := map["[MASK.0]" := "", "[MASK.1]" := "[MASK"];
      Restores("[MASK.1].0][MASK", ["[MASK.1]", "[MASK.0]"], m, "[MASK")
  {
    SpliceEmptyThen("[MASK", 5);
    FirstTokens();
    assert "[MASK"[..5] == "[MASK";
    assert ("[MASK.0]" + "[MASK")[5..] == ".0][MASK" && "[MASK.1]" + ".0][MASK" == "[MASK.1].0][MASK";
    AccidentalPasses(map["[MASK.0]" := "", "[MASK.1]" := "[MASK"]);
  }

  lemma AccidentalPasses(m: Mapping)
    requires m.Keys == {"[MASK.0]", "[MASK.1]"} && m["[MASK.0]"] == "" && m["[MASK.1]"] == "[MASK"
    ensures Restores("[MASK.1].0][MASK", ["[MASK.1]", "[MASK.0]"], m, "[MASK")
  {
    var t1, t0 := "[MASK.1]", "[MASK.0]";
    assert t1 + ".0][MASK" == "[MASK.1].0][MASK" && "[MASK" + ".0][MASK" == t0 + "[MASK";
    PassesMeet(t1, t0, m, ".0][MASK", "[MASK");
  }

  /** The first token's text and what stands behind it make up the second token, which stands for nothing. */
  lemma PassesMeet(t1: string, t0: string, m: Mapping, y: string, o: string)
    requires DictShape(t1) && DictShape(t0) && t1 != t0 && m.Keys == {t0, t1} && m[t1] == o && m[t0] == ""
    requires o + y == t0 + o && |o| < |t0| && (|y| < |t1| || (|y| == |t1| && y[0] != '['))
    ensures Restores(t1 + y, [t1, t0], m, o)
  {
    TokenFirst(t1, y, o);
    TokenFirst(t0, o, "");
    Unit(o);
    TwoPasses(t1 + y, t1, t0, m);
  }

  /** Replacing a token that stands first, before a text too short to hold another. */
  lemma TokenFirst(t: string, y: string, o: string)
    requires DictShape(t) && (|y| < |t| || (|y| == |t| && y[0] != '['))
    ensures ReplaceAll(t + y, t, o) == o + y
  {
    if p :| OccursAt(t, y, p) {
      OccursChars(t, y, p);
    }
    ReplaceNone(y, t, o);
    assert "" + t + y == t + y;
    ReplaceFirst("", t, y, o);
    assert "" + o + y == o + y;
  }

  lemma TwoPasses(s: string, t0: string, t1: string, m: Mapping)
    requires t0 != t1 && m.Keys == {t0, t1}
    ensures Restores(s, [t0, t1], m, ReplaceAll(ReplaceAll(s, t0, m[t0]), t1, m[t1]))
  {
    assert [t0, t1][1..] == [t1] && [t1][1..] == [];
    var x := ReplaceAll(s, t0, m[t0]);
    assert Restore(ReplaceAll(x, t1, m[t1]), [], m) == ReplaceAll(x, t1, m[t1]);
    assert Restore(x, [t1], m) == ReplaceAll(x, t1, m[t1]);
  }

  lemma CorruptedStays(order: seq<string>)
    requires IsOrder(order, map["[MASK.0]" := "", "[MASK.1]" := "ab"])
    ensures Restores("[MASK.1]ASK.0]ab", order, map["[MASK.0]" := "", "[MASK.1]" := "ab"], "abASK.0]ab")
  {
    var m := map["[MASK.0]" := "", "[MASK.1]" := "ab"];
    assert m.Keys == {"[MASK.0]", "[MASK.1]"};
    TokenThenText("[MASK.1]", "ab", "ASK.0]ab", m, order);
    assert "[MASK.1]" + "ASK.0]ab" == "[MASK.1]ASK.0]ab";
    assert "ab" + "ASK.0]ab" == "abASK.0]ab";
  }

  lemma TokenThenText(t: string, o: string, l: string, m: Mapping, order: seq<string>)
    requires t in m && m[t] == o && IsOrder(order, m)
    requires forall u :: u in m ==> DictShape(u)
    requires forall i :: 0 <= i < |o + l| ==> (o + l)[i] != '['
    ensures Restores(t + l, order, m, o + l)
  {
    var ps := [Tok(t, o), Lit(l)];
    var qs := [Lit(l)];
    assert ps[1..] == qs && qs[1..] == [];
    Unit(l);
    assert Shown(qs[0], {}) == l == Original(qs[0]);
    assert Render(qs[1..], {}) == "" == Full(qs[1..]);
    assert Render(qs, {}) == l;
    assert Full(qs) == l;
    assert Shown(ps[0], {}) == t && Original(ps[0]) == o && MapsTo(ps, m);
    assert Render(ps, {}) == t + l;
    assert Full(ps) == o + l;
    IssuedTokenSet(m.Keys);
    NoOpening(o + l, m);
    OrderInMap(order, m);
    RoundTrip(ps, order, m);
  }

  lemma NoOpening(s: string, m: Mapping)
    requires forall t :: t in m ==> DictShape(t)
    requires forall i :: 0 <= i < |s| ==> s[i] != '['
    ensures forall t :: t in m ==> !Contains(s, t)
  {
    forall t | t in m ensures !Contains(s, t) {
      if p :| OccursAt(t, s, p) {
        OccursChars(t, s, p);
      }
    }
  }
}
