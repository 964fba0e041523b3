/** The splice loop on any kept matches, empty ones included: what it makes of a message, and
    exactly when the restoring passes give the message back. */
module Splices {
  import opened Sequences
  import opened Folding
  import opened Texts
  import opened Masking
  import opened Tokens
  import opened Overlaps
  import opened AllOrders

  /** `content` with the fragment of `r` replaced by its token. */
  function Spliced(content: string, r: Match, token: string): string
    requires r.start + |r.fragment| <= |content|
  {
    content[..r.start] + token + content[r.start + |r.fragment|..]
  }

  /** The message after the first `j` matches were spliced; a splice beyond the end, which never
      happens, would leave it as it is. */
  function SplicedTo(text: string, ms: seq<Match>, j: nat, c: nat): string
    requires j <= |ms|
  {
    if j == 0 then text
    else
      var before, r := SplicedTo(text, ms, j - 1, c), ms[j - 1];
      if r.start + |r.fragment| <= |before| then Spliced(before, r, DictToken(c + j - 1)) else before
  }

  // ---------- the message while it is spliced ----------

  /** A match that ate into tokens of empty matches at its start: its token, then the rest of the
      token that it cut, then what else was left. */
  datatype Group = Group(token: string, original: string, tail: string, rest: seq<Piece>)

  /** The text up to `pos`, spliced pieces, and groups, leftmost first. */
  datatype Shape = Shape(pos: nat, head: seq<Piece>, groups: seq<Group>)

  function Behind(g: Group, more: seq<Piece>): seq<Piece> {
    [Lit(g.tail)] + g.rest + more
  }

  function GroupPieces(gs: seq<Group>): seq<Piece> {
    if gs == [] then [] else [Tok(gs[0].token, gs[0].original)] + Behind(gs[0], GroupPieces(gs[1..]))
  }

  function ShapePieces(text: string, sh: Shape): seq<Piece>
    requires sh.pos <= |text|
  {
    [Lit(text[..sh.pos])] + sh.head + GroupPieces(sh.groups)
  }

  /** The first `n` shown characters cut off: what is left of a token that was cut, and the rest. */
  function Chomp(ps: seq<Piece>, n: nat): (string, seq<Piece>)
    decreases |ps|
  {
    if n == 0 || ps == [] then ("", ps)
    else match ps[0]
      case Lit(x) => if |x| >= n then ("", [Lit(x[n..])] + ps[1..]) else Chomp(ps[1..], n - |x|)
      case Tok(t, _) => if |t| > n then (t[n..], ps[1..]) else Chomp(ps[1..], n - |t|)
  }

  /** Tokens of empty matches, and then at least `n` characters of text. */
  predicate Leads(ps: seq<Piece>, n: nat)
    decreases |ps|
  {
    ps != [] &&
    match ps[0]
    case Lit(x) => |x| >= n || (x == "" && Leads(ps[1..], n))
    case Tok(t, o) => o == "" && OneOpening(t) && Leads(ps[1..], n)
  }

  /** As in every dictionary token. */
  predicate OneOpening(t: string) {
    t != "" && t[0] == '[' && '[' !in t[1..]
  }

  lemma {:induction false} LeadsLess(ps: seq<Piece>, n: nat, k: nat)
    requires Leads(ps, n) && k <= n
    ensures Leads(ps, k)
    decreases |ps|
  {
    match ps[0]
    case Lit(x) => if |x| < n { LeadsLess(ps[1..], n, k); }
    case Tok(_, _) => LeadsLess(ps[1..], n, k);
  }

  /** Cutting off what is shown. */
  lemma {:induction false} ChompShows(ps: seq<Piece>, n: nat)
    requires Leads(ps, n)
    ensures var (tail, rest) := Chomp(ps, n);
      n <= |Render(ps, {})| && Render(ps, {})[n..] == tail + Render(rest, {}) && '[' !in tail
    decreases |ps|
  {
    var (tail, rest) := Chomp(ps, n);
    var y := Render(ps[1..], {});
    assert Render(ps, {}) == Shown(ps[0], {}) + y;
    if n == 0 {
      Unit(Render(ps, {}));
    } else if ps[0].Lit? {
      var x := ps[0].text;
      if |x| >= n {
        DropLeft(x, y, n);
        LitFirst(x[n..], ps[1..]);
        Unit(x[n..] + y);
      } else {
        Unit(y);
        ChompShows(ps[1..], n);
      }
    } else {
      var t := ps[0].token;
      if |t| > n {
        DropLeft(t, y, n);
        TailFree(t, n);
      } else {
        LeadsLess(ps[1..], n, n - |t|);
        ChompShows(ps[1..], n - |t|);
        DropPast(t, y, n);
      }
    }
  }

  lemma LitFirst(x: string, ps: seq<Piece>)
    ensures Render([Lit(x)] + ps, {}) == x + Render(ps, {}) && Full([Lit(x)] + ps) == x + Full(ps)
  {
    assert ([Lit(x)] + ps)[1..] == ps;
  }

  lemma TailFree(t: string, n: nat)
    requires OneOpening(t) && 0 < n <= |t|
    ensures '[' !in t[n..]
  {
    assert t[n..] == t[1..][n - 1..];
  }

  lemma DropPast(x: string, y: string, n: nat)
    requires |x| <= n <= |x| + |y|
    ensures (x + y)[n..] == y[n - |x|..]
  {
  }

  lemma DropLeft(x: string, y: string, n: nat)
    requires n <= |x|
    ensures (x + y)[n..] == x[n..] + y
  {
  }

  /** Cutting into tokens of empty matches loses none of the text that is restored later. */
  lemma {:induction false} ChompKeeps(ps: seq<Piece>, n: nat)
    requires Leads(ps, n)
    ensures var (tail, rest) := Chomp(ps, n);
      |tail| + |Full(rest)| + n >= |Full(ps)| &&
      (n > 0 && ps[0].Tok? && ps[0].token != "" ==> |tail| + |Full(rest)| + n > |Full(ps)|)
    decreases |ps|
  {
    var (tail, rest) := Chomp(ps, n);
    if n > 0 {
      match ps[0]
      case Lit(x) =>
        if |x| >= n {
          assert rest[1..] == ps[1..];
        } else {
          ChompKeeps(ps[1..], n);
        }
      case Tok(t, o) =>
        if |t| <= n {
          LeadsLess(ps[1..], n, n - |t|);
          ChompKeeps(ps[1..], n - |t|);
        }
    }
  }

  /** What is left restores to an end of what the whole restored to, with the same masked parts. */
  lemma {:induction false} ChompIsEnd(ps: seq<Piece>, n: nat) returns (d: nat)
    ensures d <= |Full(ps)| && Full(Chomp(ps, n).1) == Full(ps)[d..]
    decreases |ps|
  {
    if n == 0 || ps == [] {
      d := 0;
    } else if ps[0].Lit? {
      var x, y := ps[0].text, Full(ps[1..]);
      if |x| >= n {
        d := n;
        DropLeft(x, y, n);
        LitFirst(x[n..], ps[1..]);
      } else {
        d := ChompIsEnd(ps[1..], n - |x|);
        DropPast(x, y, |x| + d);
        d := |x| + d;
      }
    } else {
      var t, o, y := ps[0].token, ps[0].original, Full(ps[1..]);
      if |t| > n {
        DropPast(o, y, |o|);
        d := |o|;
      } else {
        d := ChompIsEnd(ps[1..], n - |t|);
        DropPast(o, y, |o| + d);
        d := |o| + d;
      }
    }
  }

  lemma {:induction false} ChompFrom(ps: seq<Piece>, n: nat)
    ensures forall p :: p in Chomp(ps, n).1 && p.Tok? ==> p in ps
    decreases |ps|
  {
    if n > 0 && ps != [] {
      var k := match ps[0] case Lit(x) => |x| case Tok(t, _) => |t|;
      if k <= n {
        ChompFrom(ps[1..], n - k);
      }
    }
  }

  // ---------- splicing one match ----------

  function NextShape(text: string, sh: Shape, r: Match, token: string): Shape
    requires r.start <= r.end <= |text| && sh.pos <= |text|
  {
    if r.end <= sh.pos then
      Shape(r.start, [Tok(token, r.fragment), Lit(text[r.end..sh.pos])] + sh.head, sh.groups)
    else
      var (tail, rest) := Chomp(sh.head, |r.fragment|);
      Shape(r.start, [], [Group(token, r.fragment, tail, rest)] + sh.groups)
  }

  /** Something earlier of the first `j` matches is not empty and starts at `pos`. */
  predicate Blocked(ms: seq<Match>, j: nat, pos: nat)
    requires j <= |ms|
  {
    exists i :: 0 <= i < j && ms[i].start == pos < ms[i].end
  }

  /** Room for `n` characters of text between `pos` and the next match to the right. */
  predicate Room(text: string, ms: seq<Match>, j: nat, pos: nat, n: nat)
    requires j <= |ms|
  {
    pos + n <= |text| && forall i :: 0 <= i < j && ms[i].start > pos ==> pos + n <= ms[i].start
  }

  /** Match `b` is not empty and comes after an empty one with the same start. */
  predicate Mangled(ms: seq<Match>, b: nat)
    requires b < |ms|
  {
    exists a :: 0 <= a < b && EmptyFirst(ms[a], ms[b])
  }

  /** A match that ends behind the last splice is one that comes after an empty one at its start;
      there is room for it. */
  lemma MangledNext(text: string, ms: seq<Match>, j: nat)
    requires Spliceable(text, ms) && 0 < j < |ms|
    ensures ms[j].end > ms[j - 1].start <==> Mangled(ms, j)
    ensures Mangled(ms, j) ==> ms[j].start == ms[j - 1].start && ms[j - 1].start == ms[j - 1].end
    ensures Mangled(ms, j) ==> !Blocked(ms, j, ms[j].start) && Room(text, ms, j, ms[j].start, |ms[j].fragment|)
  {
    assert Unfold(0);
    var r, q := ms[j], ms[j - 1];
    assert InText(text, r) && InText(text, q) && RightFirst(q, r) && !Clash(r, q);
    forall i | 0 <= i < j ensures InText(text, ms[i]) && RightFirst(ms[i], q) && !Clash(r, ms[i]) {}
    if r.end > q.start {
      assert EmptyFirst(q, r);
    }
    if a :| 0 <= a < j && EmptyFirst(ms[a], r) {
      assert RightFirst(ms[a], q);
    }
  }

  lemma BlockedStays(ms: seq<Match>, j: nat, pos: nat)
    requires j < |ms|
    ensures Blocked(ms, j, pos) ==> Blocked(ms, j + 1, pos)
  {
  }

  lemma OneOpeningToken(n: nat)
    ensures OneOpening(DictToken(n))
  {
    DictTokenShape(n);
    var t := DictToken(n);
    assert forall i :: 0 <= i < |t[1..]| ==> t[1..][i] == t[i + 1];
  }

  lemma TextSplit(text: string, a: nat, b: nat, c: nat)
    requires a <= b <= c <= |text|
    ensures text[a..c] == text[a..b] + text[b..c] && text[a..] == text[a..b] + (text[b..c] + text[c..])
    ensures text[..c] == text[..a] + (text[a..b] + text[b..c])
  {
  }

  lemma PiecesCons(p: Piece, x: string, ps: seq<Piece>)
    ensures Render([p, Lit(x)] + ps, {}) == Shown(p, {}) + (x + Render(ps, {}))
    ensures Full([p, Lit(x)] + ps) == Original(p) + (x + Full(ps))
  {
    var qs := [Lit(x)] + ps;
    assert [p, Lit(x)] + ps == [p] + qs && ([p] + qs)[1..] == qs;
    LitFirst(x, ps);
  }

  lemma BehindShows(g: Group, more: seq<Piece>)
    ensures Render(Behind(g, more), {}) == g.tail + (Render(g.rest, {}) + Render(more, {}))
    ensures Full(Behind(g, more)) == g.tail + (Full(g.rest) + Full(more))
  {
    var ps := g.rest + more;
    assert Behind(g, more) == [Lit(g.tail)] + ps;
    LitFirst(g.tail, ps);
    RenderAppend(g.rest, more, {});
    FullAppend(g.rest, more);
  }

  lemma GroupsCons(g: Group, gs: seq<Group>)
    ensures Render(GroupPieces([g] + gs), {}) == g.token + (g.tail + (Render(g.rest, {}) + Render(GroupPieces(gs), {})))
    ensures Full(GroupPieces([g] + gs)) == g.original + (g.tail + (Full(g.rest) + Full(GroupPieces(gs))))
  {
    assert ([g] + gs)[1..] == gs;
    var ps := Behind(g, GroupPieces(gs));
    BehindShows(g, GroupPieces(gs));
    assert ([Tok(g.token, g.original)] + ps)[1..] == ps;
  }

  lemma ShapeShows(text: string, sh: Shape)
    requires sh.pos <= |text|
    ensures var ps := ShapePieces(text, sh);
      Render(ps, {}) == text[..sh.pos] + (Render(sh.head, {}) + Render(GroupPieces(sh.groups), {})) &&
      Full(ps) == text[..sh.pos] + (Full(sh.head) + Full(GroupPieces(sh.groups)))
  {
    var ps := sh.head + GroupPieces(sh.groups);
    assert ShapePieces(text, sh) == [Lit(text[..sh.pos])] + ps;
    LitFirst(text[..sh.pos], ps);
    RenderAppend(sh.head, GroupPieces(sh.groups), {});
    FullAppend(sh.head, GroupPieces(sh.groups));
  }

  // ---------- the loop keeps to the shape ----------

  /** One splice, on strings: inside the text that has not been touched, ... */
  lemma SpliceInText(text: string, pos: nat, r: Match, token: string, y: string)
    requires r.start <= r.end <= pos <= |text| && r.fragment == text[r.start..r.end]
    ensures r.start + |r.fragment| <= |text[..pos] + y|
    ensures Spliced(text[..pos] + y, r, token) == text[..r.start] + (token + (text[r.end..pos] + y))
  {
    var content := text[..pos] + y;
    assert content[..r.start] == text[..r.start];
    assert content[r.end..] == text[r.end..pos] + y;
    Assoc(text[..r.start], token, text[r.end..pos] + y);
  }

  /** ... or right behind it. */
  lemma SpliceBehind(text: string, pos: nat, r: Match, token: string, h: string, g: string)
    requires r.start == pos <= |text| && |r.fragment| <= |h|
    ensures r.start + |r.fragment| <= |text[..pos] + (h + g)|
    ensures Spliced(text[..pos] + (h + g), r, token) == text[..pos] + (token + (h[|r.fragment|..] + g))
  {
    var content := text[..pos] + (h + g);
    assert content[..pos] == text[..pos];
    assert content[pos + |r.fragment|..] == h[|r.fragment|..] + g;
    Assoc(text[..pos], token, h[|r.fragment|..] + g);
  }

  /** The pieces restore to a start of the text behind `pos`; without groups, to all of it. */
  ghost predicate HeadInText(text: string, sh: Shape) {
    forall k :: Unfold(k) ==>
      sh.pos <= |text| && Full(sh.head) <= text[sh.pos..] && (sh.groups == [] ==> Full(sh.head) == text[sh.pos..])
  }

  lemma HeadStep(text: string, sh: Shape, r: Match, token: string)
    requires HeadInText(text, sh) && sh.pos <= |text| && InText(text, r)
    ensures HeadInText(text, NextShape(text, sh, r, token))
  {
    assert Unfold(0);
    if r.end <= sh.pos {
      PiecesCons(Tok(token, r.fragment), text[r.end..sh.pos], sh.head);
      TextSplit(text, r.start, r.end, sh.pos);
      StartsStay(r.fragment, text[r.end..sh.pos], Full(sh.head), text[sh.pos..]);
    }
  }

  lemma StartsStay(a: string, b: string, x: string, y: string)
    requires x <= y
    ensures a + (b + x) <= a + (b + y)
  {
    assert y == x + y[|x|..];
  }

  /** Every group leaves more text than there was. */
  ghost predicate Grown(text: string, sh: Shape) {
    forall k :: Unfold(k) ==> sh.pos <= |text| && |Full(ShapePieces(text, sh))| >= |text| + |sh.groups|
  }

  /** What a match needs that reaches behind the text not touched yet. */
  predicate Eats(sh: Shape, r: Match) {
    r.start == sh.pos && Leads(sh.head, |r.fragment|) && sh.head[0].Tok? && sh.head[0].token != ""
  }

  lemma GrowStep(text: string, sh: Shape, r: Match, token: string)
    requires Grown(text, sh) && sh.pos <= |text| && InText(text, r) && (r.end > sh.pos ==> Eats(sh, r))
    ensures Grown(text, NextShape(text, sh, r, token))
  {
    assert Unfold(0);
    ShapeShows(text, sh);
    ShapeShows(text, NextShape(text, sh, r, token));
    if r.end <= sh.pos {
      PiecesCons(Tok(token, r.fragment), text[r.end..sh.pos], sh.head);
    } else {
      ChompKeeps(sh.head, |r.fragment|);
      var (tail, rest) := Chomp(sh.head, |r.fragment|);
      GroupsCons(Group(token, r.fragment, tail, rest), sh.groups);
    }
  }

  /** The message is what the shape shows. */
  ghost predicate Showing(text: string, content: string, sh: Shape) {
    forall k :: Unfold(k) ==> sh.pos <= |text| && content == Render(ShapePieces(text, sh), {})
  }

  /** One splice, in bounds. */
  lemma ShowStep(text: string, content: string, sh: Shape, r: Match, token: string)
    requires Showing(text, content, sh) && sh.pos <= |text| && InText(text, r) && (r.end > sh.pos ==> Eats(sh, r))
    ensures r.start + |r.fragment| <= |content|
    ensures Showing(text, Spliced(content, r, token), NextShape(text, sh, r, token))
  {
    assert Unfold(0);
    var h, g := Render(sh.head, {}), Render(GroupPieces(sh.groups), {});
    ShapeShows(text, sh);
    ShapeShows(text, NextShape(text, sh, r, token));
    if r.end <= sh.pos {
      SpliceInText(text, sh.pos, r, token, h + g);
      PiecesCons(Tok(token, r.fragment), text[r.end..sh.pos], sh.head);
      Assoc(token, text[r.end..sh.pos] + h, g);
      Assoc(text[r.end..sh.pos], h, g);
    } else {
      ChompShows(sh.head, |r.fragment|);
      SpliceBehind(text, sh.pos, r, token, h, g);
      var (tail, rest) := Chomp(sh.head, |r.fragment|);
      GroupsCons(Group(token, r.fragment, tail, rest), sh.groups);
      Assoc(tail, Render(rest, {}), g);
      Unit(token + (tail + (Render(rest, {}) + g)));
    }
  }

  /** Where the last match was empty and nothing else starts there, the pieces begin with the tokens
      of empty matches, and then comes as much text as there is room for. */
  ghost predicate Poised(text: string, ms: seq<Match>, j: nat, sh: Shape) {
    forall k :: Unfold(k) && j > 0 && j <= |ms| && !Blocked(ms, j, sh.pos) ==>
      sh.head != [] && sh.head[0].Tok? && sh.head[0].token != "" &&
      forall n: nat :: Room(text, ms, j, sh.pos, n) ==> Leads(sh.head, n)
  }

  lemma PoisedStep(text: string, ms: seq<Match>, j: nat, sh: Shape, token: string)
    requires j < |ms| && InText(text, ms[j]) && sh.pos <= |text| && Poised(text, ms, j, sh) && OneOpening(token)
    requires sh.pos == (if j == 0 then |text| else ms[j - 1].start) && ms[j].start <= sh.pos
    ensures Poised(text, ms, j + 1, NextShape(text, sh, ms[j], token))
  {
    assert Unfold(0);
    var q, next := ms[j], NextShape(text, sh, ms[j], token);
    if !Blocked(ms, j + 1, q.start) {
      assert q.end == q.start <= sh.pos;
      var x := text[q.end..sh.pos];
      var rest := [Lit(x)] + sh.head;
      assert next.head == [Tok(token, q.fragment)] + rest;
      assert next.head[1..] == rest && rest[1..] == sh.head;
      forall n: nat | Room(text, ms, j + 1, q.start, n) ensures Leads(next.head, n) {
        if |x| < n {
          RoomBehind(text, ms, j, n);
          BlockedStays(ms, j, q.start);
        }
      }
    }
  }

  lemma RoomBehind(text: string, ms: seq<Match>, j: nat, n: nat)
    requires j < |ms| && Room(text, ms, j + 1, ms[j].start, n)
    requires ms[j].start <= (if j == 0 then |text| else ms[j - 1].start) < ms[j].start + n
    ensures j > 0 && ms[j - 1].start == ms[j].start && Room(text, ms, j, ms[j].start, n)
  {
  }

  // ---------- the groups, and where the tokens of the pieces come from ----------

  /** There is a group exactly when some match came after an empty one at its start; kept folded. */
  ghost predicate GroupsKnown(ms: seq<Match>, j: nat, gs: seq<Group>) {
    forall k :: Unfold(k) ==> j <= |ms| && (gs == [] <==> NoneMangled(ms, j))
  }

  predicate NoneMangled(ms: seq<Match>, j: nat)
    requires j <= |ms|
  {
    forall b :: 0 <= b < j ==> !Mangled(ms, b)
  }

  lemma GroupsStep(text: string, ms: seq<Match>, j: nat, sh: Shape, token: string)
    requires j < |ms| && ms[j].start <= ms[j].end <= |text| && sh.pos <= |text|
    requires (ms[j].end > sh.pos <==> Mangled(ms, j)) && GroupsKnown(ms, j, sh.groups)
    ensures GroupsKnown(ms, j + 1, NextShape(text, sh, ms[j], token).groups)
  {
    assert Unfold(0);
  }

  /** Left to right, the pieces carry tokens of falling numbers below `n`. */
  ghost predicate Falling(ps: seq<Piece>, n: nat)
    decreases |ps|
  {
    ps != [] ==>
      match ps[0]
      case Lit(_) => Falling(ps[1..], n)
      case Tok(t, _) => exists k: nat :: k < n && t == DictToken(k) && Falling(ps[1..], k)
  }

  lemma {:induction false} FallingBelow(ps: seq<Piece>, n: nat, k: nat)
    requires Falling(ps, n) && n <= k
    ensures Falling(ps, k)
    decreases |ps|
  {
    if ps != [] && ps[0].Lit? {
      FallingBelow(ps[1..], n, k);
    }
  }

  /** What is left after cutting carries the tokens it did. */
  lemma {:induction false} FallingChomp(ps: seq<Piece>, n: nat, more: seq<Piece>, b: nat)
    requires Falling(ps + more, b)
    ensures Falling(Chomp(ps, n).1 + more, b)
    decreases |ps|
  {
    if n > 0 && ps != [] {
      assert (ps + more)[1..] == ps[1..] + more;
      match ps[0]
      case Lit(x) =>
        if |x| >= n {
          assert Chomp(ps, n).1 + more == [Lit(x[n..])] + (ps[1..] + more);
          FallingLit(x[n..], ps[1..] + more, b);
        } else {
          FallingChomp(ps[1..], n - |x|, more, b);
        }
      case Tok(t, _) =>
        var k: nat :| k < b && t == DictToken(k) && Falling(ps[1..] + more, k);
        FallingBelow(ps[1..] + more, k, b);
        if |t| <= n {
          FallingChomp(ps[1..], n - |t|, more, b);
        }
    }
  }

  lemma FallingLit(x: string, ps: seq<Piece>, n: nat)
    ensures Falling([Lit(x)] + ps, n) <==> Falling(ps, n)
  {
    assert ([Lit(x)] + ps)[1..] == ps;
  }

  lemma FallingTok(n: nat, o: string, x: string, ps: seq<Piece>)
    requires Falling(ps, n)
    ensures Falling([Tok(DictToken(n), o), Lit(x)] + ps, n + 1)
  {
    var qs := [Lit(x)] + ps;
    FallingLit(x, ps, n);
    assert [Tok(DictToken(n), o), Lit(x)] + ps == [Tok(DictToken(n), o)] + qs;
    assert ([Tok(DictToken(n), o)] + qs)[1..] == qs;
  }

  /** No token is used twice: the numbers fall from left to right; kept folded. */
  ghost predicate Counted(sh: Shape, n: nat) {
    forall k :: Unfold(k) ==> Falling(sh.head + GroupPieces(sh.groups), n)
  }

  lemma CountStep(text: string, sh: Shape, r: Match, n: nat)
    requires Counted(sh, n) && sh.pos <= |text| && r.start <= r.end <= |text|
    ensures Counted(NextShape(text, sh, r, DictToken(n)), n + 1)
  {
    assert Unfold(0);
    var more := GroupPieces(sh.groups);
    if r.end <= sh.pos {
      var x := text[r.end..sh.pos];
      FallingTok(n, r.fragment, x, sh.head + more);
      PiecesFirst(Tok(DictToken(n), r.fragment), x, sh.head, more);
    } else {
      var (tail, rest) := Chomp(sh.head, |r.fragment|);
      FallingChomp(sh.head, |r.fragment|, more, n);
      FallingTok(n, r.fragment, tail, rest + more);
      GroupFirst(Group(DictToken(n), r.fragment, tail, rest), sh.groups);
    }
  }

  lemma PiecesFirst(p: Piece, x: string, a: seq<Piece>, b: seq<Piece>)
    ensures [p, Lit(x)] + a + b == [p, Lit(x)] + (a + b)
  {
  }

  lemma GroupFirst(g: Group, gs: seq<Group>)
    ensures [] + GroupPieces([g] + gs) == [Tok(g.token, g.original), Lit(g.tail)] + (g.rest + GroupPieces(gs))
  {
    assert ([g] + gs)[1..] == gs;
  }

  ghost predicate NumbersBelow(cs: seq<Part>, n: nat) {
    forall i :: 0 <= i < |cs| ==> exists k: nat :: k < n && cs[i].token == DictToken(k)
  }

  lemma {:induction false} FallingOnce(ps: seq<Piece>, n: nat)
    requires Falling(ps, n)
    ensures Once(ps) && NumbersBelow(PartsOf(ps), n)
    decreases |ps|
  {
    if ps != [] {
      if ps[0].Lit? {
        FallingOnce(ps[1..], n);
      } else {
        var k: nat :| k < n && ps[0].token == DictToken(k) && Falling(ps[1..], k);
        FallingOnce(ps[1..], k);
        OnceMore(ps, k, n);
      }
    }
  }

  lemma OnceMore(ps: seq<Piece>, k: nat, n: nat)
    requires ps != [] && ps[0].Tok? && ps[0].token == DictToken(k) && k < n
    requires Once(ps[1..]) && NumbersBelow(PartsOf(ps[1..]), k)
    ensures Once(ps) && NumbersBelow(PartsOf(ps), n)
  {
    var cs, rest := PartsOf(ps), PartsOf(ps[1..]);
    assert cs[0].token == DictToken(k) && cs[1..] == rest;
    forall i | 0 < i < |cs|
      ensures cs[i].token != cs[0].token && exists l: nat :: l < n && cs[i].token == DictToken(l)
    {
      assert cs[i].token == rest[i - 1].token;
      var l: nat :| l < k && rest[i - 1].token == DictToken(l);
      assert cs[i].token == DictToken(l);
      if DictToken(l) == DictToken(k) {
        DictTokenInjective(l, k);
      }
    }
    forall i, j | 0 <= i < j < |cs| ensures cs[i].token != cs[j].token {
      assert i > 0 ==> rest[i - 1].token != rest[j - 1].token;
    }
  }

  /** The mapping knows the tokens of the first `j` matches. */
  ghost predicate Knows(m: Mapping, ms: seq<Match>, j: nat, c: nat)
    requires j <= |ms|
  {
    forall i :: 0 <= i < j ==> Owns(m, c + i, ms[i])
  }

  ghost predicate Owns(m: Mapping, n: nat, r: Match) {
    forall k :: Unfold(k) ==> DictToken(n) in m && m[DictToken(n)] == r.fragment
  }

  ghost predicate PieceIn(m: Mapping, p: Piece) {
    p.Tok? ==> p.token in m && m[p.token] == p.original
  }

  /** Every masked piece of the shape is in the mapping; tails hold no opening bracket, and what is
      behind them restores to a part of the text. */
  ghost predicate GroupSane(text: string, m: Mapping, g: Group) {
    forall k :: Unfold(k) ==>
      PieceIn(m, Tok(g.token, g.original)) && '[' !in g.tail && Contains(text, Full(g.rest)) &&
      forall p :: p in g.rest ==> PieceIn(m, p)
  }

  ghost predicate Sane(text: string, m: Mapping, sh: Shape) {
    forall k :: Unfold(k) ==>
      (forall p :: p in sh.head ==> PieceIn(m, p)) && forall g :: g in sh.groups ==> GroupSane(text, m, g)
  }

  lemma SaneStep(text: string, m: Mapping, sh: Shape, r: Match, token: string)
    requires Sane(text, m, sh) && sh.pos <= |text| && InText(text, r) && HeadInText(text, sh)
    requires token in m && m[token] == r.fragment
    requires r.end > sh.pos ==> Eats(sh, r)
    ensures Sane(text, m, NextShape(text, sh, r, token))
  {
    assert Unfold(0);
    var next := NextShape(text, sh, r, token);
    if r.end <= sh.pos {
      forall p | p in next.head ensures PieceIn(m, p) {}
    } else {
      var n := |r.fragment|;
      var (tail, rest) := Chomp(sh.head, n);
      var d := ChompIsEnd(sh.head, n);
      ChompFrom(sh.head, n);
      ChompShows(sh.head, n);
      forall p | p in rest ensures PieceIn(m, p) {
        assert p.Tok? ==> p in sh.head;
      }
      SliceInside(text, sh.pos, Full(sh.head), d);
      assert GroupSane(text, m, Group(token, r.fragment, tail, rest));
    }
  }

  lemma SliceInside(text: string, pos: nat, x: string, d: nat)
    requires pos <= |text| && x <= text[pos..] && d <= |x|
    ensures Contains(text, x[d..])
  {
    assert text[pos..][..|x|] == x;
    assert text[pos + d..pos + |x|] == x[d..];
    assert OccursAt(x[d..], text, pos + d);
  }

  // ---------- the shape of a message ----------

  /** Everything known of the shape after `j` matches. */
  ghost predicate Fits(text: string, ms: seq<Match>, j: nat, c: nat, sh: Shape) {
    forall k :: Outer(k) ==> Fitting(text, ms, j, c, sh)
  }

  ghost predicate Fitting(text: string, ms: seq<Match>, j: nat, c: nat, sh: Shape) {
    j <= |ms| && sh.pos == (if j == 0 then |text| else ms[j - 1].start) && sh.pos <= |text| &&
    Showing(text, SplicedTo(text, ms, j, c), sh) && HeadInText(text, sh) && Grown(text, sh) &&
    GroupsKnown(ms, j, sh.groups) && Counted(sh, c + j) && Poised(text, ms, j, sh)
  }

  lemma Opened(text: string, ms: seq<Match>, j: nat, c: nat, sh: Shape)
    requires Fits(text, ms, j, c, sh)
    ensures Fitting(text, ms, j, c, sh)
  {
    assert Outer(0);
  }

  lemma FitsStart(text: string, ms: seq<Match>, c: nat)
    ensures Fits(text, ms, 0, c, Shape(|text|, [], []))
  {
    ShapeShows(text, Shape(|text|, [], []));
    assert text[..|text|] == text && text[|text|..] == "";
    Unit(text);
  }

  /** A match that reaches behind what is spliced already comes after an empty one at its start. */
  lemma EatsWhenBehind(text: string, ms: seq<Match>, j: nat, sh: Shape)
    requires Spliceable(text, ms) && j < |ms| && Poised(text, ms, j, sh)
    requires sh.pos == (if j == 0 then |text| else ms[j - 1].start)
    ensures ms[j].end > sh.pos <==> Mangled(ms, j)
    ensures ms[j].end > sh.pos ==> Eats(sh, ms[j])
  {
    MatchIn(text, ms, j);
    if j > 0 {
      MangledNext(text, ms, j);
      assert Unfold(0);
    }
  }

  lemma FitsNext(text: string, ms: seq<Match>, j: nat, c: nat, sh: Shape, m: Mapping) returns (next: Shape)
    requires Spliceable(text, ms) && j < |ms| && Known(text, ms, j, c, sh, m)
    ensures Known(text, ms, j + 1, c, next, m)
    ensures ms[j].start + |ms[j].fragment| <= |SplicedTo(text, ms, j, c)|
  {
    var r, token := ms[j], DictToken(c + j);
    KnownOpen(text, ms, j, c, sh, m);
    Opened(text, ms, j, c, sh);
    MatchIn(text, ms, j);
    EatsWhenBehind(text, ms, j, sh);
    OneOpeningToken(c + j);
    next := NextShape(text, sh, r, token);
    ShowStep(text, SplicedTo(text, ms, j, c), sh, r, token);
    HeadStep(text, sh, r, token);
    GrowStep(text, sh, r, token);
    GroupsStep(text, ms, j, sh, token);
    CountStep(text, sh, r, c + j);
    PoisedStep(text, ms, j, sh, token);
    if Knows(m, ms, j + 1, c) {
      KnowsLast(m, ms, j + 1, c);
      SaneStep(text, m, sh, r, token);
    }
  }

  /** Every message has a shape while it is spliced; a mapping that knows the tokens knows its pieces. */
  lemma {:induction false} Shaped(text: string, ms: seq<Match>, j: nat, c: nat, m: Mapping) returns (sh: Shape)
    requires Spliceable(text, ms) && j <= |ms|
    ensures Known(text, ms, j, c, sh, m)
    decreases j
  {
    if j == 0 {
      sh := Shape(|text|, [], []);
      FitsStart(text, ms, c);
    } else {
      sh := Shaped(text, ms, j - 1, c, m);
      sh := FitsNext(text, ms, j - 1, c, sh, m);
    }
  }

  ghost predicate Known(text: string, ms: seq<Match>, j: nat, c: nat, sh: Shape, m: Mapping) {
    forall k :: Outer(k) ==> Fits(text, ms, j, c, sh) && j <= |ms| && (Knows(m, ms, j, c) ==> Sane(text, m, sh))
  }

  lemma KnownOpen(text: string, ms: seq<Match>, j: nat, c: nat, sh: Shape, m: Mapping)
    requires Known(text, ms, j, c, sh, m)
    ensures Fits(text, ms, j, c, sh) && j <= |ms| && (Knows(m, ms, j, c) ==> Sane(text, m, sh))
  {
    assert Outer(0);
  }

  lemma KnowsLast(m: Mapping, ms: seq<Match>, j: nat, c: nat)
    requires 0 < j <= |ms| && Knows(m, ms, j, c)
    ensures Knows(m, ms, j - 1, c) && DictToken(c + j - 1) in m && m[DictToken(c + j - 1)] == ms[j - 1].fragment
  {
    assert Owns(m, c + (j - 1), ms[j - 1]);
    assert Unfold(0);
  }

  /** The next splice is in bounds. */
  lemma InBounds(text: string, ms: seq<Match>, j: nat, c: nat)
    requires Spliceable(text, ms) && j < |ms|
    ensures ms[j].start + |ms[j].fragment| <= |SplicedTo(text, ms, j, c)|
    ensures SplicedTo(text, ms, j + 1, c) == Spliced(SplicedTo(text, ms, j, c), ms[j], DictToken(c + j))
  {
    var sh := Shaped(text, ms, j, c, map[]);
    var _ := FitsNext(text, ms, j, c, sh, map[]);
  }

  // ---------- where tokens can show ----------

  /** A masked piece whose shown form is apart from `t`, or that is masked by `t`, keeps `t` clear. */
  lemma {:induction false} ClearJoin(a: seq<Piece>, p: Piece, b: seq<Piece>, R: set<string>, t: string)
    requires p.Tok? && (p.token == t || Apart(Shown(p, R), t)) && Clear(a, R, t) && Clear(b, R, t)
    ensures Clear(a + [p] + b, R, t)
    decreases |a|
  {
    var i := First(a, t);
    if i < |a| {
      ClearJoin(a[i + 1..], p, b, R, t);
      assert a[i + 1..] + [p] + b == a[i + 1..] + ([p] + b) && a + [p] + b == a + ([p] + b);
      ClearLonger(a, [p] + b, R, t);
    } else if p.token == t {
      ClearAtToken(a, p, b, R, t);
    } else {
      ClearPast(a, p, b, R, t);
    }
  }

  /** The first piece masked by `t` is in `a`. */
  lemma ClearLonger(a: seq<Piece>, b: seq<Piece>, R: set<string>, t: string)
    requires var i := First(a, t); i < |a| && !Contains(Render(a[..i], R), t) && Clear(a[i + 1..] + b, R, t)
    ensures Clear(a + b, R, t)
  {
    var i := First(a, t);
    FirstIs(a + b, t, i);
    assert (a + b)[..i] == a[..i] && (a + b)[i + 1..] == a[i + 1..] + b;
  }

  lemma ClearAtToken(a: seq<Piece>, p: Piece, b: seq<Piece>, R: set<string>, t: string)
    requires p.Tok? && p.token == t && First(a, t) == |a| && Clear(a, R, t) && Clear(b, R, t)
    ensures Clear(a + [p] + b, R, t)
  {
    var ps := a + [p] + b;
    FirstIs(ps, t, |a|);
    assert ps[..|a|] == a == a[..|a|] && ps[|a| + 1..] == b;
  }

  lemma ClearPast(a: seq<Piece>, p: Piece, b: seq<Piece>, R: set<string>, t: string)
    requires p.Tok? && p.token != t && Apart(Shown(p, R), t)
    requires First(a, t) == |a| && Clear(a, R, t) && Clear(b, R, t)
    ensures Clear(a + [p] + b, R, t)
  {
    ClearRun(a, R, t);
    ClearRun(b, R, t);
    assert a[..|a|] == a;
    RunsApart(a, p, b[..First(b, t)], R, t);
    FirstPast(a, p, b, t);
    ClearBy(a + [p] + b, |a| + 1 + First(b, t), R, t);
  }

  lemma ClearRun(ps: seq<Piece>, R: set<string>, t: string)
    requires Clear(ps, R, t)
    ensures var i := First(ps, t); !Contains(Render(ps[..i], R), t) && (i < |ps| ==> Clear(ps[i + 1..], R, t))
  {
  }

  lemma ClearBy(ps: seq<Piece>, i: nat, R: set<string>, t: string)
    requires First(ps, t) == i && !Contains(Render(ps[..i], R), t) && (i < |ps| ==> Clear(ps[i + 1..], R, t))
    ensures Clear(ps, R, t)
  {
  }

  lemma FirstPast(a: seq<Piece>, p: Piece, b: seq<Piece>, t: string)
    requires p.Tok? && p.token != t && First(a, t) == |a|
    ensures var ps, k := a + [p] + b, First(b, t);
      var i := |a| + 1 + k;
      First(ps, t) == i && i <= |ps| && ps[..i] == a + [p] + b[..k] && (k < |b| ==> ps[i + 1..] == b[k + 1..])
  {
    FirstIs(a + [p] + b, t, |a| + 1 + First(b, t));
  }

  lemma {:induction false} FirstIs(ps: seq<Piece>, t: string, i: nat)
    requires i <= |ps| && (i < |ps| ==> ps[i].Tok? && ps[i].token == t)
    requires forall k :: 0 <= k < i && ps[k].Tok? ==> ps[k].token != t
    ensures First(ps, t) == i
    decreases i
  {
    if i > 0 {
      FirstIs(ps[1..], t, i - 1);
    }
  }

  lemma RunsApart(a: seq<Piece>, p: Piece, b: seq<Piece>, R: set<string>, t: string)
    requires Apart(Shown(p, R), t) && !Contains(Render(a, R), t) && !Contains(Render(b, R), t)
    ensures !Contains(Render(a + [p] + b, R), t)
  {
    RenderSplit(a + [p] + b, R, |a|);
    assert (a + [p] + b)[..|a|] == a && (a + [p] + b)[|a| + 1..] == b;
    NoneAcross(Render(a, R), Shown(p, R), Render(b, R), t);
  }

  /** A tail without opening bracket in front changes nothing. */
  lemma ClearTail(tail: string, ps: seq<Piece>, R: set<string>, t: string)
    requires '[' !in tail && t != "" && t[0] == '[' && Clear(ps, R, t)
    ensures Clear([Lit(tail)] + ps, R, t)
  {
    var qs, i := [Lit(tail)] + ps, First(ps, t);
    assert qs[1..] == ps;
    assert First(qs, t) == i + 1 && qs[..i + 1] == [Lit(tail)] + ps[..i];
    LitRender(tail, ps[..i], R);
    NotInTail(tail, Render(ps[..i], R), t);
    if i < |ps| {
      assert qs[i + 2..] == ps[i + 1..];
    }
  }

  lemma LitRender(x: string, ps: seq<Piece>, R: set<string>)
    ensures Render([Lit(x)] + ps, R) == x + Render(ps, R)
  {
    assert ([Lit(x)] + ps)[1..] == ps;
  }

  lemma NotInTail(tail: string, y: string, t: string)
    requires '[' !in tail && t != "" && t[0] == '[' && !Contains(y, t)
    ensures !Contains(tail + y, t)
  {
    if p :| OccursAt(t, tail + y, p) {
      BracketAt(t, tail, y, p);
    }
  }

  lemma CharIn(x: string, y: string, p: nat)
    ensures p < |x| ==> (x + y)[p] in x
  {
    if p < |x| {
      assert (x + y)[p] == x[p];
    }
  }

  lemma BracketAt(t: string, tail: string, y: string, p: nat)
    requires '[' !in tail && t != "" && t[0] == '[' && OccursAt(t, tail + y, p)
    ensures Contains(y, t)
  {
    assert (tail + y)[p] == (tail + y)[p..p + |t|][0] == '[';
    CharIn(tail, y, p);
    assert y[p - |tail|..p - |tail| + |t|] == (tail + y)[p..p + |t|];
    assert OccursAt(t, y, p - |tail|);
  }

  /** Nothing that restores to a part of a text without `t` ever shows it. */
  lemma ClearInText(text: string, ps: seq<Piece>, R: set<string>, t: string, m: Mapping)
    requires TokenSet(m.Keys) && t in m && t !in R && !Contains(text, t) && Contains(text, Full(ps))
    requires forall p :: p in ps ==> PieceIn(m, p)
    ensures Clear(ps, R, t)
  {
    if Contains(Full(ps), t) {
      ContainsTwice(text, Full(ps), t);
    }
    assert forall i :: 0 <= i < |ps| ==> ps[i] in ps;
    ClearWhenAbsent(ps, R, t, m.Keys);
  }

  lemma ContainsTwice(s: string, x: string, t: string)
    requires Contains(s, x) && Contains(x, t)
    ensures Contains(s, t)
  {
    var p :| OccursAt(x, s, p);
    var q :| OccursAt(t, x, q);
    Slice(s, p, p + |x|, q, q + |t|);
    assert OccursAt(t, s, p + q);
  }

  /** What one pass sees of a group: its token, or a fragment apart from the token looked for. */
  ghost predicate Bars(g: Group, R: set<string>, t: string) {
    g.token == t || Apart(Shown(Tok(g.token, g.original), R), t)
  }

  lemma SegmentClear(text: string, g: Group, R: set<string>, t: string, m: Mapping)
    requires TokenSet(m.Keys) && t in m && t !in R && t != "" && t[0] == '[' && !Contains(text, t)
    requires GroupSane(text, m, g)
    ensures Clear([Lit(g.tail)] + g.rest, R, t)
  {
    assert Unfold(0);
    ClearInText(text, g.rest, R, t, m);
    ClearTail(g.tail, g.rest, R, t);
  }

  lemma {:induction false} GroupsClear(text: string, gs: seq<Group>, R: set<string>, t: string, m: Mapping)
    requires gs != [] && TokenSet(m.Keys) && t in m && t !in R && t != "" && t[0] == '[' && !Contains(text, t)
    requires forall i :: 0 <= i < |gs| ==> GroupSane(text, m, gs[i]) && Bars(gs[i], R, t)
    ensures Clear(Behind(gs[0], GroupPieces(gs[1..])), R, t)
    decreases |gs|
  {
    SegmentClear(text, gs[0], R, t, m);
    if |gs| == 1 {
      assert gs[1..] == [] && Behind(gs[0], []) == [Lit(gs[0].tail)] + gs[0].rest;
    } else {
      GroupsClear(text, gs[1..], R, t, m);
      BehindJoin(gs, R, t);
    }
  }

  lemma BehindJoin(gs: seq<Group>, R: set<string>, t: string)
    requires |gs| > 1 && Bars(gs[1], R, t) && Clear([Lit(gs[0].tail)] + gs[0].rest, R, t)
    requires Clear(Behind(gs[1..][0], GroupPieces(gs[1..][1..])), R, t)
    ensures Clear(Behind(gs[0], GroupPieces(gs[1..])), R, t)
  {
    var h := gs[1];
    var seg, p, b := [Lit(gs[0].tail)] + gs[0].rest, Tok(h.token, h.original), Behind(h, GroupPieces(gs[1..][1..]));
    ClearJoin(seg, p, b, R, t);
    assert GroupPieces(gs[1..]) == [p] + b;
    assert Behind(gs[0], GroupPieces(gs[1..])) == seg + [p] + b;
  }

  lemma ShapeClear(text: string, sh: Shape, R: set<string>, t: string, m: Mapping)
    requires sh.pos <= |text| && sh.groups != [] && Sane(text, m, sh) && HeadInText(text, sh)
    requires TokenSet(m.Keys) && t in m && t !in R && t != "" && t[0] == '[' && !Contains(text, t)
    requires forall g :: g in sh.groups ==> Bars(g, R, t)
    ensures Clear(ShapePieces(text, sh), R, t)
  {
    var gs := sh.groups;
    LeadClear(text, sh, R, t, m);
    SaneGroups(text, sh, m);
    assert forall i :: 0 <= i < |gs| ==> gs[i] in gs;
    GroupsClear(text, gs, R, t, m);
    ShapeParts(text, sh);
    ClearJoin([Lit(text[..sh.pos])] + sh.head, Tok(gs[0].token, gs[0].original),
              Behind(gs[0], GroupPieces(gs[1..])), R, t);
  }

  lemma ShapeParts(text: string, sh: Shape)
    requires sh.pos <= |text| && sh.groups != []
    ensures var g := sh.groups[0];
      ShapePieces(text, sh) ==
      [Lit(text[..sh.pos])] + sh.head + [Tok(g.token, g.original)] + Behind(g, GroupPieces(sh.groups[1..]))
  {
  }

  lemma SaneGroups(text: string, sh: Shape, m: Mapping)
    requires Sane(text, m, sh)
    ensures forall g :: g in sh.groups ==> GroupSane(text, m, g)
    ensures forall p :: p in sh.head ==> PieceIn(m, p)
  {
    assert Unfold(0);
  }

  lemma LeadClear(text: string, sh: Shape, R: set<string>, t: string, m: Mapping)
    requires sh.pos <= |text| && Sane(text, m, sh) && HeadInText(text, sh)
    requires TokenSet(m.Keys) && t in m && t !in R && !Contains(text, t)
    ensures Clear([Lit(text[..sh.pos])] + sh.head, R, t)
  {
    assert Unfold(0);
    LitFirst(text[..sh.pos], sh.head);
    StartOfText(text, sh.pos, Full(sh.head));
    ClearInText(text, [Lit(text[..sh.pos])] + sh.head, R, t, m);
  }

  lemma StartOfText(text: string, pos: nat, x: string)
    requires pos <= |text| && x <= text[pos..]
    ensures Contains(text, text[..pos] + x)
  {
    var y := text[..pos] + x;
    assert text[pos..][..|x|] == x;
    assert text[0..|y|] == y;
    assert OccursAt(y, text, 0);
  }

  // ---------- exactly when the message comes back ----------

  ghost predicate Restores(s: string, order: seq<string>, m: Mapping, text: string) {
    (forall t | t in order :: t in m) && Restore(s, order, m) == text
  }

  lemma OrderInMap(order: seq<string>, m: Mapping)
    requires IsOrder(order, m)
    ensures forall t | t in order :: t in m
  {
    assert forall t | t in order :: t in Elements(order);
  }

  /** Tokens that the text did not hold, each in one pair of brackets. */
  ghost predicate FreshTokens(text: string, m: Mapping) {
    TokenSet(m.Keys) && forall t :: t in m ==> OneClosing(t) && t[0] == '[' && !Contains(text, t)
  }

  lemma {:induction false} GroupsMap(text: string, gs: seq<Group>, m: Mapping)
    requires forall g :: g in gs ==> GroupSane(text, m, g)
    ensures forall p :: p in GroupPieces(gs) ==> PieceIn(m, p)
    decreases |gs|
  {
    if gs != [] {
      assert gs[0] in gs && Unfold(0);
      GroupsMap(text, gs[1..], m);
    }
  }

  lemma ShapeMapsTo(text: string, sh: Shape, m: Mapping)
    requires sh.pos <= |text| && Sane(text, m, sh)
    ensures MapsTo(ShapePieces(text, sh), m)
  {
    SaneGroups(text, sh, m);
    GroupsMap(text, sh.groups, m);
    var ps := ShapePieces(text, sh);
    forall i | 0 <= i < |ps| ensures PieceIn(m, ps[i]) {
      assert ps[i] == Lit(text[..sh.pos]) || ps[i] in sh.head || ps[i] in GroupPieces(sh.groups);
    }
  }

  /** No empty match came before a longer one with its start: every order of passes restores. */
  lemma MessageRestored(text: string, ms: seq<Match>, c: nat, m: Mapping, order: seq<string>)
    requires Spliceable(text, ms) && Knows(m, ms, |ms|, c) && FreshTokens(text, m)
    requires NoneMangled(ms, |ms|) && IsOrder(order, m)
    ensures Restores(SplicedTo(text, ms, |ms|, c), order, m, text)
  {
    var ps := PiecesOf(text, ms, c, m);
    OrderInMap(order, m);
    RoundTrip(ps, order, m);
  }

  lemma FinalShape(text: string, ms: seq<Match>, c: nat, m: Mapping, sh: Shape)
    requires Fits(text, ms, |ms|, c, sh) && Sane(text, m, sh)
    ensures sh.pos <= |text|
    ensures var ps := ShapePieces(text, sh);
      SplicedTo(text, ms, |ms|, c) == Render(ps, {}) && MapsTo(ps, m) &&
      |Full(ps)| >= |text| + |sh.groups| && (sh.groups == [] ==> Full(ps) == text)
    ensures (sh.groups == [] <==> NoneMangled(ms, |ms|)) && Falling(sh.head + GroupPieces(sh.groups), c + |ms|)
  {
    Opened(text, ms, |ms|, c, sh);
    ShapeMapsTo(text, sh, m);
    ShapeFull(text, sh);
    ShowingShape(text, SplicedTo(text, ms, |ms|, c), sh);
    assert Unfold(0);
  }

  lemma ShowingShape(text: string, content: string, sh: Shape)
    requires sh.pos <= |text| && Showing(text, content, sh) && Grown(text, sh)
    ensures content == Render(ShapePieces(text, sh), {}) && |Full(ShapePieces(text, sh))| >= |text| + |sh.groups|
  {
    assert Unfold(0);
  }

  lemma ShapeFull(text: string, sh: Shape)
    requires sh.pos <= |text| && HeadInText(text, sh)
    ensures sh.groups == [] ==> Full(ShapePieces(text, sh)) == text
  {
    assert Unfold(0);
    ShapeShows(text, sh);
    Unit(Full(sh.head));
    assert text == text[..sh.pos] + text[sh.pos..];
  }

  /** The pieces carry different tokens, ... */
  lemma ShapeFalls(text: string, sh: Shape, n: nat)
    requires sh.pos <= |text| && Falling(sh.head + GroupPieces(sh.groups), n)
    ensures Falling(ShapePieces(text, sh), n)
  {
    var x, more := text[..sh.pos], sh.head + GroupPieces(sh.groups);
    FallingLit(x, more, n);
    PiecesFrom(Lit(x), sh.head, GroupPieces(sh.groups));
  }

  lemma PiecesFrom(p: Piece, a: seq<Piece>, b: seq<Piece>)
    ensures [p] + a + b == [p] + (a + b)
  {
  }

  /** ... and `t` shows only where it masks one of them. */
  lemma ShapeShowsOnly(text: string, ms: seq<Match>, c: nat, m: Mapping, sh: Shape, t: string)
    requires Fits(text, ms, |ms|, c, sh) && Sane(text, m, sh) && sh.groups != []
    requires TokenSet(m.Keys) && t in m && t != "" && t[0] == '[' && !Contains(text, t)
    ensures sh.pos <= |text| && Clear(ShapePieces(text, sh), {}, t)
  {
    Opened(text, ms, |ms|, c, sh);
    GroupsBar(text, sh, t, m);
    ShapeClear(text, sh, {}, t, m);
  }

  /** Every message is shown by pieces with falling tokens. They restore to the text, or, after an empty
      match before a longer one, to more; and then a token that the text did not hold shows only where it
      masks one of them. */
  lemma PiecesOf(text: string, ms: seq<Match>, c: nat, m: Mapping) returns (ps: seq<Piece>)
    requires Spliceable(text, ms) && Knows(m, ms, |ms|, c) && TokenSet(m.Keys)
    ensures SplicedTo(text, ms, |ms|, c) == Render(ps, {}) && MapsTo(ps, m) && Falling(ps, c + |ms|)
    ensures if NoneMangled(ms, |ms|) then Full(ps) == text else |Full(ps)| > |text|
    ensures !NoneMangled(ms, |ms|) ==>
      forall t :: t in m && t != "" && t[0] == '[' && !Contains(text, t) ==> Clear(ps, {}, t)
  {
    var sh := Shaped(text, ms, |ms|, c, m);
    KnownOpen(text, ms, |ms|, c, sh, m);
    FinalShape(text, ms, c, m, sh);
    ShapeFalls(text, sh, c + |ms|);
    ps := ShapePieces(text, sh);
    forall t | sh.groups != [] && t in m && t != "" && t[0] == '[' && !Contains(text, t) ensures Clear(ps, {}, t) {
      ShapeShowsOnly(text, ms, c, m, sh, t);
    }
  }

  lemma PiecesRead(ps: seq<Piece>, n: nat, content: string, m: Mapping, text: string)
    requires Falling(ps, n) && MapsTo(ps, m) && content == Render(ps, {}) && FreshTokens(text, m)
    requires forall t :: t in m ==> Clear(ps, {}, t)
    requires forall order :: IsOrder(order, m) ==> Restores(content, order, m, text)
    ensures text == Full(ps)
  {
    FallingOnce(ps, n);
    OnlyReading(ps, m, text);
  }

  lemma {:induction false} FallingLacks(ps: seq<Piece>, n: nat, t: string)
    requires Falling(ps, n) && forall k: nat :: t != DictToken(k)
    ensures First(ps, t) == |ps|
    decreases |ps|
  {
    if ps != [] {
      var k: nat := n;
      if ps[0].Tok? {
        k :| k < n && ps[0].token == DictToken(k) && Falling(ps[1..], k);
      }
      FallingLacks(ps[1..], k, t);
    }
  }

  /** A token of another kind that the text did not hold does not show in the message either. */
  lemma StaysAbsent(text: string, ms: seq<Match>, c: nat, m: Mapping, t: string)
    requires Spliceable(text, ms) && Knows(m, ms, |ms|, c) && !NoneMangled(ms, |ms|)
    requires TokenSet(m.Keys) && t in m && t != "" && t[0] == '[' && !Contains(text, t)
    requires forall k: nat :: t != DictToken(k)
    ensures !Contains(SplicedTo(text, ms, |ms|, c), t)
  {
    var ps := PiecesOf(text, ms, c, m);
    FallingLacks(ps, c + |ms|, t);
    assert ps[..|ps|] == ps;
  }

  lemma GroupsBar(text: string, sh: Shape, t: string, m: Mapping)
    requires TokenSet(m.Keys) && t in m && Sane(text, m, sh)
    ensures forall g :: g in sh.groups ==> Bars(g, {}, t)
  {
    SaneGroups(text, sh, m);
    forall g | g in sh.groups ensures Bars(g, {}, t) {
      assert GroupSane(text, m, g) && Unfold(0);
    }
  }

  /** A text that held no token comes back in every order of passes if and only if no empty match was
      spliced before a longer one with its start. */
  lemma MessageExact(text: string, ms: seq<Match>, c: nat, m: Mapping)
    requires Spliceable(text, ms) && Knows(m, ms, |ms|, c) && FreshTokens(text, m)
    ensures (forall order :: IsOrder(order, m) ==> Restores(SplicedTo(text, ms, |ms|, c), order, m, text)) <==>
      (forall i, j :: 0 <= i < j < |ms| ==> !EmptyFirst(ms[i], ms[j]))
  {
    if NoneMangled(ms, |ms|) {
      forall order | IsOrder(order, m) ensures Restores(SplicedTo(text, ms, |ms|, c), order, m, text) {
        MessageRestored(text, ms, c, m, order);
      }
      forall i, j | 0 <= i < j < |ms| ensures !EmptyFirst(ms[i], ms[j]) {
        assert !Mangled(ms, j);
      }
    } else {
      var ps := PiecesOf(text, ms, c, m);
      if forall order :: IsOrder(order, m) ==> Restores(SplicedTo(text, ms, |ms|, c), order, m, text) {
        PiecesRead(ps, c + |ms|, SplicedTo(text, ms, |ms|, c), m, text);
      }
      var j :| 0 <= j < |ms| && Mangled(ms, j);
    }
  }
}
