/** What a masked text must have been when every order of passes restores it to the same text. */
module AllOrders {
  import opened Sequences
  import opened Folding
  import opened Texts
  import opened Masking

  /** A masked part with the literal text up to the next one. */
  datatype Part = Part(token: string, original: string, after: string)

  function Shows(qs: seq<Part>): string {
    if qs == [] then "" else qs[0].token + (qs[0].after + Shows(qs[1..]))
  }

  function Opens(qs: seq<Part>): string {
    if qs == [] then "" else qs[0].original + (qs[0].after + Opens(qs[1..]))
  }

  /** The tokens from right to left. */
  function Backwards(qs: seq<Part>): seq<string> {
    if qs == [] then [] else Backwards(qs[1..]) + [qs[0].token]
  }

  /** The first `i` tokens from left to right, then the others from right to left. */
  function Turn(qs: seq<Part>, i: nat): seq<string>
    requires i <= |qs|
    decreases |qs|
  {
    if i == 0 then Backwards(qs) else [qs[0].token] + Turn(qs[1..], i - 1)
  }

  /** As in every issued token. */
  predicate OneClosing(t: string) {
    t != "" && t[|t| - 1] == ']' && ']' !in t[..|t| - 1]
  }

  /** Different tokens of the mapping, and no token of the mapping in the literal text; kept folded. */
  ghost predicate Sound(qs: seq<Part>, m: Mapping) {
    forall k :: Unfold(k) ==>
      TokenSet(m.Keys) && (forall t :: t in m ==> OneClosing(t)) &&
      (forall i :: 0 <= i < |qs| ==> SoundAt(qs[i], m)) &&
      forall i, j :: 0 <= i < j < |qs| ==> qs[i].token != qs[j].token
  }

  ghost predicate SoundAt(c: Part, m: Mapping) {
    c.token in m && m[c.token] == c.original && forall t :: t in m ==> !Contains(c.after, t)
  }

  lemma SoundFirst(qs: seq<Part>, m: Mapping)
    requires Sound(qs, m) && qs != []
    ensures Sound(qs[1..], m) && SoundAt(qs[0], m) && TokenSet(m.Keys)
    ensures forall t :: t in m ==> OneClosing(t)
    ensures forall i :: 0 <= i < |qs[1..]| ==> qs[1..][i].token != qs[0].token
  {
    assert Unfold(0);
  }

  /** Every order used below stays in the mapping. */
  lemma {:induction false} TurnIn(qs: seq<Part>, i: nat, m: Mapping)
    requires Sound(qs, m) && i <= |qs|
    ensures forall t | t in Turn(qs, i) :: t in m
    ensures forall t | t in Turn(qs, i) :: exists k :: 0 <= k < |qs| && qs[k].token == t
    decreases |qs|
  {
    if qs != [] {
      SoundFirst(qs, m);
      TurnIn(qs[1..], if i == 0 then 0 else i - 1, m);
      forall t | t in Turn(qs, i) ensures t in m && exists k :: 0 <= k < |qs| && qs[k].token == t {
        if t == qs[0].token {
          assert qs[0].token == t;
        } else {
          assert t in Turn(qs[1..], if i == 0 then 0 else i - 1);
          var k :| 0 <= k < |qs[1..]| && qs[1..][k].token == t;
          assert qs[k + 1].token == t;
        }
      }
    }
  }

  // ---------- single passes ----------

  /** Text on both sides of a token is replaced by itself, and so is the token. */
  lemma {:induction false} ReplaceAround(a: string, t: string, b: string, o: string)
    requires t != "" && NoBorder(t, t)
    ensures ReplaceAll(a + t + b, t, o) == ReplaceAll(a, t, o) + o + ReplaceAll(b, t, o)
    decreases |a|
  {
    var s := a + t + b;
    if a == "" {
      assert "" + t + b == t + b;
      ReplaceFirst("", t, b, o);
      assert "" + o == o;
    } else if |s| >= |t| && s[..|t|] == t {
      assert s[0..|t|] == s[..|t|] && OccursAt(t, s, 0);
      SelfStraddle(a, b, t, 0);
      var a' := a[|t|..];
      assert a[..|t|] == t && s[|t|..] == a' + t + b;
      ReplaceAround(a', t, b, o);
      Regroup(o, ReplaceAll(a', t, o), o, ReplaceAll(b, t, o));
    } else {
      assert !StartsWith(a, t) by { assert |t| <= |a| ==> a[..|t|] == s[..|t|]; }
      var c, a' := [a[0]], a[1..];
      assert s == c + (a' + t + b) && s[1..] == a' + t + b;
      ReplaceAround(a', t, b, o);
      Regroup(c, ReplaceAll(a', t, o), o, ReplaceAll(b, t, o));
      ReplaceShort(a, t, o);
      ReplaceShort(s, t, o);
    }
  }

  /** What holds no closing bracket stays at the end, whatever is replaced before it. */
  lemma {:induction false} ReplaceBefore(s: string, u: string, t: string, o: string)
    requires OneClosing(t) && ']' !in u
    ensures ReplaceAll(s + u, t, o) == ReplaceAll(s, t, o) + u
    decreases |s|
  {
    EndsInside(s, u, t);
    if s == "" {
      assert "" + u == u;
      ReplaceNone(u, t, o);
    } else if StartsWith(s + u, t) {
      assert (s + u)[0..|t|] == t && OccursAt(t, s + u, 0);
      assert s[..|t|] == t && (s + u)[|t|..] == s[|t|..] + u;
      ReplaceBefore(s[|t|..], u, t, o);
      Assoc(o, ReplaceAll(s[|t|..], t, o), u);
    } else {
      assert |t| <= |s| ==> s[..|t|] == (s + u)[..|t|];
      assert (s + u)[1..] == s[1..] + u;
      ReplaceBefore(s[1..], u, t, o);
      ReplaceShort(s, t, o);
      ReplaceShort(s + u, t, o);
      Assoc([s[0]], ReplaceAll(s[1..], t, o), u);
    }
  }

  lemma EndsInside(s: string, u: string, t: string)
    requires OneClosing(t) && ']' !in u
    ensures forall p :: OccursAt(t, s + u, p) ==> p + |t| <= |s|
  {
    forall p | OccursAt(t, s + u, p) ensures p + |t| <= |s| {
      var z := (s + u)[p + |t| - 1];
      assert z == (s + u)[p..p + |t|][|t| - 1];
      assert p + |t| > |s| ==> z in u;
    }
  }

  lemma {:induction false} RestoreBefore(s: string, u: string, order: seq<string>, m: Mapping)
    requires forall t | t in order :: t in m
    requires ']' !in u && forall t :: t in m ==> OneClosing(t)
    ensures Restore(s + u, order, m) == Restore(s, order, m) + u
    decreases |order|
  {
    if order != [] {
      ReplaceBefore(s, u, order[0], m[order[0]]);
      RestoreBefore(ReplaceAll(s, order[0], m[order[0]]), u, order[1..], m);
    }
  }

  /** A token and the literal text behind it stay while other tokens are put back. */
  lemma {:induction false} RestoreLeft(s: string, c: Part, order: seq<string>, m: Mapping)
    requires TokenSet(m.Keys) && SoundAt(c, m) && forall t | t in order :: t in m && t != c.token
    ensures Restore(s + (c.token + c.after), order, m) == Restore(s, order, m) + (c.token + c.after)
    decreases |order|
  {
    if order != [] {
      var t := order[0];
      Assoc(s, c.token, c.after);
      ReplaceAcross(s, c.token, c.after, t, m[t]);
      ReplaceNone(c.after, t, m[t]);
      Assoc(ReplaceAll(s, t, m[t]), c.token, c.after);
      RestoreLeft(ReplaceAll(s, t, m[t]), c, order[1..], m);
    }
  }

  /** A token that masks none of the parts does not show. */
  lemma {:induction false} NotShown(x: string, qs: seq<Part>, t: string, m: Mapping)
    requires Sound(qs, m) && t in m && !Contains(x, t)
    requires forall i :: 0 <= i < |qs| ==> qs[i].token != t
    ensures !Contains(x + Shows(qs), t)
    decreases |qs|
  {
    if qs == [] {
      Unit(x);
    } else {
      var c := qs[0];
      SoundFirst(qs, m);
      NotShown(c.after, qs[1..], t, m);
      NoneAcross(x, c.token, c.after + Shows(qs[1..]), t);
      Assoc(x, c.token, c.after + Shows(qs[1..]));
    }
  }

  /** The pass for the leftmost token. */
  lemma FirstPass(s: string, qs: seq<Part>, m: Mapping)
    requires Sound(qs, m) && qs != []
    ensures var c := qs[0];
      c.token in m && ReplaceAll(s + Shows(qs), c.token, c.original) ==
      ReplaceAll(s, c.token, c.original) + (c.original + c.after) + Shows(qs[1..])
  {
    var c := qs[0];
    SoundFirst(qs, m);
    var y := c.after + Shows(qs[1..]);
    NotShown(c.after, qs[1..], c.token, m);
    Assoc(s, c.token, y);
    ReplaceAround(s, c.token, y, c.original);
    ReplaceNone(y, c.token, c.original);
    Assoc(ReplaceAll(s, c.token, c.original), c.original, y);
    Assoc(c.original, c.after, Shows(qs[1..]));
    Assoc(ReplaceAll(s, c.token, c.original), c.original + c.after, Shows(qs[1..]));
  }

  // ---------- from right to left ----------

  /** With everything to its right put back, no token shows up there by accident. */
  ghost predicate Clean(qs: seq<Part>)
    decreases |qs|
  {
    qs != [] ==> !Contains(qs[0].after + Opens(qs[1..]), qs[0].token) && Clean(qs[1..])
  }

  /** Then passes from right to left put back just the masked parts. */
  lemma {:induction false} RightToLeft(s: string, qs: seq<Part>, m: Mapping)
    requires Sound(qs, m) && Clean(qs)
    ensures forall t | t in Backwards(qs) :: t in m
    ensures Restore(s + Shows(qs), Backwards(qs), m) == Restore(s, Backwards(qs), m) + Opens(qs)
    decreases |qs|
  {
    TurnIn(qs, 0, m);
    if qs == [] {
      Unit(s);
    } else {
      var c, rest := qs[0], qs[1..];
      SoundFirst(qs, m);
      TurnIn(rest, 0, m);
      forall t | t in Backwards(rest) ensures t != c.token {
        assert t in Turn(rest, 0);
      }
      Assoc(s, c.token + c.after, Shows(rest));
      Assoc(c.token, c.after, Shows(rest));
      RightToLeft(s + (c.token + c.after), rest, m);
      RestoreLeft(s, c, Backwards(rest), m);
      LastPass(Restore(s, Backwards(rest), m), qs, m);
      RestoreAppend(s + Shows(qs), Backwards(rest), [c.token], m);
      RestoreAppend(s, Backwards(rest), [c.token], m);
    }
  }

  lemma LastPass(s: string, qs: seq<Part>, m: Mapping)
    requires Sound(qs, m) && qs != [] && Clean(qs)
    ensures var c := qs[0];
      c.token in m && Restore(s + (c.token + c.after) + Opens(qs[1..]), [c.token], m) ==
      Restore(s, [c.token], m) + Opens(qs)
  {
    var c := qs[0];
    SoundFirst(qs, m);
    var y := c.after + Opens(qs[1..]);
    assert [c.token][1..] == [];
    Assoc(s, c.token + c.after, Opens(qs[1..]));
    Assoc(c.token, c.after, Opens(qs[1..]));
    Assoc(s, c.token, y);
    ReplaceAround(s, c.token, y, c.original);
    ReplaceNone(y, c.token, c.original);
    Assoc(ReplaceAll(s, c.token, c.original), c.original, y);
    var r := ReplaceAll(s, c.token, c.original);
    assert Restore(s, [c.token], m) == Restore(r, [], m) == r;
    assert Restore(s + c.token + y, [c.token], m) == Restore(r + c.original + y, [], m);
  }

  // ---------- what all orders agree on ----------

  ghost predicate TurnsGive(s: string, qs: seq<Part>, m: Mapping, x: string) {
    forall i :: 0 <= i <= |qs| ==> TurnGives(s, qs, i, m, x)
  }

  ghost predicate TurnGives(s: string, qs: seq<Part>, i: nat, m: Mapping, x: string)
    requires i <= |qs|
  {
    (forall t | t in Turn(qs, i) :: t in m) && Restore(s + Shows(qs), Turn(qs, i), m) == x
  }

  /** A text without tokens that all these orders lead to allows no accident. */
  lemma {:induction false} NoAccident(s: string, qs: seq<Part>, m: Mapping, x: string)
    requires Sound(qs, m) && TurnsGive(s, qs, m, x) && forall t :: t in m ==> !Contains(x, t)
    ensures Clean(qs)
    decreases |qs|
  {
    if qs != [] {
      var c, rest := qs[0], qs[1..];
      SoundFirst(qs, m);
      FirstPass(s, qs, m);
      var r := ReplaceAll(s, c.token, c.original);
      var s' := r + (c.original + c.after);
      forall i | 0 <= i <= |rest| ensures TurnGives(s', rest, i, m, x) {
        assert TurnGives(s, qs, i + 1, m, x);
        TurnIn(rest, i, m);
        assert Turn(qs, i + 1)[1..] == Turn(rest, i);
      }
      NoAccident(s', rest, m, x);
      RightToLeft(s', rest, m);
      assert TurnGives(s', rest, 0, m, x);
      StaysHidden(r, c, rest, m, x);
    }
  }

  /** A token that began in the literal text behind `c` would have stayed to the end. */
  lemma StaysHidden(r: string, c: Part, rest: seq<Part>, m: Mapping, x: string)
    requires SoundAt(c, m) && Sound(rest, m) && !Contains(x, c.token) && forall t :: t in m ==> OneClosing(t)
    requires forall t | t in Backwards(rest) :: t in m
    requires x == Restore(r + (c.original + c.after), Backwards(rest), m) + Opens(rest)
    ensures !Contains(c.after + Opens(rest), c.token)
  {
    var t, a, y := c.token, c.after, Opens(rest);
    if p :| OccursAt(t, a + y, p) {
      if p + |t| <= |a| {
        assert (a + y)[0..|a|] == a;
        OccursInside(t, a + y, p, 0, |a|);
      } else if p >= |a| {
        OccursInside(t, a + y, p, |a|, |a + y|);
        assert (a + y)[|a|..|a + y|] == y;
        OccursRight(t, Restore(r + (c.original + a), Backwards(rest), m), y);
      } else {
        var u, q := a[p..], r + (c.original + a[..p]);
        HeadOf(a, y, p, t);
        assert r + (c.original + a) == q + u;
        RestoreBefore(q, u, Backwards(rest), m);
        Assoc(Restore(q, Backwards(rest), m), u, y);
        OccursRight(t, Restore(q, Backwards(rest), m), u + y);
      }
    }
  }

  lemma HeadOf(a: string, y: string, p: nat, t: string)
    requires OccursAt(t, a + y, p) && p < |a| < p + |t| && OneClosing(t)
    ensures ']' !in a[p..] && Contains(a[p..] + y, t)
  {
    var u := a[p..];
    assert (a + y)[p..] == u + y;
    assert (u + y)[0..|t|] == (a + y)[p..p + |t|];
    assert OccursAt(t, u + y, 0);
    forall i | 0 <= i < |u| ensures u[i] != ']' {
      assert u[i] == (u + y)[0..|t|][i] == t[..|t| - 1][i];
    }
  }

  // ---------- pieces as parts ----------

  /** The literal text before the first masked part. */
  function Lead(ps: seq<Piece>): string {
    if ps == [] || ps[0].Tok? then "" else ps[0].text + Lead(ps[1..])
  }

  function PartsOf(ps: seq<Piece>): seq<Part> {
    if ps == [] then []
    else if ps[0].Lit? then PartsOf(ps[1..])
    else [Part(ps[0].token, ps[0].original, Lead(ps[1..]))] + PartsOf(ps[1..])
  }

  lemma {:induction false} PartsShow(ps: seq<Piece>)
    ensures Render(ps, {}) == Lead(ps) + Shows(PartsOf(ps)) && Full(ps) == Lead(ps) + Opens(PartsOf(ps))
  {
    if ps != [] {
      PartsShow(ps[1..]);
      if ps[0].Lit? {
        Assoc(ps[0].text, Lead(ps[1..]), Shows(PartsOf(ps[1..])));
        Assoc(ps[0].text, Lead(ps[1..]), Opens(PartsOf(ps[1..])));
      } else {
        var qs := PartsOf(ps);
        assert qs[1..] == PartsOf(ps[1..]);
        Unit(Shows(qs));
        Unit(Opens(qs));
      }
    }
  }

  /** No two pieces are masked by the same token. */
  ghost predicate Once(ps: seq<Piece>) {
    forall i, j :: 0 <= i < j < |PartsOf(ps)| ==> PartsOf(ps)[i].token != PartsOf(ps)[j].token
  }

  lemma {:induction false} ClearRest(ps: seq<Piece>, t: string)
    requires ps != [] && Clear(ps, {}, t)
    ensures Clear(ps[1..], {}, t)
    ensures ps[0].Lit? ==> First(ps, t) > 0
  {
    var i := First(ps, t);
    if i > 0 {
      var run := ps[..i];
      assert run[1..] == ps[1..][..i - 1] && (i < |ps| ==> ps[1..][i..] == ps[i + 1..]);
      if Contains(Render(run[1..], {}), t) {
        OccursRight(t, Shown(ps[0], {}), Render(run[1..], {}));
      }
    } else {
      assert ps[0 + 1..] == ps[1..];
    }
  }

  lemma {:induction false} LeadInRun(ps: seq<Piece>, t: string)
    requires Clear(ps, {}, t) && t != ""
    ensures !Contains(Lead(ps), t)
  {
    var i := First(ps, t);
    var run := Render(ps[..i], {});
    var n := LeadStarts(ps, t);
    assert run == run[..n] + run[n..];
    if Contains(Lead(ps), t) {
      OccursLeft(t, run[..n], run[n..]);
    }
  }

  lemma {:induction false} LeadStarts(ps: seq<Piece>, t: string) returns (n: nat)
    ensures var run := Render(ps[..First(ps, t)], {}); n <= |run| && Lead(ps) == run[..n]
  {
    n := 0;
    if ps != [] && ps[0].Lit? {
      var i := First(ps, t);
      n := LeadStarts(ps[1..], t);
      assert ps[..i][1..] == ps[1..][..i - 1];
      n := |ps[0].text| + n;
    }
  }

  lemma {:induction false} PartsSound(ps: seq<Piece>, m: Mapping)
    requires MapsTo(ps, m) && forall t :: t in m ==> t != "" && Clear(ps, {}, t)
    ensures forall i :: 0 <= i < |PartsOf(ps)| ==> SoundAt(PartsOf(ps)[i], m)
    ensures forall t :: t in m ==> !Contains(Lead(ps), t)
    decreases |ps|
  {
    forall t | t in m ensures !Contains(Lead(ps), t) {
      LeadInRun(ps, t);
    }
    if ps != [] {
      forall t | t in m ensures Clear(ps[1..], {}, t) {
        ClearRest(ps, t);
      }
      PartsSound(ps[1..], m);
      if ps[0].Tok? {
        var c, rest := Part(ps[0].token, ps[0].original, Lead(ps[1..])), PartsOf(ps[1..]);
        assert SoundAt(c, m) && PartsOf(ps) == [c] + rest;
      }
    }
  }

  // ---------- the theorem ----------

  /** If every order of passes leads from a masked text to the same text without tokens, then the
      masked parts put back give that text. */
  lemma OnlyReading(ps: seq<Piece>, m: Mapping, x: string)
    requires TokenSet(m.Keys) && MapsTo(ps, m) && Once(ps)
    requires forall t :: t in m ==> OneClosing(t) && Clear(ps, {}, t) && !Contains(x, t)
    requires forall order :: IsOrder(order, m) ==>
      (forall t | t in order :: t in m) && Restore(Render(ps, {}), order, m) == x
    ensures x == Full(ps)
  {
    var qs, lead := PartsOf(ps), Lead(ps);
    PartsShow(ps);
    PartsSound(ps, m);
    forall i | 0 <= i <= |qs| ensures TurnGives(lead, qs, i, m, x) {
      var order := OthersFirst(lead, qs, i, m);
      assert IsOrder(order, m);
    }
    NoAccident(lead, qs, m, x);
    assert TurnGives(lead, qs, 0, m, x);
    RightToLeft(lead, qs, m);
    RestoreNone(lead, Backwards(qs), m);
  }

  lemma {:induction false} RestoreNone(s: string, order: seq<string>, m: Mapping)
    requires forall t | t in order :: t in m
    requires forall t | t in order :: t != "" && !Contains(s, t)
    ensures Restore(s, order, m) == s
    decreases |order|
  {
    if order != [] {
      assert order[0] in order && forall t | t in order[1..] :: t in order;
      ReplaceNone(s, order[0], m[order[0]]);
      RestoreNone(s, order[1..], m);
    }
  }

  /** Tokens that mask no part change nothing, so they may come first. */
  lemma OthersFirst(lead: string, qs: seq<Part>, i: nat, m: Mapping) returns (order: seq<string>)
    requires Sound(qs, m) && i <= |qs| && forall t :: t in m ==> !Contains(lead, t)
    ensures IsOrder(order, m) && (forall t | t in order :: t in m) && (forall t | t in Turn(qs, i) :: t in m)
    ensures Restore(lead + Shows(qs), order, m) == Restore(lead + Shows(qs), Turn(qs, i), m)
  {
    var turn := Turn(qs, i);
    TurnIn(qs, i, m);
    TurnOnce(qs, i, m);
    var others := OrderExists(m.Keys - Elements(turn));
    order := others + turn;
    forall k | 0 <= k < |others| ensures others[k] in m && others[k] !in Elements(turn) {
      assert others[k] in Elements(others);
    }
    assert forall k :: 0 <= k < |turn| ==> turn[k] in Elements(turn);
    assert Elements(order) == Elements(others) + Elements(turn);
    assert Unfold(0);
    forall t | t in others ensures t != "" && !Contains(lead + Shows(qs), t) {
      TokenInTurn(qs, i, m);
      NotShown(lead, qs, t, m);
    }
    RestoreAppend(lead + Shows(qs), others, turn, m);
    RestoreNone(lead + Shows(qs), others, m);
  }

  lemma {:induction false} TokenInTurn(qs: seq<Part>, i: nat, m: Mapping)
    requires i <= |qs|
    ensures forall k :: 0 <= k < |qs| ==> qs[k].token in Turn(qs, i)
    decreases |qs|
  {
    if qs != [] {
      TokenInTurn(qs[1..], if i == 0 then 0 else i - 1, m);
      forall k | 0 <= k < |qs| ensures qs[k].token in Turn(qs, i) {
        assert k > 0 ==> qs[k].token == qs[1..][k - 1].token;
      }
    }
  }

  lemma {:induction false} TurnOnce(qs: seq<Part>, i: nat, m: Mapping)
    requires Sound(qs, m) && i <= |qs|
    ensures Distinct(Turn(qs, i))
    decreases |qs|
  {
    if qs != [] {
      var rest, k := qs[1..], if i == 0 then 0 else i - 1;
      SoundFirst(qs, m);
      TurnOnce(rest, k, m);
      TurnIn(rest, k, m);
      var turn := Turn(rest, k);
      forall l | 0 <= l < |turn| ensures turn[l] != qs[0].token {
        assert turn[l] in turn;
      }
    }
  }
}
