/** Reversible masking: what one `ReplaceAll` pass per mapping entry does to a text whose
    sensitive parts were replaced by tokens, whatever order the entries come in. */
module Masking {
  import opened Sequences
  import opened Texts

  type Mapping = map<string, string>

  // ---------- restoring by successive passes ----------

  /** One `ReplaceAll` pass per entry, in the order the mapping happens to be iterated. */
  function Restore(s: string, order: seq<string>, m: Mapping): string
    requires forall t | t in order :: t in m
    decreases |order|
  {
    if order == [] then s
    else Restore(ReplaceAll(s, order[0], m[order[0]]), order[1..], m)
  }

  function Elements(order: seq<string>): set<string> {
    set t | t in order
  }

  predicate Distinct(order: seq<string>) {
    forall i, j :: 0 <= i < j < |order| ==> order[i] != order[j]
  }

  /** `order` visits every key of `m` once: a possible iteration of a Go map. */
  predicate IsOrder(order: seq<string>, m: Mapping) {
    Distinct(order) && Elements(order) == m.Keys
  }

  lemma OrderExists(keys: set<string>) returns (order: seq<string>)
    ensures Distinct(order) && Elements(order) == keys
  {
    if keys == {} {
      order := [];
    } else {
      var k :| k in keys;
      var rest := OrderExists(keys - {k});
      order := rest + [k];
      assert forall i :: 0 <= i < |rest| ==> rest[i] in Elements(rest);
      assert Elements(order) == Elements(rest) + {k};
    }
  }

  lemma {:induction false} RestoreAppend(s: string, a: seq<string>, b: seq<string>, m: Mapping)
    requires forall t | t in a + b :: t in m
    requires forall t | t in a :: t in m
    requires forall t | t in b :: t in m
    ensures Restore(s, a + b, m) == Restore(Restore(s, a, m), b, m)
    decreases |a|
  {
    if a == [] {
      assert a + b == b;
    } else {
      assert (a + b)[0] == a[0] && (a + b)[1..] == a[1..] + b;
      RestoreAppend(ReplaceAll(s, a[0], m[a[0]]), a[1..], b, m);
    }
  }

  /** Tokens of `T` are non-empty and can never share characters of a text. */
  ghost predicate TokenSet(T: set<string>) {
    (forall t :: t in T ==> t != "" && NoBorder(t, t)) &&
    (forall t, u :: t in T && u in T && t != u ==> Apart(t, u))
  }

  lemma TokensApart(T: set<string>, s: string, t: string, i: int, u: string, p: int)
    requires TokenSet(T) && t in T && u in T
    requires OccursAt(t, s, i) && OccursAt(u, s, p)
    ensures (i == p && t == u) || p + |u| <= i || i + |t| <= p
  {
    Overlap(s, t, i, u, p);
    assert t != u ==> Apart(t, u);
  }

  // ---------- texts cut into literals and masked parts ----------

  datatype Piece = Lit(text: string) | Tok(token: string, original: string)

  function Shown(p: Piece, restored: set<string>): string {
    match p
    case Lit(text) => text
    case Tok(token, original) => if token in restored then original else token
  }

  /** The text with the tokens in `restored` already put back. */
  function Render(ps: seq<Piece>, restored: set<string>): string {
    if ps == [] then "" else Shown(ps[0], restored) + Render(ps[1..], restored)
  }

  function Original(p: Piece): string {
    match p
    case Lit(text) => text
    case Tok(_, original) => original
  }

  /** The text before masking. */
  function Full(ps: seq<Piece>): string {
    if ps == [] then "" else Original(ps[0]) + Full(ps[1..])
  }

  ghost predicate MapsTo(ps: seq<Piece>, m: Mapping) {
    forall i :: 0 <= i < |ps| && ps[i].Tok? ==> ps[i].token in m && m[ps[i].token] == ps[i].original
  }

  lemma {:induction false} RenderAppend(a: seq<Piece>, b: seq<Piece>, R: set<string>)
    ensures Render(a + b, R) == Render(a, R) + Render(b, R)
  {
    if a == [] {
      assert a + b == b;
    } else {
      assert (a + b)[1..] == a[1..] + b;
      RenderAppend(a[1..], b, R);
    }
  }

  lemma {:induction false} FullAppend(a: seq<Piece>, b: seq<Piece>)
    ensures Full(a + b) == Full(a) + Full(b)
  {
    if a == [] {
      assert a + b == b;
    } else {
      assert (a + b)[1..] == a[1..] + b;
      FullAppend(a[1..], b);
    }
  }

  lemma RenderSplit(ps: seq<Piece>, R: set<string>, i: nat)
    requires i < |ps|
    ensures Render(ps, R) == Render(ps[..i], R) + Shown(ps[i], R) + Render(ps[i + 1..], R)
  {
    assert ps == ps[..i] + ps[i..];
    assert ps[i..][1..] == ps[i + 1..];
    RenderAppend(ps[..i], ps[i..], R);
    Assoc(Render(ps[..i], R), Shown(ps[i], R), Render(ps[i + 1..], R));
  }

  lemma FullSplit(ps: seq<Piece>, i: nat)
    requires i < |ps|
    ensures Full(ps) == Full(ps[..i]) + Original(ps[i]) + Full(ps[i + 1..])
  {
    assert ps == ps[..i] + ps[i..];
    assert ps[i..][1..] == ps[i + 1..];
    FullAppend(ps[..i], ps[i..]);
    Assoc(Full(ps[..i]), Original(ps[i]), Full(ps[i + 1..]));
  }

  lemma {:induction false} RenderAllIsFull(ps: seq<Piece>, R: set<string>)
    requires forall i :: 0 <= i < |ps| && ps[i].Tok? ==> ps[i].token in R
    ensures Render(ps, R) == Full(ps)
  {
    if ps != [] {
      RenderAllIsFull(ps[1..], R);
    }
  }

  lemma {:induction false} RenderIgnores(ps: seq<Piece>, R: set<string>, t: string)
    requires forall i :: 0 <= i < |ps| && ps[i].Tok? ==> ps[i].token != t
    ensures Render(ps, R) == Render(ps, R + {t})
  {
    if ps != [] {
      RenderIgnores(ps[1..], R, t);
    }
  }

  /** Index of the first piece masked by `t`, or the number of pieces. */
  function First(ps: seq<Piece>, t: string): (i: nat)
    ensures i <= |ps|
    ensures i < |ps| ==> ps[i].Tok? && ps[i].token == t
    ensures forall k :: 0 <= k < i && ps[k].Tok? ==> ps[k].token != t
  {
    if ps == [] || (ps[0].Tok? && ps[0].token == t) then 0 else 1 + First(ps[1..], t)
  }

  /** With `R` restored, `t` shows only where a piece is masked by it. */
  ghost predicate Clear(ps: seq<Piece>, R: set<string>, t: string)
    decreases |ps|
  {
    var i := First(ps, t);
    !Contains(Render(ps[..i], R), t) && (i < |ps| ==> Clear(ps[i + 1..], R, t))
  }

  /** One pass puts back exactly the parts masked by `t`. */
  lemma {:induction false} Pass(ps: seq<Piece>, R: set<string>, t: string, o: string)
    requires t != "" && NoBorder(t, t) && t !in R && Clear(ps, R, t)
    requires forall i :: 0 <= i < |ps| && ps[i].Tok? && ps[i].token == t ==> ps[i].original == o
    ensures ReplaceAll(Render(ps, R), t, o) == Render(ps, R + {t})
    decreases |ps|
  {
    var i := First(ps, t);
    var a := Render(ps[..i], R);
    RenderIgnores(ps[..i], R, t);
    if i == |ps| {
      assert ps[..i] == ps;
      ReplaceNone(a, t, o);
    } else {
      PassFirst(ps, R, t, o);
      RenderSplit(ps, R + {t}, i);
      Pass(ps[i + 1..], R, t, o);
    }
  }

  lemma PassFirst(ps: seq<Piece>, R: set<string>, t: string, o: string)
    requires t != "" && NoBorder(t, t) && t !in R && Clear(ps, R, t) && First(ps, t) < |ps|
    ensures var i := First(ps, t);
      ReplaceAll(Render(ps, R), t, o) == Render(ps[..i], R) + o + ReplaceAll(Render(ps[i + 1..], R), t, o)
  {
    var i := First(ps, t);
    var a, b := Render(ps[..i], R), Render(ps[i + 1..], R);
    assert !Contains(a, t);
    assert Render(ps, R) == a + t + b by { RenderSplit(ps, R, i); }
    ReplaceShown(a, t, b, o);
  }

  lemma ReplaceShown(a: string, t: string, b: string, o: string)
    requires t != "" && NoBorder(t, t) && !Contains(a, t)
    ensures ReplaceAll(a + t + b, t, o) == a + o + ReplaceAll(b, t, o)
  {
    FirstShowsAt(a, t, b);
    ReplaceFirst(a, t, b, o);
  }

  lemma FirstShowsAt(a: string, t: string, b: string)
    requires t != "" && NoBorder(t, t) && !Contains(a, t)
    ensures forall q :: 0 <= q < |a| ==> !OccursAt(t, a + t + b, q)
  {
    var s := a + t + b;
    assert s[0..|a|] == a;
    if q :| 0 <= q < |a| && OccursAt(t, s, q) {
      SelfStraddle(a, b, t, q);
      OccursInside(t, s, q, 0, |a|);
    }
  }

  ghost predicate AlwaysClear(ps: seq<Piece>, T: set<string>) {
    forall t, R: set<string> :: t in T && t !in R ==> Clear(ps, R, t)
  }

  /** All passes together, in any order, put back everything. */
  lemma {:induction false} RestorePasses(ps: seq<Piece>, order: seq<string>, m: Mapping, R: set<string>)
    requires TokenSet(m.Keys) && MapsTo(ps, m) && AlwaysClear(ps, m.Keys)
    requires Distinct(order) && forall t | t in order :: t in m && t !in R
    ensures Restore(Render(ps, R), order, m) == Render(ps, R + Elements(order))
    decreases |order|
  {
    if order == [] {
      assert R + Elements(order) == R;
    } else {
      var t := order[0];
      assert Clear(ps, R, t);
      Pass(ps, R, t, m[t]);
      assert forall u | u in order[1..] :: u in order && u != t;
      RestorePasses(ps, order[1..], m, R + {t});
      assert R + {t} + Elements(order[1..]) == R + Elements(order);
    }
  }

  lemma RestoresInAnyOrder(ps: seq<Piece>, order: seq<string>, m: Mapping)
    requires TokenSet(m.Keys) && MapsTo(ps, m) && AlwaysClear(ps, m.Keys) && IsOrder(order, m)
    ensures Restore(Render(ps, {}), order, m) == Full(ps)
  {
    assert forall t | t in order :: t in Elements(order);
    RestorePasses(ps, order, m, {});
    RenderAllIsFull(ps, {} + Elements(order));
  }

  // ---------- first reason for clearness: the text held no token before masking ----------

  /** Putting fragments back can only uncover tokens that the text itself contained. */
  lemma {:induction false} RunHidden(x: string, ps: seq<Piece>, R: set<string>, t: string)
    requires forall i :: 0 <= i < |ps| && ps[i].Tok? && ps[i].token !in R ==> Apart(ps[i].token, t)
    requires Contains(x + Render(ps, R), t)
    ensures Contains(x + Full(ps), t)
    decreases |ps|
  {
    if ps != [] {
      var rest, y, w := ps[1..], Original(ps[0]), Shown(ps[0], R);
      Assoc(x, y, Full(rest));
      Assoc(x, w, Render(rest, R));
      if w == y {
        RunHidden(x + y, rest, R, t);
      } else {
        var p :| OccursAt(t, x + w + Render(rest, R), p);
        Straddle(x, w, Render(rest, R), t, p);
        if p + |t| <= |x| {
          OccursLeft(t, x, Full(ps));
        } else {
          Unit(Render(rest, R));
          Unit(Full(rest));
          RunHidden("", rest, R, t);
          OccursRight(t, x + y, Full(rest));
        }
      }
    }
  }

  lemma {:induction false} ClearWhenAbsent(ps: seq<Piece>, R: set<string>, t: string, T: set<string>)
    requires TokenSet(T) && t in T && t !in R
    requires forall i :: 0 <= i < |ps| && ps[i].Tok? ==> ps[i].token in T
    requires !Contains(Full(ps), t)
    ensures Clear(ps, R, t)
    decreases |ps|
  {
    var i := First(ps, t);
    var run := ps[..i];
    assert ps == run + ps[i..];
    FullAppend(run, ps[i..]);
    Unit(Full(run));
    Unit(Render(run, R));
    if Contains(Render(run, R), t) {
      RunHidden("", run, R, t);
      OccursLeft(t, Full(run), Full(ps[i..]));
    }
    if i < |ps| {
      FullSplit(ps, i);
      if Contains(Full(ps[i + 1..]), t) {
        OccursRight(t, Full(run) + Original(ps[i]), Full(ps[i + 1..]));
      }
      ClearWhenAbsent(ps[i + 1..], R, t, T);
    }
  }

  /** A text that held none of the tokens comes back whatever order the passes run in. */
  lemma RoundTrip(ps: seq<Piece>, order: seq<string>, m: Mapping)
    requires TokenSet(m.Keys) && MapsTo(ps, m) && IsOrder(order, m)
    requires forall t :: t in m ==> !Contains(Full(ps), t)
    ensures Restore(Render(ps, {}), order, m) == Full(ps)
  {
    forall t, R: set<string> | t in m.Keys && t !in R
      ensures Clear(ps, R, t)
    {
      ClearWhenAbsent(ps, R, t, m.Keys);
    }
    RestoresInAnyOrder(ps, order, m);
  }

  /** After the pass for `t` no `t` is left, so a text that held one cannot come back. */
  lemma {:induction false} PassErases(x: string, s: string, t: string, o: string)
    requires t != "" && Apart(o, t)
    requires forall q :: 0 <= q < |x| ==> !OccursAt(t, x + s, q)
    ensures !Contains(x + ReplaceAll(s, t, o), t)
    decreases |s|
  {
    NoneStarts(x, s, t);
    if |s| < |t| {
    } else if s[..|t|] == t {
      var r := ReplaceAll(s[|t|..], t, o);
      PassErases("", s[|t|..], t, o);
      Unit(r);
      NoneAcross(x, o, r, t);
      Assoc(x, o, r);
    } else {
      assert s == [s[0]] + s[1..];
      Assoc(x, [s[0]], s[1..]);
      PassErases(x + [s[0]], s[1..], t, o);
      Assoc(x, [s[0]], ReplaceAll(s[1..], t, o));
    }
  }

  /** A string that is not there, and can share no character with what is put in, does not appear. */
  lemma {:induction false} ReplaceKeepsOut(x: string, s: string, q: string, n: string, w: string)
    requires q != "" && w != "" && Apart(n, w) && !Contains(x + s, w)
    ensures !Contains(x + ReplaceAll(s, q, n), w)
    decreases |s|
  {
    if |s| < |q| {
    } else if s[..|q|] == q {
      var r := ReplaceAll(s[|q|..], q, n);
      assert x + s == (x + s[..|q|]) + s[|q|..];
      NotInParts(x + s[..|q|], s[|q|..], w);
      NotInParts(x, s, w);
      Unit(s[|q|..]);
      ReplaceKeepsOut("", s[|q|..], q, n, w);
      Unit(r);
      NoneAcross(x, n, r, w);
      Assoc(x, n, r);
    } else {
      assert s == [s[0]] + s[1..];
      Assoc(x, [s[0]], s[1..]);
      ReplaceKeepsOut(x + [s[0]], s[1..], q, n, w);
      Assoc(x, [s[0]], ReplaceAll(s[1..], q, n));
    }
  }

  lemma NotInParts(a: string, b: string, w: string)
    requires !Contains(a + b, w)
    ensures !Contains(a, w) && !Contains(b, w)
  {
    if Contains(a, w) {
      OccursLeft(w, a, b);
    }
    if Contains(b, w) {
      OccursRight(w, a, b);
    }
  }

  lemma NoneAcross(a: string, w: string, b: string, t: string)
    requires Apart(w, t) && !Contains(a, t) && !Contains(b, t)
    ensures !Contains(a + w + b, t)
  {
    if p :| OccursAt(t, a + w + b, p) {
      Straddle(a, w, b, t, p);
    }
  }

  /** The proviso of the round trip is exact: with every original apart from its own token,
      all orders bring the text back if and only if it held none of the tokens. */
  lemma RoundTripExact(ps: seq<Piece>, m: Mapping)
    requires TokenSet(m.Keys) && MapsTo(ps, m)
    requires forall t :: t in m ==> Apart(m[t], t)
    ensures (forall order :: IsOrder(order, m) ==> Restore(Render(ps, {}), order, m) == Full(ps))
       <==> (forall t :: t in m ==> !Contains(Full(ps), t))
  {
    if forall t :: t in m ==> !Contains(Full(ps), t) {
      forall order | IsOrder(order, m) ensures Restore(Render(ps, {}), order, m) == Full(ps) {
        RoundTrip(ps, order, m);
      }
    } else {
      var t :| t in m && Contains(Full(ps), t);
      var order := TokenLastFails(Render(ps, {}), Full(ps), t, m);
      assert IsOrder(order, m) && Restore(Render(ps, {}), order, m) != Full(ps);
    }
  }

  lemma TokenLastFails(s: string, text: string, t: string, m: Mapping) returns (order: seq<string>)
    requires TokenSet(m.Keys) && t in m && Apart(m[t], t) && Contains(text, t)
    ensures IsOrder(order, m) && Restore(s, order, m) != text
  {
    var others := OrderExists(m.Keys - {t});
    assert forall i :: 0 <= i < |others| ==> others[i] in Elements(others);
    order := others + [t];
    assert Elements(order) == Elements(others) + {t};
    RestoreAppend(s, others, [t], m);
    var s' := Restore(s, others, m);
    assert [t][1..] == [];
    assert Restore(s', [t], m) == ReplaceAll(s', t, m[t]);
    PassErases("", s', t, m[t]);
    Unit(ReplaceAll(s', t, m[t]));
  }

  // ---------- second reason: originals and tokens cannot share characters ----------

  /** Tokens and originals that can never overlap: any text can be restored. */
  ghost predicate WellFormed(m: Mapping) {
    TokenSet(m.Keys) && forall t, u :: t in m && u in m ==> Apart(m[u], t)
  }

  /** Left-to-right reading of an arbitrary text: tokens of `m` and single characters. */
  ghost function Parse(s: string, m: Mapping): seq<Piece> {
    if s == "" then []
    else if exists t :: t in m && t != "" && StartsWith(s, t) then
      var t :| t in m && t != "" && StartsWith(s, t);
      [Tok(t, m[t])] + Parse(s[|t|..], m)
    else [Lit([s[0]])] + Parse(s[1..], m)
  }

  /** Simultaneous substitution of originals for all tokens of `m` in `s`. */
  ghost function Unmask(s: string, m: Mapping): string {
    Full(Parse(s, m))
  }

  lemma ParseStep(s: string, m: Mapping) returns (p: Piece, rest: string)
    requires s != ""
    ensures Parse(s, m) == [p] + Parse(rest, m) && s == Shown(p, {}) + rest && |rest| < |s|
    ensures Parse(s, m)[1..] == Parse(rest, m)
    ensures p.Tok? ==> p.token in m && m[p.token] == p.original
  {
    p := Parse(s, m)[0];
    var k := |Shown(p, {})|;
    rest := s[k..];
    assert s[..k] == Shown(p, {});
    assert s == s[..k] + s[k..];
  }

  lemma {:induction false} ParseRenders(s: string, m: Mapping)
    ensures Render(Parse(s, m), {}) == s
    ensures MapsTo(Parse(s, m), m)
    decreases |s|
  {
    if s != "" {
      var p, rest := ParseStep(s, m);
      ParseRenders(rest, m);
    }
  }

  /** No run of literal characters, taken between masked pieces, contains `t`. */
  ghost predicate RunsFree(x: string, ps: seq<Piece>, t: string)
    decreases |ps|
  {
    if ps == [] then !Contains(x, t)
    else match ps[0]
      case Lit(text) => RunsFree(x + text, ps[1..], t)
      case Tok(_, _) => !Contains(x, t) && RunsFree("", ps[1..], t)
  }

  lemma {:induction false} ParseRunsFree(x: string, s: string, m: Mapping, t: string)
    requires t in m && t != ""
    requires forall q :: 0 <= q < |x| ==> !OccursAt(t, x + s, q)
    ensures RunsFree(x, Parse(s, m), t)
    decreases |s|
  {
    NoneStarts(x, s, t);
    if s != "" {
      var ps := Parse(s, m);
      if ps[0].Tok? {
        ParseRunsFree("", s[|ps[0].token|..], m, t);
      } else {
        assert s == [s[0]] + s[1..];
        Assoc(x, [s[0]], s[1..]);
        ParseRunsFree(x + [s[0]], s[1..], m, t);
      }
    }
  }

  lemma {:induction false} RunsFreeHidden(x: string, ps: seq<Piece>, R: set<string>, t: string)
    requires RunsFree(x, ps, t)
    requires forall i :: 0 <= i < |ps| && ps[i].Tok? ==> Apart(ps[i].token, t) && Apart(ps[i].original, t)
    ensures !Contains(x + Render(ps, R), t)
    decreases |ps|
  {
    if ps == [] {
      Unit(x);
    } else {
      var rest := ps[1..];
      if ps[0].Lit? {
        RunsFreeHidden(x + ps[0].text, rest, R, t);
        Assoc(x, ps[0].text, Render(rest, R));
      } else {
        RunsFreeHidden("", rest, R, t);
        Unit(Render(rest, R));
        NoneAcross(x, Shown(ps[0], R), Render(rest, R), t);
        Assoc(x, Shown(ps[0], R), Render(rest, R));
      }
    }
  }

  lemma {:induction false} RunsFreeSplit(x: string, ps: seq<Piece>, t: string, i: nat)
    requires RunsFree(x, ps, t) && i <= |ps| && (i < |ps| ==> ps[i].Tok?)
    ensures RunsFree(x, ps[..i], t)
    ensures i < |ps| ==> RunsFree("", ps[i + 1..], t)
    decreases |ps|
  {
    if i == 0 {
    } else {
      assert ps[..i][1..] == ps[1..][..i - 1];
      assert i < |ps| ==> ps[1..][i..] == ps[i + 1..];
      RunsFreeSplit(if ps[0].Lit? then x + ps[0].text else "", ps[1..], t, i - 1);
    }
  }

  lemma {:induction false} ClearWhenApart(ps: seq<Piece>, R: set<string>, t: string, m: Mapping)
    requires WellFormed(m) && MapsTo(ps, m) && t in m && RunsFree("", ps, t)
    ensures Clear(ps, R, t)
    decreases |ps|
  {
    var i := First(ps, t);
    RunsFreeSplit("", ps, t, i);
    RunsFreeHidden("", ps[..i], R, t);
    Unit(Render(ps[..i], R));
    if i < |ps| {
      ClearWhenApart(ps[i + 1..], R, t, m);
    }
  }

  /** For an arbitrary body, any order of passes is the simultaneous substitution. */
  lemma RestoreIsUnmask(s: string, order: seq<string>, m: Mapping)
    requires WellFormed(m) && IsOrder(order, m)
    ensures forall t | t in order :: t in m
    ensures Restore(s, order, m) == Unmask(s, m)
  {
    assert forall t | t in order :: t in Elements(order);
    var ps := Parse(s, m);
    ParseRenders(s, m);
    forall t, R: set<string> | t in m.Keys && t !in R
      ensures Clear(ps, R, t)
    {
      ParseRunsFree("", s, m, t);
      ClearWhenApart(ps, R, t, m);
    }
    RestoresInAnyOrder(ps, order, m);
  }

  // ---------- restoring a body chunk by chunk ----------

  lemma UnmaskToken(t: string, b: string, m: Mapping)
    requires TokenSet(m.Keys) && t in m
    ensures Unmask(t + b, m) == m[t] + Unmask(b, m)
  {
    var s := t + b;
    assert StartsWith(s, t) && s[|t|..] == b;
    var ps := Parse(s, m);
    var u := ps[0].token;
    assert OccursAt(u, s, 0) by { assert s[0..|u|] == s[..|u|]; }
    assert OccursAt(t, s, 0) by { assert s[0..|t|] == s[..|t|]; }
    TokensApart(m.Keys, s, t, 0, u, 0);
    assert ps[1..] == Parse(b, m);
  }

  lemma {:induction false} UnmaskPlain(a: string, b: string, m: Mapping)
    requires forall t, q :: t in m && 0 <= q < |a| ==> !OccursAt(t, a + b, q)
    ensures Unmask(a + b, m) == a + Unmask(b, m)
    decreases |a|
  {
    if a == "" {
      Unit(b);
      Unit(Unmask(b, m));
    } else {
      var c, a' := [a[0]], a[1..];
      assert a == c + a';
      Assoc(c, a', b);
      forall t, q | t in m && 0 <= q < |a'| ensures !OccursAt(t, a' + b, q) {
        assert (a + b)[1..] == a' + b;
        OccursTail(t, a + b, q);
      }
      UnmaskPlain(a', b, m);
      UnmaskChar(a[0], a' + b, m);
      Assoc(c, a', Unmask(b, m));
    }
  }

  lemma UnmaskChar(c: char, s: string, m: Mapping)
    requires forall t :: t in m ==> !OccursAt(t, [c] + s, 0)
    ensures Unmask([c] + s, m) == [c] + Unmask(s, m)
  {
    var cs := [c] + s;
    forall t | t in m ensures !StartsWith(cs, t) {
      assert |t| <= |cs| ==> cs[0..|t|] == cs[..|t|];
    }
    assert cs[1..] == s && Parse(cs, m)[1..] == Parse(s, m);
  }

  /** A token of `m` lies across position `k` of `s`. */
  ghost predicate Straddles(s: string, k: int, m: Mapping) {
    exists t, p :: t in m && OccursAt(t, s, p) && p < k < p + |t|
  }

  lemma {:induction false} UnmaskSplit(a: string, b: string, m: Mapping)
    requires TokenSet(m.Keys) && !Straddles(a + b, |a|, m)
    ensures Unmask(a + b, m) == Unmask(a, m) + Unmask(b, m)
    decreases |a|
  {
    if a == "" {
      Unit(b);
      Unit(Unmask(b, m));
    } else if t :| t in m && OccursAt(t, a + b, 0) {
      assert |t| <= |a|;
      assert (a + b)[0..|t|] == t == a[..|t|];
      var a' := a[|t|..];
      assert a == t + a';
      Assoc(t, a', b);
      StraddlesTail(t, a', b, m);
      UnmaskSplit(a', b, m);
      UnmaskToken(t, a' + b, m);
      UnmaskToken(t, a', m);
      Assoc(m[t], Unmask(a', m), Unmask(b, m));
    } else {
      var c, a' := [a[0]], a[1..];
      assert a == c + a';
      Assoc(c, a', b);
      UnmaskPlain(c, a' + b, m);
      forall t | t in m ensures !OccursAt(t, c + a', 0) {
        assert !OccursAt(t, a + b, 0);
        assert |t| <= |a| ==> (a + b)[0..|t|] == a[0..|t|];
      }
      UnmaskPlain(c, a', m);
      StraddlesTail(c, a', b, m);
      UnmaskSplit(a', b, m);
      Assoc(c, Unmask(a', m), Unmask(b, m));
    }
  }

  lemma StraddlesTail(x: string, a: string, b: string, m: Mapping)
    ensures Straddles(a + b, |a|, m) ==> Straddles(x + a + b, |x + a|, m)
  {
    if Straddles(a + b, |a|, m) {
      var u, p :| u in m && OccursAt(u, a + b, p) && p < |a| < p + |u|;
      Assoc(x, a, b);
      assert (x + (a + b))[|x| + p..|x| + p + |u|] == (a + b)[p..p + |u|];
      assert OccursAt(u, x + a + b, |x| + p);
    }
  }

  function Flat(cs: seq<string>): string {
    if cs == [] then "" else cs[0] + Flat(cs[1..])
  }

  /** Output of a writer that restores every chunk by itself. */
  ghost function UnmaskEach(cs: seq<string>, m: Mapping): string {
    if cs == [] then "" else Unmask(cs[0], m) + UnmaskEach(cs[1..], m)
  }

  /** Some token of `m` is cut by a chunk boundary. */
  ghost predicate Cuts(cs: seq<string>, m: Mapping) {
    exists i :: 0 <= i <= |cs| && Straddles(Flat(cs), |Flat(cs[..i])|, m)
  }

  lemma FlatPrefix(cs: seq<string>, i: nat)
    requires i < |cs|
    ensures |Flat(cs[..i + 1])| == |cs[0]| + |Flat(cs[1..][..i])|
  {
    assert cs[..i + 1][1..] == cs[1..][..i];
  }

  /** Boundaries after the first chunk are those of the remaining chunks. */
  lemma CutsTail(cs: seq<string>, m: Mapping)
    requires cs != [] && !Straddles(Flat(cs), |cs[0]|, m)
    ensures Cuts(cs, m) <==> Cuts(cs[1..], m)
  {
    if i :| 0 <= i <= |cs[1..]| && Straddles(Flat(cs[1..]), |Flat(cs[1..][..i])|, m) {
      FlatPrefix(cs, i);
      StraddlesShift(cs[0], Flat(cs[1..]), |Flat(cs[1..][..i])|, m);
      assert Straddles(Flat(cs), |Flat(cs[..i + 1])|, m);
    }
    if i :| 0 <= i <= |cs| && Straddles(Flat(cs), |Flat(cs[..i])|, m) {
      assert i > 0;
      FlatPrefix(cs, i - 1);
      StraddlesShift(cs[0], Flat(cs[1..]), |Flat(cs[1..][..i - 1])|, m);
    }
  }

  /** Without a token across the first boundary, later boundaries can be seen from behind it. */
  lemma StraddlesShift(a: string, b: string, k: nat, m: Mapping)
    requires !Straddles(a + b, |a|, m)
    ensures Straddles(b, k, m) <==> Straddles(a + b, |a| + k, m)
  {
    if t, p :| t in m && OccursAt(t, b, p) && p < k < p + |t| {
      assert (a + b)[|a| + p..|a| + p + |t|] == b[p..p + |t|];
      assert OccursAt(t, a + b, |a| + p);
    }
    if t, p :| t in m && OccursAt(t, a + b, p) && p < |a| + k < p + |t| {
      assert p >= |a|;
      assert (a + b)[p..p + |t|] == b[p - |a|..p - |a| + |t|];
      assert OccursAt(t, b, p - |a|);
    }
  }

  /** What is left of a token that was cut is copied through unchanged. */
  lemma {:induction false} TailStays(cs: seq<string>, t: string, j: int, m: Mapping)
    requires TokenSet(m.Keys) && t in m && 0 < j <= |t| && StartsWith(Flat(cs), t[j..])
    ensures StartsWith(UnmaskEach(cs, m), t[j..])
    decreases |cs|
  {
    if cs != [] && j < |t| {
      var c, w, r := cs[0], t[j..], Flat(cs[1..]);
      var k := if |c| < |w| then |c| else |w|;
      var v, z := t[j..j + k], c[k..];
      HeadTail(c, r, w, k);
      assert v == w[..k] && t[j + k..] == w[k..];
      forall u, q | u in m && 0 <= q < |v| ensures !OccursAt(u, v + z, q) {
        InsideToken(t, j, k, z, u, q, m);
      }
      UnmaskPlain(v, z, m);
      if k < |w| {
        TailStays(cs[1..], t, j + k, m);
      }
      HeadGrows(w, k, v + Unmask(z, m), UnmaskEach(cs[1..], m));
    }
  }

  /** The first chunk takes the first `k` characters of `w`, the rest of the body the others. */
  lemma HeadTail(c: string, r: string, w: string, k: nat)
    requires StartsWith(c + r, w) && k == if |c| < |w| then |c| else |w|
    ensures c == w[..k] + c[k..] && StartsWith(r, w[k..])
    ensures k < |w| ==> c[k..] == ""
  {
    assert forall i :: 0 <= i < |w| ==> w[i] == (c + r)[i];
    assert c[..k] == w[..k];
    assert r[..|w| - k] == w[k..];
  }

  lemma HeadGrows(w: string, k: nat, a: string, b: string)
    requires k <= |w| && StartsWith(a, w[..k]) && (k < |w| ==> a == w[..k] && StartsWith(b, w[k..]))
    ensures StartsWith(a + b, w)
  {
    if k == |w| {
      assert w[..k] == w && (a + b)[..|w|] == a[..|w|];
    } else {
      assert w[..k] + w[k..] == w;
      assert (a + b)[..|w|] == a + b[..|w| - k];
    }
  }

  /** No token starts strictly inside another one. */
  lemma InsideToken(t: string, j: int, k: int, z: string, u: string, q: int, m: Mapping)
    requires TokenSet(m.Keys) && t in m && u in m && 0 < j && 0 <= q < k && j + k <= |t|
    requires j + k < |t| ==> z == ""
    ensures !OccursAt(u, t[j..j + k] + z, q)
  {
    var s := t + z;
    assert t[j..j + k] + z == s[j..j + k + |z|];
    assert OccursAt(t, s, 0) by { assert s[0..|t|] == t; }
    if OccursAt(u, t[j..j + k] + z, q) {
      Slice(s, j, j + k + |z|, q, q + |u|);
      assert OccursAt(u, s, j + q);
      TokensApart(m.Keys, s, t, 0, u, j + q);
    }
  }

  /** A token cut by the first boundary is restored in the whole body ... */
  lemma WholeRestores(x: string, t: string, y: string, m: Mapping)
    requires TokenSet(m.Keys) && t in m
    ensures StartsWith(Unmask(x + (t + y), m), Unmask(x, m) + m[t])
  {
    NotStraddled(x, t, y, m);
    UnmaskSplit(x, t + y, m);
    UnmaskToken(t, y, m);
    Assoc(Unmask(x, m), m[t], Unmask(y, m));
  }

  /** ... but shows up unrestored when every chunk is restored by itself. */
  lemma CutShows(cs: seq<string>, m: Mapping, x: string, t: string, y: string)
    requires TokenSet(m.Keys) && cs != [] && t in m
    requires Flat(cs) == x + (t + y) && |x| < |cs[0]| < |x| + |t|
    ensures StartsWith(UnmaskEach(cs, m), Unmask(x, m) + t)
  {
    var c, e := cs[0], UnmaskEach(cs[1..], m);
    var j := |c| - |x|;
    CutAt(c, Flat(cs[1..]), x, t, y);
    CutPrefixStays(x, t, j, y, m);
    assert UnmaskEach(cs, m) == Unmask(x, m) + t[..j] + e;
    TailStays(cs[1..], t, j, m);
    Rejoin(Unmask(x, m), t, j, e);
  }

  /** A boundary inside a token leaves its two parts on either side. */
  lemma CutAt(c: string, r: string, x: string, t: string, y: string)
    requires c + r == x + (t + y) && |x| < |c| < |x| + |t|
    ensures c == x + t[..|c| - |x|]
    ensures StartsWith(r, t[|c| - |x|..])
  {
    var s, j := x + (t + y), |c| - |x|;
    assert c == s[..|c|] && r == s[|c|..];
    assert forall k :: 0 <= k < |t| ==> s[|x| + k] == t[k];
    assert r[..|t| - j] == t[j..];
  }

  lemma Rejoin(u: string, t: string, j: nat, e: string)
    requires j <= |t| && StartsWith(e, t[j..])
    ensures StartsWith(u + t[..j] + e, u + t)
  {
    var z := e[|t| - j..];
    assert e == t[j..] + z && t[..j] + t[j..] == t;
    assert u + t[..j] + (t[j..] + z) == u + t + z;
  }

  lemma NotStraddled(x: string, t: string, y: string, m: Mapping)
    requires TokenSet(m.Keys) && t in m
    ensures !Straddles(x + (t + y), |x|, m)
  {
    var s := x + (t + y);
    assert OccursAt(t, s, |x|) by { assert s[|x|..|x| + |t|] == t; }
    forall u, q | u in m && OccursAt(u, s, q) ensures !(q < |x| < q + |u|) {
      TokensApart(m.Keys, s, t, |x|, u, q);
    }
  }

  lemma CutPrefixStays(x: string, t: string, j: int, y: string, m: Mapping)
    requires TokenSet(m.Keys) && t in m && 0 < j < |t|
    ensures Unmask(x + t[..j], m) == Unmask(x, m) + t[..j]
  {
    var s := x + (t + y);
    var n := |x| + j;
    var c := x + t[..j];
    assert s[0..n] == c;
    assert OccursAt(t, s, |x|) by { assert s[|x|..|x| + |t|] == t; }
    forall u, q | u in m && OccursAt(u, c, q) ensures q + |u| <= |x| {
      Slice(s, 0, n, q, q + |u|);
      assert OccursAt(u, s, q);
      TokensApart(m.Keys, s, t, |x|, u, q);
    }
    UnmaskSplit(x, t[..j], m);
    forall u, q | u in m && 0 <= q < j ensures !OccursAt(u, t[..j] + "", q) {
      if OccursAt(u, t[..j], q) {
        Slice(c, |x|, n, q, q + |u|);
        assert c[|x|..n] == t[..j];
        assert OccursAt(u, c, |x| + q);
      }
      assert t[..j] + "" == t[..j];
    }
    UnmaskPlain(t[..j], "", m);
    assert t[..j] + "" == t[..j] && Unmask("", m) == "";
  }

  lemma PrefixesMeet(u: string, a: string, b: string, s: string)
    requires StartsWith(s, u + a) && StartsWith(s, u + b)
    ensures Contains(a, b) || Contains(b, a)
  {
    var r := s[|u|..];
    assert r[..|a|] == (u + a)[|u|..] == a;
    assert r[..|b|] == (u + b)[|u|..] == b;
    if |a| <= |b| {
      assert b[0..|a|] == a;
      assert OccursAt(a, b, 0);
    } else {
      assert a[0..|b|] == b;
      assert OccursAt(b, a, 0);
    }
  }

  lemma CutsFirst(cs: seq<string>, m: Mapping)
    requires cs != [] && Straddles(Flat(cs), |cs[0]|, m)
    ensures Cuts(cs, m)
  {
    FlatPrefix(cs, 0);
    assert Straddles(Flat(cs), |Flat(cs[..1])|, m);
  }

  lemma Cancel(u: string, a: string, b: string)
    ensures u + a == u + b <==> a == b
  {
    assert (u + a)[|u|..] == a && (u + b)[|u|..] == b;
  }

  lemma CutDiffers(cs: seq<string>, m: Mapping, t: string, p: int)
    requires WellFormed(m) && cs != [] && t in m
    requires OccursAt(t, Flat(cs), p) && p < |cs[0]| < p + |t|
    ensures UnmaskEach(cs, m) != Unmask(Flat(cs), m)
  {
    var s := Flat(cs);
    var x, y := s[..p], s[p + |t|..];
    assert s == x + (t + y);
    WholeRestores(x, t, y, m);
    CutShows(cs, m, x, t, y);
    assert Apart(m[t], t);
    if UnmaskEach(cs, m) == Unmask(s, m) {
      PrefixesMeet(Unmask(x, m), t, m[t], Unmask(s, m));
    }
  }

  /** Restoring chunk by chunk gives the restored body if and only if no boundary cuts a token. */
  lemma {:induction false} ChunksExact(cs: seq<string>, m: Mapping)
    requires WellFormed(m)
    ensures UnmaskEach(cs, m) == Unmask(Flat(cs), m) <==> !Cuts(cs, m)
    decreases |cs|
  {
    if cs == [] {
      assert Unmask("", m) == "";
    } else if Straddles(Flat(cs), |cs[0]|, m) {
      CutsFirst(cs, m);
      var t, p :| t in m && OccursAt(t, Flat(cs), p) && p < |cs[0]| < p + |t|;
      CutDiffers(cs, m, t, p);
    } else {
      CutsTail(cs, m);
      ChunksExact(cs[1..], m);
      UnmaskSplit(cs[0], Flat(cs[1..]), m);
      Cancel(Unmask(cs[0], m), UnmaskEach(cs[1..], m), Unmask(Flat(cs[1..]), m));
    }
  }
}
