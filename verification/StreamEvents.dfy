/** Streamed responses as they are written: one whole event per write. No token is ever cut by a
    write, but the model may spread a token over the text deltas of two events. */
module StreamEvents {
  import opened Sequences
  import opened Texts
  import opened Masking
  import opened Tokens
  import Sse

  /** No occurrence of `t` reaches across a place next to a character that `t` does not hold. */
  lemma Sealed(t: string, s: string, k: nat)
    requires k <= |s| && ((k > 0 && s[k - 1] !in t) || (k < |s| && s[k] !in t))
    ensures forall p :: OccursAt(t, s, p) ==> k <= p || p + |t| <= k
  {
    forall p | OccursAt(t, s, p) ensures k <= p || p + |t| <= k {
      assert forall j :: p <= j < p + |t| ==> s[j] == s[p..p + |t|][j - p];
    }
  }

  /** Writes that all end in a line feed never cut a token that holds none. */
  lemma WholeLinesUncut(cs: seq<string>, m: Mapping)
    requires forall i :: 0 <= i < |cs| ==> cs[i] != "" && cs[i][|cs[i]| - 1] == '\n'
    requires forall t :: t in m ==> '\n' !in t
    ensures !Cuts(cs, m)
  {
    var s := Flat(cs);
    forall i | 0 <= i <= |cs| ensures !Straddles(s, |Flat(cs[..i])|, m) {
      var k := |Flat(cs[..i])|;
      FlatBreak(cs, i);
      forall t | t in m && k > 0 ensures forall p :: OccursAt(t, s, p) ==> k <= p || p + |t| <= k {
        Sealed(t, s, k);
      }
    }
  }

  /** What lies right before a boundary is the end of the chunk before it. */
  lemma {:induction false} FlatBreak(cs: seq<string>, i: nat)
    requires i <= |cs| && forall j :: 0 <= j < |cs| ==> cs[j] != "" && cs[j][|cs[j]| - 1] == '\n'
    ensures var k := |Flat(cs[..i])|;
      k <= |Flat(cs)| && (k > 0 ==> Flat(cs)[k - 1] == '\n')
    decreases |cs|
  {
    if i > 0 {
      var rest := cs[1..];
      assert cs[..i][1..] == rest[..i - 1] && cs[..i][0] == cs[0];
      FlatBreak(rest, i - 1);
      var k := |Flat(rest[..i - 1])|;
      if k > 0 {
        assert Flat(cs)[|cs[0]| + k - 1] == Flat(rest)[k - 1];
      }
    }
  }

  /** So a printed stream, restored write by write, is restored as a whole. */
  lemma PrintedStreamRestored(texts: seq<string>, m: Mapping)
    requires WellFormed(m) && forall t :: t in m ==> '\n' !in t
    ensures UnmaskEach(Blocks(texts), m) == Unmask(Flat(Blocks(texts)), m)
  {
    var cs := Blocks(texts);
    forall i | 0 <= i < |cs| ensures cs[i] != "" && cs[i][|cs[i]| - 1] == '\n' {
      assert cs[i] == Sse.Block(texts[i]);
    }
    WholeLinesUncut(cs, m);
    ChunksExact(cs, m);
  }

  /** One write per event. */
  function Blocks(texts: seq<string>): (cs: seq<string>)
    ensures |cs| == |texts| && forall i :: 0 <= i < |cs| ==> cs[i] == Sse.Block(texts[i])
  {
    seq(|texts|, i requires 0 <= i < |texts| => Sse.Block(texts[i]))
  }

  // ---------- the tokens that are issued ----------

  const QUOTE: char := '"'

  predicate InLine(c: char) {
    c != '\n' && c != QUOTE
  }

  /** Tokens of both forms, with rule labels free of brackets, line feeds and quotes. */
  ghost predicate IssuedInLine(m: Mapping) {
    forall t :: t in m ==> IssuedWith(t, InLine)
  }

  lemma InLineTokens(m: Mapping)
    requires IssuedInLine(m)
    ensures TokenSet(m.Keys) && forall t :: t in m ==> Issued(t) && '\n' !in t && QUOTE !in t
  {
    forall t | t in m ensures Issued(t) && '\n' !in t && QUOTE !in t {
      IssuedChars(t, InLine);
    }
    IssuedTokenSet(m.Keys);
  }

  /** Whatever tokens a request issued: its streamed response, restored write by write, is restored as
      a whole, when no original can overlap a token. */
  lemma IssuedStreamRestored(texts: seq<string>, m: Mapping)
    requires IssuedInLine(m) && forall t, u :: t in m && u in m ==> Apart(m[u], t)
    ensures !Cuts(Blocks(texts), m) && UnmaskEach(Blocks(texts), m) == Unmask(Flat(Blocks(texts)), m)
  {
    InLineTokens(m);
    PrintedStreamRestored(texts, m);
    ChunksExact(Blocks(texts), m);
  }

  // ---------- text deltas inside events ----------

  /** A written event around the piece of answer text that it carries. */
  datatype Event = Event(pre: string, delta: string, post: string)

  function Written(e: Event): string {
    e.pre + e.delta + e.post
  }

  /** The text is enclosed by characters that no token holds, as JSON quotes are, and the frame
      holds no token. */
  ghost predicate Framed(e: Event, m: Mapping) {
    e.pre != "" && e.post != "" &&
    forall t :: t in m ==>
      e.pre[|e.pre| - 1] !in t && e.post[0] !in t && !Contains(e.pre, t) && !Contains(e.post, t)
  }

  lemma NoneInside(s: string, m: Mapping)
    requires forall t :: t in m ==> !Contains(s, t)
    ensures Unmask(s, m) == s
  {
    forall t, q | t in m && 0 <= q < |s| ensures !OccursAt(t, s + "", q) {
      Unit(s);
      if OccursAt(t, s, q) {
        assert Contains(s, t);
      }
    }
    UnmaskPlain(s, "", m);
    Unit(s);
  }

  /** No token reaches across a character that it does not hold. */
  lemma SealedLeft(a: string, b: string, m: Mapping)
    requires a != "" && forall t :: t in m ==> a[|a| - 1] !in t
    ensures !Straddles(a + b, |a|, m)
  {
    forall t | t in m ensures forall p :: OccursAt(t, a + b, p) ==> |a| <= p || p + |t| <= |a| {
      Sealed(t, a + b, |a|);
    }
  }

  lemma SealedRight(a: string, b: string, m: Mapping)
    requires b != "" && forall t :: t in m ==> b[0] !in t
    ensures !Straddles(a + b, |a|, m)
  {
    forall t | t in m ensures forall p :: OccursAt(t, a + b, p) ==> |a| <= p || p + |t| <= |a| {
      Sealed(t, a + b, |a|);
    }
  }

  /** Restoring a written event restores its text and leaves the frame alone. */
  lemma EventRestored(e: Event, m: Mapping)
    requires TokenSet(m.Keys) && Framed(e, m)
    ensures Unmask(Written(e), m) == Written(e.(delta := Unmask(e.delta, m)))
  {
    Assoc(e.pre, e.delta, e.post);
    SealedLeft(e.pre, e.delta + e.post, m);
    UnmaskSplit(e.pre, e.delta + e.post, m);
    SealedRight(e.delta, e.post, m);
    UnmaskSplit(e.delta, e.post, m);
    NoneInside(e.pre, m);
    NoneInside(e.post, m);
    Assoc(e.pre, Unmask(e.delta, m), e.post);
  }

  function Writes(es: seq<Event>): seq<string> {
    if es == [] then [] else [Written(es[0])] + Writes(es[1..])
  }

  function Deltas(es: seq<Event>): seq<string> {
    if es == [] then [] else [es[0].delta] + Deltas(es[1..])
  }

  /** The events with the text of each restored by itself. */
  ghost function Restored(es: seq<Event>, m: Mapping): seq<Event> {
    if es == [] then [] else [es[0].(delta := Unmask(es[0].delta, m))] + Restored(es[1..], m)
  }

  /** What the streaming writer sends: the same events, the text of each restored by itself. */
  lemma {:induction false} EventsRestored(es: seq<Event>, m: Mapping)
    requires TokenSet(m.Keys) && forall i :: 0 <= i < |es| ==> Framed(es[i], m)
    ensures UnmaskEach(Writes(es), m) == Flat(Writes(Restored(es, m)))
    ensures UnmaskEach(Deltas(es), m) == Flat(Deltas(Restored(es, m)))
    decreases |es|
  {
    if es != [] {
      EventsRestored(es[1..], m);
      EventRestored(es[0], m);
      WritesCons(es);
      WritesCons(Restored(es, m));
      assert Restored(es, m)[1..] == Restored(es[1..], m);
    }
  }

  lemma WritesCons(es: seq<Event>)
    requires es != []
    ensures Writes(es)[1..] == Writes(es[1..]) && Writes(es)[0] == Written(es[0])
    ensures Deltas(es)[1..] == Deltas(es[1..]) && Deltas(es)[0] == es[0].delta
  {
  }

  /** The client puts the deltas together again. What it gets is the restored answer if and only if
      no token was spread over two deltas. */
  lemma DeltasExact(es: seq<Event>, m: Mapping)
    requires WellFormed(m) && forall i :: 0 <= i < |es| ==> Framed(es[i], m)
    ensures UnmaskEach(Writes(es), m) == Flat(Writes(Restored(es, m)))
    ensures Flat(Deltas(Restored(es, m))) == Unmask(Flat(Deltas(es)), m) <==> !Cuts(Deltas(es), m)
  {
    EventsRestored(es, m);
    ChunksExact(Deltas(es), m);
  }

  /** No bracket that opens a token, which is one followed by an 'M' or by another bracket. */
  predicate PlainFrame(x: string) {
    forall i :: 0 <= i < |x| - 1 && x[i] == '[' ==> x[i + 1] != 'M' && x[i + 1] != '['
  }

  /** The text stands between quotes, in a frame where no token opens. */
  predicate Enclosed(e: Event) {
    e.pre != "" && e.pre[|e.pre| - 1] == QUOTE && e.post != "" && e.post[0] == QUOTE &&
    PlainFrame(e.pre) && PlainFrame(e.post)
  }

  lemma FrameFree(x: string, t: string)
    requires PlainFrame(x) && Issued(t)
    ensures !Contains(x, t)
  {
    if p :| OccursAt(t, x, p) {
      OccursChars(t, x, p);
    }
  }

  lemma EnclosedFramed(e: Event, m: Mapping)
    requires Enclosed(e) && forall t :: t in m ==> Issued(t) && QUOTE !in t
    ensures Framed(e, m)
  {
    forall t | t in m ensures !Contains(e.pre, t) && !Contains(e.post, t) {
      FrameFree(e.pre, t);
      FrameFree(e.post, t);
    }
  }

  /** Whatever tokens a request issued: the client gets the restored answer if and only if the model
      spread no token over two deltas. */
  lemma IssuedDeltasExact(es: seq<Event>, m: Mapping)
    requires IssuedInLine(m) && forall t, u :: t in m && u in m ==> Apart(m[u], t)
    requires forall i :: 0 <= i < |es| ==> Enclosed(es[i])
    ensures UnmaskEach(Writes(es), m) == Flat(Writes(Restored(es, m)))
    ensures Flat(Deltas(Restored(es, m))) == Unmask(Flat(Deltas(es)), m) <==> !Cuts(Deltas(es), m)
  {
    InLineTokens(m);
    forall i | 0 <= i < |es| ensures Framed(es[i], m) {
      EnclosedFramed(es[i], m);
    }
    DeltasExact(es, m);
  }

  lemma TwoChunks(x: string, y: string)
    ensures Flat([x, y]) == x + y && Flat([x, y][..1]) == x
  {
    var cs, ds, es := [x, y], [y], [x];
    assert cs[1..] == ds && ds[1..] == [] && cs[..1] == es && es[1..] == [];
    assert Flat([]) == "";
    Unit(x);
    Unit(y);
    assert Flat(ds) == y && Flat(es) == x;
  }

  lemma CutInside(a: string, t: string, k: nat, b: string, m: Mapping)
    requires t in m && 0 < k < |t|
    ensures (a + t[..k]) + (t[k..] + b) == a + (t + b)
    ensures Cuts([a + t[..k], t[k..] + b], m)
  {
    var x, y := a + t[..k], t[k..] + b;
    assert t == t[..k] + t[k..];
    assert x + y == a + (t + b);
    TwoChunks(x, y);
    var cs := [x, y];
    assert Flat(cs) == x + y && Flat(cs[..1]) == x;
    assert OccursAt(t, x + y, |a|) && |a| < |x| < |a| + |t|;
    assert Straddles(Flat(cs), |Flat(cs[..1])|, m);
  }

  lemma TwoEvents(e: Event, f: Event, m: Mapping)
    ensures Deltas([e, f]) == [e.delta, f.delta] && Writes([e, f]) == [Written(e), Written(f)]
    ensures Restored([e, f], m) == [e.(delta := Unmask(e.delta, m)), f.(delta := Unmask(f.delta, m))]
  {
    var es, fs := [e, f], [f];
    assert es[1..] == fs && fs[1..] == [];
    assert Deltas(fs) == [f.delta] + Deltas([]) == [f.delta];
    assert Writes(fs) == [Written(f)] + Writes([]) == [Written(f)];
    assert Restored(fs, m) == [f.(delta := Unmask(f.delta, m))] + Restored([], m);
  }

  /** A token in two parts, each in its own delta, is never restored. */
  lemma SpreadTokenLost(e: Event, f: Event, a: string, t: string, k: nat, b: string, m: Mapping)
    requires WellFormed(m) && Framed(e, m) && Framed(f, m)
    requires t in m && 0 < k < |t| && e.delta == a + t[..k] && f.delta == t[k..] + b
    ensures Flat(Deltas(Restored([e, f], m))) != Unmask(a + (t + b), m)
  {
    CutInside(a, t, k, b, m);
    TwoEvents(e, f, m);
    TwoChunks(e.delta, f.delta);
    DeltasExact([e, f], m);
  }

  lemma Members(t: string, s: string, p: nat)
    requires OccursAt(t, s, p)
    ensures forall i :: 0 <= i < |t| ==> t[i] in s
  {
    forall i | 0 <= i < |t| ensures t[i] in s {
      assert s[p..p + |t|][i] == s[p + i];
    }
  }

  /** Without an opening or without a closing bracket there is no dictionary token. */
  lemma Short(s: string, t: string)
    requires DictShape(t) && ('[' !in s || ']' !in s)
    ensures !Contains(s, t)
  {
    if p :| OccursAt(t, s, p) {
      Members(t, s, p);
    }
  }

  /** Such events go out just as they came in, although their text as a whole would be restored. */
  lemma SpreadTokenShown(e: Event, f: Event, a: string, t: string, k: nat, b: string, o: string)
    requires DictShape(t) && QUOTE !in t && 0 < k < |t| && '[' !in a && ']' !in a && '[' !in b
    requires e == Event(e.pre, a + t[..k], e.post) && f == Event(f.pre, t[k..] + b, f.post)
    requires Enclosed(e) && Enclosed(f)
    ensures var m := map[t := o];
      UnmaskEach(Writes([e, f]), m) == Flat(Writes([e, f])) && Unmask(a + (t + b), m) == a + (o + b)
  {
    var m := map[t := o];
    assert m.Keys == {t};
    IssuedTokenSet(m.Keys);
    EnclosedFramed(e, m);
    EnclosedFramed(f, m);
    TwoEvents(e, f, m);
    Short(e.delta, t);
    NoneInside(e.delta, m);
    Short(f.delta, t);
    NoneInside(f.delta, m);
    EventsRestored([e, f], m);
    TokenRestored(a, t, b, m);
  }

  lemma TokenRestored(a: string, t: string, b: string, m: Mapping)
    requires TokenSet(m.Keys) && m.Keys == {t} && DictShape(t) && '[' !in a && '[' !in b
    ensures Unmask(a + (t + b), m) == a + (m[t] + b)
  {
    forall q | 0 <= q < |a| ensures !OccursAt(t, a + (t + b), q) {
      if OccursAt(t, a + (t + b), q) {
        OccursChars(t, a + (t + b), q);
      }
    }
    UnmaskPlain(a, t + b, m);
    UnmaskToken(t, b, m);
    Short(b, t);
    NoneInside(b, m);
  }

  const PRE := "data: {\"choices\":[{\"delta\":{\"content\":\""
  const POST := "\"}}]}\n\n"

  /** The answer "Hi [MASK.0]!" in two deltas, cut inside the token: the client reads it masked. */
  lemma SpreadTokenExample()
    ensures var m := map["[MASK.0]" := "Bob"];
      var es := [Event(PRE, "Hi [MASK", POST), Event(PRE, ".0]!", POST)];
      UnmaskEach(Writes(es), m) == Flat(Writes(es)) && Unmask("Hi [MASK.0]!", m) == "Hi Bob!"
  {
    var t := "[MASK.0]";
    assert t[..5] == "[MASK" && t[5..] == ".0]";
    assert "Hi " + "[MASK" == "Hi [MASK" && ".0]" + "!" == ".0]!";
    assert "Hi " + (t + "!") == "Hi [MASK.0]!" && "Hi " + ("Bob" + "!") == "Hi Bob!";
    assert forall i :: 0 <= i < |PRE| && PRE[i] == '[' ==> i == 17;
    SpreadTokenShown(Event(PRE, "Hi [MASK", POST), Event(PRE, ".0]!", POST), "Hi ", t, 5, "!", "Bob");
  }
}
