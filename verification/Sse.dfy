/** Server-sent events: the reader that turns a provider's response body into chunks, and the
    printer that turns chunks into a response body. A `string` stands for bytes. */
module Sse {
  import opened Sequences
  import opened Wrappers
  import opened Folding

  /** `Done` and `Failed` end a stream. */
  datatype Chunk = Data(text: string) | Done | Failed

  /** The scanner's buffer: a line and its line feed must fit. */
  const LIMIT := 65536

  const PREFIX := "data: "
  const DONE := "[DONE]"

  // ---------- reading ----------

  /** Position of the first line feed, or the length when there is none. */
  function Break(s: string): (i: nat)
    ensures i <= |s| && '\n' !in s[..i] && (i < |s| ==> s[i] == '\n')
  {
    if s == "" || s[0] == '\n' then 0
    else
      var i := 1 + Break(s[1..]);
      assert s[..i] == [s[0]] + s[1..][..i - 1];
      i
  }

  lemma {:induction false} BreakIs(s: string, n: nat)
    requires n <= |s| && '\n' !in s[..n] && (n < |s| ==> s[n] == '\n')
    ensures Break(s) == n
    decreases n
  {
    if n > 0 {
      assert s[0] in s[..n];
      assert s[1..][..n - 1] == s[..n][1..];
      BreakIs(s[1..], n - 1);
    }
  }

  predicate EndsInReturn(t: string) {
    t != "" && t[|t| - 1] == '\r'
  }

  /** One carriage return before the line feed belongs to the line end. */
  function DropReturn(line: string): string {
    if EndsInReturn(line) then line[..|line| - 1] else line
  }

  function LineEvent(line: string): Option<Chunk> {
    if PREFIX <= line then Some(if line[|PREFIX|..] == DONE then Done else Data(line[|PREFIX|..]))
    else if line == "data:" then Some(Data(""))
    else None
  }

  /** The events of one line, followed by what comes after it. */
  function Emit(line: string, rest: seq<Chunk>): seq<Chunk> {
    match LineEvent(DropReturn(line))
    case None => rest
    case Some(Done) => [Done]
    case Some(c) => [c] + rest
  }

  /** What reading a body emits when nobody cancels: `fault` says that the body ends in a read
      error instead of its proper end. A last line without line feed counts. */
  function Events(s: string, fault: bool): seq<Chunk>
    decreases |s|
  {
    var i := Break(s);
    var end := [if fault then Failed else Done];
    if i >= LIMIT then [Failed]
    else if i < |s| then Emit(s[..i], Events(s[i + 1..], fault))
    else if s == "" then end
    else Emit(s, end)
  }

  /** What is left after the first line. */
  function Rest(s: string): string {
    var i := Break(s);
    if i < |s| then s[i + 1..] else ""
  }

  lemma EventsOfFirst(s: string, fault: bool)
    ensures Break(s) >= LIMIT ==> Events(s, fault) == [Failed]
    ensures Events("", fault) == [if fault then Failed else Done]
    ensures Break(s) < LIMIT && s != "" ==>
            |Rest(s)| < |s| && Events(s, fault) == Emit(s[..Break(s)], Events(Rest(s), fault))
  {
    assert s[..|s|] == s;
  }

  /** The channel so far and what the rest of the body will give make up what the body gives. */
  ghost predicate Ahead(ch: seq<Chunk>, rest: string, body: string, fault: bool) {
    forall n :: Unfold(n) ==> ch + Events(rest, fault) == Events(body, fault)
  }

  lemma AheadAtStart(body: string, fault: bool)
    ensures Ahead([], body, body, fault)
  {
    assert [] + Events(body, fault) == Events(body, fault);
  }

  lemma AheadPrefix(ch: seq<Chunk>, rest: string, body: string, fault: bool)
    requires Ahead(ch, rest, body, fault)
    ensures ch <= Events(body, fault)
    ensures Break(rest) >= LIMIT ==> Events(body, fault) == ch + [Failed]
    ensures Break(rest) < LIMIT && rest == "" ==> Events(body, fault) == ch + [if fault then Failed else Done]
  {
    assert Unfold(0);
    EventsOfFirst(rest, fault);
  }

  /** One line, case by case as the reader takes it. */
  lemma AheadLine(ch: seq<Chunk>, rest: string, body: string, fault: bool)
    requires Ahead(ch, rest, body, fault) && rest != "" && Break(rest) < LIMIT
    ensures |Rest(rest)| < |rest|
    ensures var line := DropReturn(rest[..Break(rest)]);
      if PREFIX <= line then
        if line[|PREFIX|..] == DONE then Events(body, fault) == ch + [Done]
        else Ahead(ch + [Data(line[|PREFIX|..])], Rest(rest), body, fault)
      else if line == "data:" then Ahead(ch + [Data("")], Rest(rest), body, fault)
      else Ahead(ch, Rest(rest), body, fault)
  {
    assert Unfold(0);
    EventsOfFirst(rest, fault);
    AppendLine(ch, rest[..Break(rest)], Events(Rest(rest), fault));
  }

  /** Appending the events of a line. */
  lemma AppendLine(acc: seq<Chunk>, raw: string, rest: seq<Chunk>)
    ensures var line := DropReturn(raw);
      acc + Emit(raw, rest) ==
        if PREFIX <= line then
          if line[|PREFIX|..] == DONE then acc + [Done] else acc + [Data(line[|PREFIX|..])] + rest
        else if line == "data:" then acc + [Data("")] + rest
        else acc + rest
  {
    var e := LineEvent(DropReturn(raw));
    assert e.Some? ==> acc + ([e.value] + rest) == acc + [e.value] + rest;
  }

  /** `ch` is `all`, cut off at the first send that lost its race. */
  ghost predicate CutOff(ch: seq<Chunk>, all: seq<Chunk>, sent: nat -> bool) {
    ch <= all && (ch == all || !sent(|ch|)) && Won(ch, sent)
  }

  /** Every send of data so far won its race. */
  ghost predicate Won(ch: seq<Chunk>, sent: nat -> bool) {
    forall n :: Unfold(n) ==> forall j :: 0 <= j < |ch| && ch[j].Data? ==> sent(j)
  }

  lemma WonMore(ch: seq<Chunk>, c: Chunk, sent: nat -> bool)
    requires Won(ch, sent) && (sent(|ch|) || !c.Data?)
    ensures Won(ch + [c], sent)
  {
    assert Unfold(0);
  }

  /** The goroutine of the reader. Each send of data, and that of the error, is raced against
      cancellation: `sent(k)` says that the send of the k-th chunk won. */
  method StreamSse(body: string, fault: bool, sent: nat -> bool) returns (ch: seq<Chunk>)
    ensures CutOff(ch, Events(body, fault), sent)
  {
    ch := [];
    var rest := body;
    AheadAtStart(body, fault);
    while rest != "" && Break(rest) < LIMIT
      invariant Ahead(ch, rest, body, fault) && Won(ch, sent)
      decreases |rest|
    {
      AheadPrefix(ch, rest, body, fault);
      AheadLine(ch, rest, body, fault);
      var line := DropReturn(rest[..Break(rest)]);
      rest := Rest(rest);
      if PREFIX <= line {
        var data := line[|PREFIX|..];
        if data == DONE {
          WonMore(ch, Done, sent);
          ch := ch + [Done];
          return;
        }
        if !sent(|ch|) {
          return;
        }
        WonMore(ch, Data(data), sent);
        ch := ch + [Data(data)];
      } else if line == "data:" {
        if !sent(|ch|) {
          return;
        }
        WonMore(ch, Data(""), sent);
        ch := ch + [Data("")];
      }
    }
    // The scanner has stopped: at the end of the body, or at a line that is too long.
    AheadPrefix(ch, rest, body, fault);
    EmptyBreak();
    if rest != "" || fault {
      if sent(|ch|) {
        WonMore(ch, Failed, sent);
        ch := ch + [Failed];
      }
      return;
    }
    WonMore(ch, Done, sent);
    ch := ch + [Done];
  }

  lemma EmptyBreak()
    ensures Break("") == 0
  {
  }

  /** Data chunks, then exactly one terminal chunk and nothing after. */
  ghost predicate OneTerminal(es: seq<Chunk>) {
    |es| > 0 && !es[|es| - 1].Data? && forall i :: 0 <= i < |es| - 1 ==> es[i].Data?
  }

  lemma {:induction false} EndsOnce(s: string, fault: bool)
    ensures OneTerminal(Events(s, fault))
    decreases |s|
  {
    var i := Break(s);
    if i < LIMIT && i < |s| {
      EndsOnce(s[i + 1..], fault);
    }
  }

  // ---------- cancellation ----------

  /** What reading the whole lines of `w` emits, and whether reading stops in them. */
  function Whole(w: string): (r: (seq<Chunk>, bool))
    decreases |w|
  {
    var i := Break(w);
    if i >= LIMIT then ([Failed], true)
    else if i == |w| then ([], false)
    else
      var (cs, stopped) := Whole(w[i + 1..]);
      (Emit(w[..i], cs), stopped || LineEvent(DropReturn(w[..i])) == Some(Done))
  }

  ghost predicate WholeLines(w: string) {
    w == "" || w[|w| - 1] == '\n'
  }

  lemma BreakInFirst(w: string, r: string)
    requires Break(w) < |w|
    ensures Break(w + r) == Break(w) && (w + r)[..Break(w)] == w[..Break(w)]
    ensures (w + r)[Break(w) + 1..] == w[Break(w) + 1..] + r
  {
    var i := Break(w);
    assert (w + r)[..i] == w[..i];
    BreakIs(w + r, i);
  }

  lemma LineThere(w: string)
    requires w != "" && WholeLines(w)
    ensures Break(w) < |w| && WholeLines(w[Break(w) + 1..])
  {
    assert w[..|w|] == w;
    assert w[|w| - 1] in w;
  }

  lemma EmitAppend(line: string, a: seq<Chunk>, b: seq<Chunk>)
    ensures Emit(line, a + b) == if LineEvent(DropReturn(line)) == Some(Done) then [Done] else Emit(line, a) + b
  {
    var e := LineEvent(DropReturn(line));
    assert e.Some? ==> [e.value] + (a + b) == [e.value] + a + b;
  }

  /** Reading whole lines and then more is reading the lines, then the more. */
  lemma {:induction false} Split(w: string, r: string, fault: bool)
    requires WholeLines(w)
    ensures Events(w + r, fault) == if Whole(w).1 then Whole(w).0 else Whole(w).0 + Events(r, fault)
    decreases |w|
  {
    if w == "" {
      assert w + r == r;
    } else {
      LineThere(w);
      Split(Rest(w), r, fault);
      SplitFirst(w, r, fault);
      EmitAppend(w[..Break(w)], Whole(Rest(w)).0, Events(r, fault));
    }
  }

  lemma SplitFirst(w: string, r: string, fault: bool)
    requires Break(w) < |w|
    ensures Break(w) >= LIMIT ==> Events(w + r, fault) == [Failed] && Whole(w) == ([Failed], true)
    ensures Break(w) < LIMIT ==> Events(w + r, fault) == Emit(w[..Break(w)], Events(Rest(w) + r, fault))
    ensures Break(w) < LIMIT ==>
      var line := w[..Break(w)];
      Whole(w) == (Emit(line, Whole(Rest(w)).0), Whole(Rest(w)).1 || LineEvent(DropReturn(line)) == Some(Done))
  {
    RestInFirst(w, r);
    EventsOfFirst(w + r, fault);
  }

  lemma RestInFirst(w: string, r: string)
    requires Break(w) < |w|
    ensures w + r != "" && Break(w + r) == Break(w) && (w + r)[..Break(w)] == w[..Break(w)]
    ensures Rest(w + r) == Rest(w) + r
  {
    BreakInFirst(w, r);
  }

  /** The chunks other than the report of a failure. */
  function Kept(es: seq<Chunk>): seq<Chunk> {
    if es != [] && es[|es| - 1].Failed? then es[..|es| - 1] else es
  }

  lemma KeptAfter(c: seq<Chunk>, es: seq<Chunk>, fs: seq<Chunk>)
    requires es != []
    ensures Kept(c + es) <= c + fs <==> Kept(es) <= fs
  {
    assert Kept(c + es) == c + Kept(es);
    var k := Kept(es);
    if c + k <= c + fs {
      assert (c + fs)[|c|..] == fs && (c + k) == (c + fs)[..|c + k|];
      assert k == (c + k)[|c|..] == fs[..|k|];
    }
    if k <= fs {
      assert c + fs[..|k|] == (c + fs)[..|c + k|];
    }
  }

  /** A cancelled read sees the body cut somewhere, then a read error: after whole lines `w` and
      the start `p` of a line that would have gone on with `q`. What it emits, the report of the
      error aside, is a prefix of what the whole body gives, if and only if reading had stopped before
      the cut, or the started line gives nothing, or the completed line fits the buffer and gives the
      same; or the completed line gives nothing at all, and the empty chunk that its start gave by
      mistake happens to be what comes next. */
  lemma CancelledRead(w: string, p: string, q: string, fault: bool)
    requires WholeLines(w) && '\n' !in p
    ensures var e := LineEvent(DropReturn(p));
      var line := p + q[..Break(q)];
      var full := LineEvent(DropReturn(line));
      Kept(Events(w + p, true)) <= Events(w + p + q, fault) <==>
      Whole(w).1 || |p| >= LIMIT || e.None? ||
      (|line| < LIMIT && if full.None? then [Data("")] <= Events(Rest(q), fault) else full == e)
  {
    CutSplit(w, p, p + q, fault);
    PartialLine(p);
    Assoc(w, p, q);
    if |p| < LIMIT && LineEvent(DropReturn(p)).Some? {
      CompletedLine(p, q, fault);
    }
  }

  /** The first event behind the cut, by the completed line. */
  lemma CompletedLine(p: string, q: string, fault: bool)
    requires '\n' !in p && LineEvent(DropReturn(p)).Some?
    ensures var e := LineEvent(DropReturn(p));
      var line := p + q[..Break(q)];
      var full := LineEvent(DropReturn(line));
      [e.value] <= Events(p + q, fault) <==>
      |line| < LIMIT && if full.None? then [Data("")] <= Events(Rest(q), fault) else full == e
  {
    var e := LineEvent(DropReturn(p)).value;
    var line := p + q[..Break(q)];
    JoinedEvents(p, q, fault);
    if |line| < LIMIT {
      FirstOfEmit(line, Events(Rest(q), fault), e);
      NothingGiven(p, q[..Break(q)]);
    } else {
      assert [Failed][0] == Failed && [e][0] == e;
    }
  }

  lemma JoinedEvents(p: string, q: string, fault: bool)
    requires '\n' !in p && LineEvent(DropReturn(p)).Some?
    ensures var line := p + q[..Break(q)];
      Events(p + q, fault) == if |line| >= LIMIT then [Failed] else Emit(line, Events(Rest(q), fault))
  {
    BreakBehind(p, q);
    EventsAt(p + q, p + q[..Break(q)], Rest(q), fault);
  }

  lemma EventsAt(s: string, line: string, rest: string, fault: bool)
    requires s != "" && Break(s) == |line| && s[..|line|] == line && Rest(s) == rest
    ensures Events(s, fault) == if |line| >= LIMIT then [Failed] else Emit(line, Events(rest, fault))
  {
    EventsOfFirst(s, fault);
  }

  lemma NothingGiven(p: string, x: string)
    requires LineEvent(DropReturn(p)).Some?
    ensures LineEvent(DropReturn(p + x)).None? ==> LineEvent(DropReturn(p)) == Some(Data(""))
  {
    if LineEvent(DropReturn(p + x)).None? {
      GivesNothing(p, x);
    }
  }

  lemma BreakBehind(p: string, q: string)
    requires '\n' !in p
    ensures Break(p + q) == |p| + Break(q) && (p + q)[..|p| + Break(q)] == p + q[..Break(q)] && Rest(p + q) == Rest(q)
  {
    var s, i := p + q, Break(q);
    assert s[..|p| + i] == p + q[..i];
    assert i < |q| ==> s[|p| + i] == q[i] && s[|p| + i + 1..] == q[i + 1..];
    BreakIs(s, |p| + i);
  }

  lemma FirstOfEmit(line: string, rest: seq<Chunk>, c: Chunk)
    ensures var f := LineEvent(DropReturn(line));
      [c] <= Emit(line, rest) <==> if f.None? then [c] <= rest else f.value == c
  {
    var f := LineEvent(DropReturn(line));
    if f.Some? {
      assert Emit(line, rest)[0] == f.value && [c][0] == c;
      assert f.value == c ==> [c] == Emit(line, rest)[..1];
    }
  }

  /** A start of a line gives an event and the line does not only when the start is a bare "data:". */
  lemma GivesNothing(p: string, x: string)
    requires LineEvent(DropReturn(p)).Some? && LineEvent(DropReturn(p + x)).None?
    ensures LineEvent(DropReturn(p)) == Some(Data(""))
  {
    var d := DropReturn(p);
    if PREFIX <= d {
      PrefixStays(p, x);
    }
  }

  lemma PrefixStays(p: string, x: string)
    requires PREFIX <= DropReturn(p)
    ensures PREFIX <= DropReturn(p + x)
  {
    var s := p + x;
    assert DropReturn(p)[..6] == PREFIX && p[..6] == PREFIX && s[..6] == PREFIX;
    assert PREFIX[5] == ' ' && s[5] == ' ';
    assert |DropReturn(s)| >= 6 && DropReturn(s)[..6] == s[..6];
  }

  lemma CutSplit(w: string, p: string, r: string, fault: bool)
    requires WholeLines(w)
    ensures Kept(Events(w + p, true)) <= Events(w + r, fault) <==>
      Whole(w).1 || Kept(Events(p, true)) <= Events(r, fault)
  {
    Split(w, p, true);
    Split(w, r, fault);
    EndsOnce(p, true);
    KeptEither(Whole(w), Events(p, true), Events(r, fault));
  }

  lemma KeptEither(r: (seq<Chunk>, bool), es: seq<Chunk>, fs: seq<Chunk>)
    requires es != []
    ensures Kept(if r.1 then r.0 else r.0 + es) <= (if r.1 then r.0 else r.0 + fs) <==> r.1 || Kept(es) <= fs
  {
    KeptAfter(r.0, es, fs);
  }

  /** A line cut short still counts as a line. */
  lemma PartialLine(p: string)
    requires '\n' !in p
    ensures var e := LineEvent(DropReturn(p));
      Kept(Events(p, true)) == if |p| >= LIMIT || e.None? then [] else [e.value]
  {
    NoEventOfNothing();
    PartialEvents(p);
    KeptEmit(p);
    KeptFailed();
  }

  lemma PartialEvents(p: string)
    requires '\n' !in p
    ensures Events(p, true) == if |p| >= LIMIT || p == "" then [Failed] else Emit(p, [Failed])
  {
    EventsOfFirst(p, true);
    EventsOfFirst("", true);
  }

  lemma KeptFailed()
    ensures Kept([Failed]) == []
  {
  }

  lemma KeptEmit(line: string)
    ensures var e := LineEvent(DropReturn(line));
      Kept(Emit(line, [Failed])) == if e.None? then [] else [e.value]
  {
  }

  lemma NoEventOfNothing()
    ensures LineEvent(DropReturn("")).None?
  {
  }

  /** So a read cut in the middle of a data line hands on a chunk that the provider never sent. */
  lemma TruncatedChunk()
    ensures Kept(Events("data: ab", true)) == [Data("ab")]
    ensures !(Kept(Events("data: ab", true)) <= Events("data: ab" + "c\n", false))
  {
    assert LineEvent("data: ab") == Some(Data("ab"));
    PartialLine("data: ab");
    WholeLine("data: abc", false);
    assert "data: ab" + "c\n" == "data: abc" + "\n";
    assert LineEvent("data: abc") == Some(Data("abc"));
  }

  lemma WholeLine(line: string, fault: bool)
    requires '\n' !in line && |line| < LIMIT
    ensures Events(line + "\n", fault) == Emit(line, Events("", fault))
  {
    BreakAfter(line, "");
    assert line + ("\n" + "") == line + "\n";
    EventsOfFirst(line + "\n", fault);
  }

  /** What a line gives, by its bytes: it may be no longer than 65535 bytes; "data: [DONE]" ends the
      stream; other "data: " lines and a bare "data:" give a chunk; anything else gives nothing. A
      carriage return before the line feed belongs to the line end. */
  lemma LineExact(text: string, crlf: bool, fault: bool)
    requires '\n' !in text && (text == "" || text[|text| - 1] != '\r')
    ensures var line := text + if crlf then "\r" else "";
      var rest := [if fault then Failed else Done];
      Events(line + "\n", fault) ==
        if |line| >= 65536 then [Failed]
        else if text == "data: [DONE]" then [Done]
        else if "data: " <= text then [Data(text[6..])] + rest
        else if text == "data:" then [Data("")] + rest
        else rest
  {
    var line := text + if crlf then "\r" else "";
    assert crlf ==> line[..|line| - 1] == text;
    assert DropReturn(line) == text;
    BreakAfter(line, "");
    assert line + ("\n" + "") == line + "\n";
    EventsOfFirst(line + "\n", fault);
    assert "data: " <= text ==> text == "data: " + text[6..];
    assert "data: " + "[DONE]" == "data: [DONE]";
  }

  // ---------- printing ----------

  function Block(text: string): string {
    PREFIX + text + "\n\n"
  }

  /** A failure is printed as one more data block, here with the text `failure`. */
  function Text(c: Chunk, failure: string): string {
    match c
    case Data(text) => text
    case Done => DONE
    case Failed => failure
  }

  function Print(cs: seq<Chunk>, failure: string): string {
    if cs == [] then "" else if cs[0].Data? then Block(Text(cs[0], failure)) + Print(cs[1..], failure)
    else Block(Text(cs[0], failure))
  }

  lemma PrintSnoc(cs: seq<Chunk>, c: Chunk, failure: string)
    requires forall i :: 0 <= i < |cs| ==> cs[i].Data?
    ensures Print(cs + [c], failure) == Print(cs, failure) + Block(Text(c, failure))
    decreases |cs|
  {
    if cs == [] {
      assert [c][1..] == [] && cs + [c] == [c];
      assert Block(Text(c, failure)) + "" == Block(Text(c, failure));
    } else {
      assert (cs + [c])[1..] == cs[1..] + [c];
      PrintSnoc(cs[1..], c, failure);
      Assoc(Block(Text(cs[0], failure)), Print(cs[1..], failure), Block(Text(c, failure)));
    }
  }

  /** The response is written chunk by chunk until a terminal chunk, the close of the channel, or
      (`alive(k)` false before the k-th chunk) the departure of the client. */
  method StreamFromProvider(ch: seq<Chunk>, failure: string, alive: nat -> bool) returns (w: string, n: nat)
    ensures n <= |ch| && w == Print(ch[..n], failure)
    ensures n < |ch| ==> !alive(n) || (n > 0 && !ch[n - 1].Data?)
    ensures forall k :: 0 <= k < n - 1 ==> ch[k].Data?
  {
    w, n := "", 0;
    while n < |ch| && alive(n)
      invariant n <= |ch| && w == Print(ch[..n], failure)
      invariant forall k :: 0 <= k < n ==> ch[k].Data?
    {
      PrintSnoc(ch[..n], ch[n], failure);
      assert ch[..n + 1] == ch[..n] + [ch[n]];
      w, n := w + Block(Text(ch[n], failure)), n + 1;
      if !ch[n - 1].Data? {
        return;
      }
    }
  }

  /** Text that survives a block: no line feed, no trailing carriage return, not the end marker, short enough. */
  predicate Clean(text: string) {
    '\n' !in text && !EndsInReturn(text) && text != DONE && |PREFIX| + |text| < LIMIT
  }

  lemma BlockLine(text: string, r: string)
    requires '\n' !in text
    ensures var s := Block(text) + r; var n := |PREFIX| + |text|;
      Break(s) == n && s[..n] == PREFIX + text && s[n + 1..] == "\n" + r
  {
    var l := PREFIX + text;
    assert '\n' !in PREFIX;
    assert Block(text) + r == l + ("\n" + ("\n" + r));
    BreakAfter(l, "\n" + r);
  }

  lemma BreakAfter(l: string, r: string)
    requires '\n' !in l
    ensures var s := l + ("\n" + r); Break(s) == |l| && s[..|l|] == l && s[|l| + 1..] == r
  {
    var s := l + ("\n" + r);
    assert s[|l|] == '\n' && s[..|l|] == l;
    BreakIs(s, |l|);
  }

  lemma BlankLine(r: string, fault: bool)
    ensures Events("\n" + r, fault) == Events(r, fault)
  {
    assert "" + ("\n" + r) == "\n" + r;
    BreakAfter("", r);
    NoEventOfNothing();
  }

  /** Reading a printed block whose text has no line feed. */
  lemma BlockEvents(text: string, r: string, fault: bool)
    requires '\n' !in text
    ensures Events(Block(text) + r, fault) ==
      if |PREFIX| + |text| >= LIMIT then [Failed] else Emit(PREFIX + text, Events(r, fault))
  {
    BlockLine(text, r);
    BlankLine(r, fault);
  }

  lemma CleanEvent(text: string)
    requires '\n' !in text
    ensures LineEvent(DropReturn(PREFIX + text)).Some?
    ensures Clean(text) <==> |PREFIX| + |text| < LIMIT && LineEvent(DropReturn(PREFIX + text)) == Some(Data(text))
  {
    var l := PREFIX + text;
    assert l[|PREFIX|..] == text;
    if EndsInReturn(text) {
      assert DropReturn(l) == PREFIX + text[..|text| - 1];
      assert DropReturn(l)[|PREFIX|..] == text[..|text| - 1];
    } else {
      assert DropReturn(l) == l;
    }
  }

  /** A text with a line feed cannot come back: what is read never holds one. */
  lemma DirtyFirst(text: string, r: string, fault: bool)
    requires '\n' in text
    ensures !([Data(text)] <= Events(Block(text) + r, fault))
  {
    var s := Block(text) + r;
    var line, rest := FirstLineOf(text, r);
    BreakAfter(line, rest);
    EventsOfFirst(s, fault);
    FirstEventClean(line);
    if [Data(text)] <= Events(s, fault) {
      EmitFirst(line, Events(Rest(s), fault), text);
    }
  }

  lemma FirstLineOf(text: string, r: string) returns (line: string, rest: string)
    requires '\n' in text
    ensures Block(text) + r == line + ("\n" + rest) && PREFIX <= line && '\n' !in line
  {
    var j := Break(text);
    assert text[..|text|] == text;
    line, rest := PREFIX + text[..j], text[j + 1..] + ("\n\n" + r);
    assert text == text[..j] + ("\n" + text[j + 1..]);
    Assoc5(PREFIX, text[..j], "\n", text[j + 1..], "\n\n", r);
  }

  lemma Assoc5(a: string, b: string, c: string, d: string, e: string, f: string)
    ensures a + (b + (c + d)) + e + f == (a + b) + (c + (d + (e + f)))
  {
  }

  lemma EmitFirst(line: string, rest: seq<Chunk>, text: string)
    requires LineEvent(DropReturn(line)).Some? && [Data(text)] <= Emit(line, rest)
    ensures LineEvent(DropReturn(line)) == Some(Data(text))
  {
    var es := Emit(line, rest);
    assert es[0] == [Data(text)][0];
  }

  lemma FirstEventClean(line: string)
    requires PREFIX <= line && '\n' !in line
    ensures LineEvent(DropReturn(line)).Some?
    ensures LineEvent(DropReturn(line)) != Some(Done) ==>
      var e := LineEvent(DropReturn(line)).value; e.Data? && '\n' !in e.text
  {
    assert line[5] == PREFIX[5] == ' ';
    var l := DropReturn(line);
    assert PREFIX <= l by {
      assert |l| >= 6;
      assert l[..6] == line[..6];
    }
  }

  function Texts(cs: seq<Chunk>): (ts: seq<string>)
    requires forall i :: 0 <= i < |cs| ==> cs[i].Data?
    ensures |ts| == |cs| && forall i :: 0 <= i < |cs| ==> ts[i] == cs[i].text
  {
    seq(|cs|, i requires 0 <= i < |cs| => cs[i].text)
  }

  function DataChunks(texts: seq<string>): (cs: seq<Chunk>)
    ensures |cs| == |texts| && forall i :: 0 <= i < |cs| ==> cs[i] == Data(texts[i])
  {
    seq(|texts|, i requires 0 <= i < |texts| => Data(texts[i]))
  }

  /** Printing a complete stream and reading it back gives the same chunks if and only if every
      text is clean. */
  lemma {:induction false} PrintRead(texts: seq<string>, failure: string)
    ensures var cs := DataChunks(texts) + [Done];
      Events(Print(cs, failure), false) == cs <==> forall i :: 0 <= i < |texts| ==> Clean(texts[i])
    decreases |texts|
  {
    var cs := DataChunks(texts) + [Done];
    if texts == [] {
      PrintedDone(failure);
      assert cs == [Done];
    } else {
      var text, rest := texts[0], DataChunks(texts[1..]) + [Done];
      assert cs == [Data(text)] + rest;
      PrintRead(texts[1..], failure);
      PrintReadFirst(text, rest, failure);
      assert forall i :: 1 <= i < |texts| ==> texts[i] == texts[1..][i - 1];
      assert forall i :: 0 <= i < |texts[1..]| ==> texts[1..][i] == texts[i + 1];
    }
  }

  lemma PrintedDone(failure: string)
    ensures Events(Print([Done], failure), false) == [Done]
  {
    BlockEvents(DONE, "", false);
    assert Block(DONE) + "" == Block(DONE);
    assert (PREFIX + DONE)[|PREFIX|..] == DONE;
  }

  lemma PrintReadFirst(text: string, rest: seq<Chunk>, failure: string)
    ensures var cs := [Data(text)] + rest;
      Events(Print(cs, failure), false) == cs <==> Clean(text) && Events(Print(rest, failure), false) == rest
  {
    var cs := [Data(text)] + rest;
    var r := Print(rest, failure);
    assert cs[1..] == rest && Print(cs, failure) == Block(text) + r;
    assert [Data(text)] <= cs;
    if '\n' in text {
      DirtyFirst(text, r, false);
    } else {
      BlockEvents(text, r, false);
      CleanEvent(text);
      EmitExact(PREFIX + text, Events(r, false), text, rest);
    }
  }

  lemma EmitExact(line: string, es: seq<Chunk>, text: string, rest: seq<Chunk>)
    requires LineEvent(DropReturn(line)).Some?
    ensures Emit(line, es) == [Data(text)] + rest <==> LineEvent(DropReturn(line)) == Some(Data(text)) && es == rest
  {
    var e := LineEvent(DropReturn(line)).value;
    assert ([e] + es)[1..] == es && ([Data(text)] + rest)[1..] == rest;
    assert ([e] + es)[0] == e && ([Data(text)] + rest)[0] == Data(text);
    assert e == Done ==> Emit(line, es)[0] == Done;
  }

  /** What reading yields is clean but for a trailing carriage return. */
  lemma {:induction false} ReadTextsClean(s: string, fault: bool, k: nat)
    requires k < |Events(s, fault)| && Events(s, fault)[k].Data?
    ensures var t := Events(s, fault)[k].text; Clean(t) <==> !EndsInReturn(t)
    decreases |s|
  {
    EventsOfFirst(s, fault);
    if Break(s) < LIMIT && s != "" {
      LineTextClean(s[..Break(s)]);
      var j := EmitIndex(s[..Break(s)], Events(Rest(s), fault), k);
      if j >= 0 {
        ReadTextsClean(Rest(s), fault, j);
      }
    }
  }

  /** Where the k-th chunk comes from: from the line itself (-1) or from what follows. */
  lemma EmitIndex(line: string, rest: seq<Chunk>, k: nat) returns (j: int)
    requires k < |Emit(line, rest)|
    ensures -1 <= j < |rest|
    ensures j >= 0 ==> Emit(line, rest)[k] == rest[j]
    ensures j < 0 ==> LineEvent(DropReturn(line)) == Some(Emit(line, rest)[k])
  {
    var e := LineEvent(DropReturn(line));
    j := if e.None? then k else k - 1;
  }

  lemma LineTextClean(line: string)
    requires '\n' !in line && |line| < LIMIT
    ensures var e := LineEvent(DropReturn(line));
      e.Some? && e.value.Data? ==> var t := e.value.text; Clean(t) <==> !EndsInReturn(t)
  {
  }

  /** Reading any body to its end marker, printing and reading again changes nothing, if and only
      if no text it held ended in a carriage return. */
  lemma ReadPrintRead(s: string, fault: bool, failure: string)
    requires var es := Events(s, fault); es != [] && es[|es| - 1].Done?
    ensures var es := Events(s, fault);
      Events(Print(es, failure), false) == es <==>
      forall k :: 0 <= k < |es| - 1 ==> es[k].Data? && !EndsInReturn(es[k].text)
  {
    EndsOnce(s, fault);
    var es := Events(s, fault);
    var n := |es| - 1;
    var texts := Texts(es[..n]);
    assert es == DataChunks(texts) + [Done];
    PrintRead(texts, failure);
    forall k | 0 <= k < n ensures es[k].Data? && texts[k] == es[k].text &&
        (Clean(texts[k]) <==> !EndsInReturn(es[k].text)) {
      assert es[k] == es[..n][k];
      ReadTextsClean(s, fault, k);
    }
  }

  lemma DataCons(texts: seq<string>, tail: seq<Chunk>)
    requires texts != []
    ensures DataChunks(texts) + tail == [Data(texts[0])] + (DataChunks(texts[1..]) + tail)
  {
    assert DataChunks(texts) == [Data(texts[0])] + DataChunks(texts[1..]);
    Assoc([Data(texts[0])], DataChunks(texts[1..]), tail);
  }

  /** Clean texts in front of anything come back as they are. */
  lemma {:induction false} DataPrints(texts: seq<string>, tail: seq<Chunk>, failure: string)
    requires forall i :: 0 <= i < |texts| ==> Clean(texts[i])
    ensures Events(Print(DataChunks(texts) + tail, failure), false) ==
            DataChunks(texts) + Events(Print(tail, failure), false)
    decreases |texts|
  {
    var es := Events(Print(tail, failure), false);
    if texts == [] {
      assert DataChunks(texts) + tail == tail && DataChunks(texts) + es == es;
    } else {
      DataPrints(texts[1..], tail, failure);
      PrintFirst(texts[0], DataChunks(texts[1..]) + tail, failure);
      DataCons(texts, tail);
      DataCons(texts, es);
    }
  }

  /** A failed stream is printed so that a reader sees the failure as one more data chunk and then
      a proper end, if and only if the failure's text is clean. */
  lemma FailureReadsAsData(texts: seq<string>, failure: string)
    requires forall i :: 0 <= i < |texts| ==> Clean(texts[i])
    ensures Events(Print(DataChunks(texts) + [Failed], failure), false) == DataChunks(texts) + [Data(failure), Done]
            <==> Clean(failure)
  {
    DataPrints(texts, [Failed], failure);
    PrintedFailure(failure);
    CancelFirst(DataChunks(texts), Events(Print([Failed], failure), false), [Data(failure), Done]);
  }

  lemma CancelFirst(a: seq<Chunk>, x: seq<Chunk>, y: seq<Chunk>)
    ensures a + x == a + y <==> x == y
  {
    assert (a + x)[|a|..] == x && (a + y)[|a|..] == y;
  }

  lemma PrintedFailure(failure: string)
    ensures Events(Print([Failed], failure), false) == [Data(failure), Done] <==> Clean(failure)
  {
    assert Block(failure) + "" == Block(failure);
    if '\n' in failure {
      DirtyFirst(failure, "", false);
      assert [Data(failure)] <= [Data(failure), Done];
    } else {
      BlockEvents(failure, "", false);
      EventsOfFirst("", false);
      CleanEvent(failure);
      EmitExact(PREFIX + failure, [Done], failure, [Done]);
      assert [Data(failure), Done] == [Data(failure)] + [Done];
    }
  }

  lemma PrintFirst(text: string, rest: seq<Chunk>, failure: string)
    requires Clean(text)
    ensures Events(Print([Data(text)] + rest, failure), false) == [Data(text)] + Events(Print(rest, failure), false)
  {
    var cs := [Data(text)] + rest;
    assert cs[1..] == rest;
    BlockEvents(text, Print(rest, failure), false);
    CleanEmit(text, Events(Print(rest, failure), false));
  }

  lemma CleanEmit(text: string, rest: seq<Chunk>)
    requires Clean(text)
    ensures Emit(PREFIX + text, rest) == [Data(text)] + rest && |PREFIX| + |text| < LIMIT
  {
    CleanEvent(text);
  }
}
