/** Answers inside JSON strings: originals go back into the encoded text as they are, so what a client
    decodes is the restored answer only when no original needs an escape. */
module JsonText {
  import opened Sequences
  import opened Wrappers
  import opened Texts
  import opened Masking
  import opened Tokens
  import StreamEvents

  /** A character that stands for itself inside a JSON string (RFC 8259, section 7). */
  predicate PlainChar(c: char) {
    c != '"' && c != '\\' && c >= ' '
  }

  predicate PlainText(s: string) {
    forall i :: 0 <= i < |s| ==> PlainChar(s[i])
  }

  function Short(c: char): Option<char> {
    match c
    case '"' => Some('"')
    case '\\' => Some('\\')
    case '/' => Some('/')
    case 'b' => Some(8 as char)
    case 'f' => Some(12 as char)
    case 'n' => Some('\n')
    case 'r' => Some('\r')
    case 't' => Some('\t')
    case _ => None
  }

  predicate HexDigit(c: char) {
    '0' <= c <= '9' || 'a' <= c <= 'f' || 'A' <= c <= 'F'
  }

  /** What four hexadecimal digits stand for. */
  type Hex = string -> Option<string>

  ghost predicate Lawful(hex: Hex) {
    forall h :: hex(h).Some? ==> 0 < |hex(h).value| <= 5
  }

  /** Length and meaning of the escape at the start of `d`. */
  function Escape(d: string, hex: Hex): Option<(nat, string)> {
    if |d| < 2 then None
    else if d[1] == 'u' then
      if |d| >= 6 && (forall i :: 2 <= i < 6 ==> HexDigit(d[i])) && hex(d[2..6]).Some?
      then Some((6, hex(d[2..6]).value)) else None
    else if Short(d[1]).Some? then Some((2, [Short(d[1]).value]))
    else None
  }

  /** The escapes of two characters, and the digits of the longer one. */
  lemma EscapesExact(c: char, hex: Hex)
    ensures Escape(['\\', c], hex) ==
      if c == '"' || c == '\\' || c == '/' then Some((2, [c]))
      else if c == 'b' then Some((2, [8 as char])) else if c == 't' then Some((2, [9 as char]))
      else if c == 'n' then Some((2, [10 as char])) else if c == 'f' then Some((2, [12 as char]))
      else if c == 'r' then Some((2, [13 as char])) else None
    ensures HexDigit(c) <==> c in "0123456789abcdefABCDEF"
  {
    var digits := "0123456789abcdefABCDEF";
    if '0' <= c <= '9' {
      assert digits[c as int - '0' as int] == c;
    } else if 'a' <= c <= 'f' {
      assert digits[10 + (c as int - 'a' as int)] == c;
    } else if 'A' <= c <= 'F' {
      assert digits[16 + (c as int - 'A' as int)] == c;
    }
  }

  function Before(v: string, r: Option<string>): Option<string> {
    match r case None => None case Some(s) => Some(v + s)
  }

  /** The text that the inside of a JSON string stands for. */
  function Reads(d: string, hex: Hex): Option<string> {
    if d == "" then Some("")
    else if d[0] == '\\' then
      match Escape(d, hex)
      case None => None
      case Some((n, v)) => Before(v, Reads(d[n..], hex))
    else if PlainChar(d[0]) then Before([d[0]], Reads(d[1..], hex))
    else None
  }

  /** No escape stands for a character that a token holds. */
  ghost predicate Visible(d: string, hex: Hex, m: Mapping) {
    d != "" ==>
      if d[0] == '\\' then
        match Escape(d, hex)
        case None => true
        case Some((n, v)) => (forall c, t :: c in v && t in m ==> c !in t) && Visible(d[n..], hex, m)
      else Visible(d[1..], hex, m)
  }

  /** Tokens that show in a JSON string as they are. */
  ghost predicate IssuedPlain(m: Mapping) {
    forall t :: t in m ==> IssuedWith(t, PlainChar)
  }

  lemma {:induction false} ReadsPlain(a: string, b: string, hex: Hex)
    requires PlainText(a)
    ensures Reads(a + b, hex) == Before(a, Reads(b, hex))
    decreases |a|
  {
    if a == "" {
      Unit(b);
      assert Reads(b, hex).Some? ==> "" + Reads(b, hex).value == Reads(b, hex).value;
    } else {
      assert (a + b)[0] == a[0] && (a + b)[1..] == a[1..] + b && a == [a[0]] + a[1..];
      assert PlainChar(a[0]) && PlainText(a[1..]);
      ReadsPlain(a[1..], b, hex);
      if Reads(b, hex).Some? {
        Assoc([a[0]], a[1..], Reads(b, hex).value);
      }
    }
  }

  /** Only a text without escapes reads as itself. */
  lemma {:induction false} ReadsShrinks(d: string, hex: Hex)
    requires Lawful(hex) && Reads(d, hex).Some?
    ensures |Reads(d, hex).value| <= |d|
    ensures |Reads(d, hex).value| == |d| ==> PlainText(d)
    decreases |d|
  {
    if d != "" {
      if d[0] == '\\' {
        var (n, v) := Escape(d, hex).value;
        ReadsShrinks(d[n..], hex);
      } else {
        ReadsShrinks(d[1..], hex);
      }
    }
  }

  lemma NotEscaped(d: string, x: string, hex: Hex, m: Mapping, t: string)
    requires Lawful(hex) && Visible(d, hex, m) && Reads(d, hex) == Some(x) && t in m && x != "" && x[0] in t
    ensures d != "" && d[0] != '\\'
  {
    var esc := Escape(d, hex);
    assert esc.Some? && esc.value.1 != "" ==> esc.value.1[0] in esc.value.1;
  }

  /** A token at the start of what is read stands at the start of the JSON text. */
  lemma {:induction false} StartsShown(d: string, x: string, hex: Hex, m: Mapping, t: string, k: nat)
    requires Lawful(hex) && Visible(d, hex, m) && Reads(d, hex) == Some(x) && t in m && k <= |t|
    requires StartsWith(x, t[k..])
    ensures StartsWith(d, t[k..])
    decreases |t| - k
  {
    if k < |t| {
      assert x[0] == x[..|t| - k][0] == t[k..][0] == t[k];
      NotEscaped(d, x, hex, m, t);
      var x' := Reads(d[1..], hex).value;
      assert x == [d[0]] + x' && x[1..] == x' && t[k..][1..] == t[k + 1..];
      assert x'[..|t| - k - 1] == x[..|t| - k][1..];
      StartsShown(d[1..], x', hex, m, t, k + 1);
      assert t[k..] == [t[k]] + t[k + 1..] && d[..|t| - k] == [d[0]] + d[1..][..|t| - k - 1];
    }
  }

  lemma EscapeLocal(d: string, hex: Hex, y: string)
    requires d != "" && d[0] == '\\' && Escape(d, hex).Some?
    ensures var (n, v) := Escape(d, hex).value;
      2 <= n <= |d| && Reads(d[..n] + y, hex) == Before(v, Reads(y, hex)) &&
      forall q :: 0 <= q < n ==> d[q] != '['
  {
    var (n, v) := Escape(d, hex).value;
    var e := d[..n] + y;
    assert e[n..] == y && e[0] == d[0] && e[1] == d[1];
    if n == 6 {
      assert e[2..6] == d[2..6];
      assert forall i :: 2 <= i < 6 ==> e[i] == d[i];
    }
  }

  /** Restoring behind an escape, and behind what it stands for. */
  lemma RestoredEscape(d: string, hex: Hex, m: Mapping)
    requires Lawful(hex) && IssuedPlain(m) && Visible(d, hex, m)
    requires d != "" && d[0] == '\\' && Reads(d, hex).Some?
    ensures var (n, v) := Escape(d, hex).value;
      n <= |d| && Unmask(d, m) == d[..n] + Unmask(d[n..], m) &&
      Unmask(Reads(d, hex).value, m) == v + Unmask(Reads(d[n..], hex).value, m)
  {
    var (n, v) := Escape(d, hex).value;
    EscapeLocal(d, hex, "");
    assert d == d[..n] + d[n..];
    NoneOpens(d[..n], d[n..], m);
    NoneOpens(v, Reads(d[n..], hex).value, m);
  }

  /** No token begins where there is no opening bracket, or no character of a token. */
  lemma NoneOpens(a: string, b: string, m: Mapping)
    requires IssuedPlain(m)
    requires (forall q :: 0 <= q < |a| ==> a[q] != '[') || forall c, t :: c in a && t in m ==> c !in t
    ensures Unmask(a + b, m) == a + Unmask(b, m)
  {
    forall t, q | t in m && 0 <= q < |a| ensures !OccursAt(t, a + b, q) {
      IssuedChars(t, PlainChar);
      assert a[q] in a && t[0] in t;
      if OccursAt(t, a + b, q) {
        OccursChars(t, a + b, q);
      }
    }
    UnmaskPlain(a, b, m);
  }

  /** Plain originals: what is decoded is what would have been restored after decoding. */
  lemma {:induction false} RestoredReads(d: string, hex: Hex, m: Mapping)
    requires Lawful(hex) && IssuedPlain(m) && TokenSet(m.Keys) && Visible(d, hex, m) && Reads(d, hex).Some?
    requires forall t :: t in m ==> PlainText(m[t])
    ensures Reads(Unmask(d, m), hex) == Some(Unmask(Reads(d, hex).value, m))
    decreases |d|
  {
    var x := Reads(d, hex).value;
    if d == "" {
      assert Unmask("", m) == "";
    } else if t :| t in m && StartsWith(d, t) {
      TokenAhead(d, hex, m, t);
      RestoredReads(d[|t|..], hex, m);
      ReadsPlain(m[t], Unmask(d[|t|..], m), hex);
    } else if d[0] == '\\' {
      var (n, v) := Escape(d, hex).value;
      RestoredEscape(d, hex, m);
      RestoredReads(d[n..], hex, m);
      EscapeLocal(d, hex, Unmask(d[n..], m));
    } else {
      var c, rest, x' := d[0], d[1..], Reads(d[1..], hex).value;
      assert d == [c] + rest && x == [c] + x';
      forall t | t in m ensures !OccursAt(t, [c] + rest, 0) && !OccursAt(t, [c] + x', 0) {
        assert OccursAt(t, d, 0) ==> StartsWith(d, t);
        assert OccursAt(t, x, 0) ==> StartsWith(x, t[0..]) && t[0..] == t;
        if StartsWith(x, t[0..]) {
          StartsShown(d, x, hex, m, t, 0);
        }
      }
      UnmaskChar(c, rest, m);
      UnmaskChar(c, x', m);
      RestoredReads(rest, hex, m);
      ReadsPlain([c], Unmask(rest, m), hex);
    }
  }

  lemma {:induction false} VisibleRest(a: string, b: string, hex: Hex, m: Mapping)
    requires PlainText(a)
    ensures Visible(a + b, hex, m) <==> Visible(b, hex, m)
    decreases |a|
  {
    if a == "" {
      Unit(b);
    } else {
      assert (a + b)[1..] == a[1..] + b;
      VisibleRest(a[1..], b, hex, m);
    }
  }

  lemma TokenAhead(d: string, hex: Hex, m: Mapping, t: string)
    requires IssuedPlain(m) && TokenSet(m.Keys) && Visible(d, hex, m) && Reads(d, hex).Some?
    requires t in m && StartsWith(d, t)
    ensures t != "" && Visible(d[|t|..], hex, m) && Reads(d[|t|..], hex).Some?
    ensures Unmask(d, m) == m[t] + Unmask(d[|t|..], m)
    ensures Unmask(Reads(d, hex).value, m) == m[t] + Unmask(Reads(d[|t|..], hex).value, m)
  {
    var b := d[|t|..];
    assert d == t + b;
    IssuedChars(t, PlainChar);
    VisibleRest(t, b, hex, m);
    ReadsPlain(t, b, hex);
    UnmaskToken(t, b, m);
    UnmaskToken(t, Reads(b, hex).value, m);
  }

  ghost predicate DecodesRestored(d: string, hex: Hex, m: Mapping) {
    Visible(d, hex, m) && Reads(d, hex).Some? ==>
      Reads(Unmask(d, m), hex) == Some(Unmask(Reads(d, hex).value, m))
  }

  /** For every encoded answer, what the client decodes from the restored body is the restored answer,
      if and only if every original stands for itself inside a JSON string. */
  lemma OriginalsExact(hex: Hex, m: Mapping)
    requires Lawful(hex) && IssuedPlain(m)
    ensures (forall d :: DecodesRestored(d, hex, m)) <==>
      (forall t, c :: t in m && c in m[t] ==> c != '"' && c != '\\' && c as int >= 32)
  {
    assert forall t :: t in m ==> (PlainText(m[t]) <==> forall c :: c in m[t] ==> PlainChar(c)) by {
      forall t | t in m ensures PlainText(m[t]) <==> forall c :: c in m[t] ==> PlainChar(c) {
        assert forall i :: 0 <= i < |m[t]| ==> m[t][i] in m[t];
      }
    }
    forall t | t in m ensures Issued(t) {
      IssuedChars(t, PlainChar);
    }
    IssuedTokenSet(m.Keys);
    if forall t :: t in m ==> PlainText(m[t]) {
      forall d ensures DecodesRestored(d, hex, m) {
        if Visible(d, hex, m) && Reads(d, hex).Some? {
          RestoredReads(d, hex, m);
        }
      }
    } else {
      var t :| t in m && !PlainText(m[t]);
      TokenAlone(hex, m, t);
    }
  }

  lemma TokenAlone(hex: Hex, m: Mapping, t: string)
    requires Lawful(hex) && IssuedPlain(m) && TokenSet(m.Keys) && t in m && !PlainText(m[t])
    ensures !DecodesRestored(t, hex, m)
  {
    IssuedChars(t, PlainChar);
    Unit(t);
    Unit(m[t]);
    ReadsPlain(t, "", hex);
    VisibleRest(t, "", hex, m);
    UnmaskToken(t, "", m);
    assert Unmask("", m) == "";
    if Reads(m[t], hex) == Some(m[t]) {
      ReadsShrinks(m[t], hex);
    }
  }

  /** A name in quotes breaks the document: the restored answer is no JSON string any more. */
  lemma QuotedNameBreaks(hex: Hex)
    ensures var m := map["[MASK.0]" := "\"Bob\""];
      Reads("Hi [MASK.0]", hex) == Some("Hi [MASK.0]") && Unmask("Hi [MASK.0]", m) == "Hi \"Bob\"" &&
      Reads("Hi \"Bob\"", hex) == None
  {
    var t, o := "[MASK.0]", "\"Bob\"";
    assert "Hi " + (t + "") == "Hi [MASK.0]" && "Hi " + (o + "") == "Hi \"Bob\"";
    ShownName(t, o, hex);
    ReadsPlain("Hi ", o, hex);
    assert Reads(o, hex) == None && "Hi " + o == "Hi \"Bob\"";
  }

  lemma ShownName(t: string, o: string, hex: Hex)
    requires DictShape(t) && PlainText(t)
    ensures var s := "Hi " + (t + "");
      Reads(s, hex) == Some(s) && Unmask(s, map[t := o]) == "Hi " + (o + "")
  {
    var m := map[t := o];
    assert m.Keys == {t};
    IssuedTokenSet(m.Keys);
    StreamEvents.TokenRestored("Hi ", t, "", m);
    ReadsPlain("Hi " + (t + ""), "", hex);
    Unit("Hi " + (t + ""));
  }
}
