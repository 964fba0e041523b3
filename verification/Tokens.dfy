/** The two token forms issued per request, and why they can never overlap in a text. */
module Tokens {
  import opened Texts
  import opened Masking

  /** Dictionary token number `n` of a request. */
  function DictToken(n: nat): string {
    "[MASK." + Decimal(n) + "]"
  }

  /** Token of hit `n` for the rule labelled `name`. */
  function PiiToken(name: string, n: nat): string {
    "[[pii." + name + "." + Decimal(n) + "]]"
  }

  /** The two forms as they are printed. */
  lemma TokensPrinted()
    ensures DictToken(10) == "[MASK.10]" && PiiToken("email", 3) == "[[pii.email.3]]"
  {
    assert Decimal(10) == Decimal(1) + "0";
  }

  predicate Bracket(c: char) {
    c == '[' || c == ']'
  }

  predicate NoBrackets(s: string) {
    forall i :: 0 <= i < |s| ==> !Bracket(s[i])
  }

  predicate DictShape(s: string) {
    |s| >= 3 && s[0] == '[' && s[1] == 'M' && s[|s| - 1] == ']' &&
    forall i :: 0 < i < |s| - 1 ==> !Bracket(s[i])
  }

  predicate PiiShape(s: string) {
    |s| >= 5 && s[0] == '[' && s[1] == '[' && s[2] == 'p' && s[|s| - 1] == ']' && s[|s| - 2] == ']' &&
    forall i :: 1 < i < |s| - 2 ==> !Bracket(s[i])
  }

  predicate Issued(s: string) {
    DictShape(s) || PiiShape(s)
  }

  lemma DictTokenShape(n: nat)
    ensures DictShape(DictToken(n))
  {
    var d := Decimal(n);
    assert forall i :: 0 <= i < |d| ==> !Bracket(d[i]);
  }

  /** A rule token has its form exactly when the label holds no bracket. */
  lemma PiiTokenShape(name: string, n: nat)
    ensures PiiShape(PiiToken(name, n)) <==> NoBrackets(name)
  {
    var s, d := PiiToken(name, n), Decimal(n);
    if NoBrackets(name) {
      forall i | 1 < i < |s| - 2 ensures !Bracket(s[i]) {
        assert i < 6 || 6 <= i < 6 + |name| || i == 6 + |name| || s[i] == d[i - 7 - |name|];
      }
    } else {
      var i :| 0 <= i < |name| && Bracket(name[i]);
      assert Bracket(s[6 + i]);
    }
  }

  lemma DictTokenInjective(m: nat, n: nat)
    requires DictToken(m) == DictToken(n)
    ensures m == n
  {
    var s := DictToken(m);
    assert s[6..|s| - 1] == Decimal(m) && s[6..|s| - 1] == Decimal(n);
    DecimalInjective(m, n);
  }

  lemma OccursChars(u: string, t: string, p: int)
    requires OccursAt(u, t, p) && |u| >= 3
    ensures t[p] == u[0] && t[p + 1] == u[1] && t[p + 2] == u[2]
    ensures t[p + |u| - 1] == u[|u| - 1] && t[p + |u| - 2] == u[|u| - 2]
  {
    var v := t[p..p + |u|];
    assert t[p] == v[0] && t[p + 1] == v[1] && t[p + 2] == v[2];
    assert t[p + |u| - 1] == v[|u| - 1] && t[p + |u| - 2] == v[|u| - 2];
  }

  /** Any tokens issued for a request, of both forms, form a token set. */
  lemma IssuedTokenSet(T: set<string>)
    requires forall t :: t in T ==> Issued(t)
    ensures TokenSet(T)
  {
    forall t, u | t in T && u in T
      ensures t != "" && NoBorder(t, u) && (t != u ==> Apart(t, u))
    {
    }
  }

  /** A token that a request issues, with a rule label free of brackets and `ok` throughout. */
  ghost predicate IssuedWith(t: string, ok: char -> bool) {
    (exists n :: t == DictToken(n)) ||
    exists name, n :: t == PiiToken(name, n) && NoBrackets(name) && forall i :: 0 <= i < |name| ==> ok(name[i])
  }

  /** The characters that are in tokens whatever the label. */
  const FRAME := "[MASK.pi]0123456789"

  lemma IssuedChars(t: string, ok: char -> bool)
    requires IssuedWith(t, ok) && forall i :: 0 <= i < |FRAME| ==> ok(FRAME[i])
    ensures Issued(t) && forall i :: 0 <= i < |t| ==> ok(t[i])
  {
    if n :| t == DictToken(n) {
      DictTokenShape(n);
      FrameChars("[MASK.", Decimal(n), "]", ok);
    } else {
      var name, n :| t == PiiToken(name, n) && NoBrackets(name) && forall i :: 0 <= i < |name| ==> ok(name[i]);
      PiiTokenShape(name, n);
      FrameChars("[[pii.", Decimal(n), "]]", ok);
    }
  }

  lemma FrameChars(a: string, d: string, b: string, ok: char -> bool)
    requires (a == "[MASK." && b == "]") || (a == "[[pii." && b == "]]")
    requires AllDigits(d) && forall i :: 0 <= i < |FRAME| ==> ok(FRAME[i])
    ensures forall i :: 0 <= i < |a| ==> ok(a[i])
    ensures forall i :: 0 <= i < |d| ==> ok(d[i])
    ensures forall i :: 0 <= i < |b| ==> ok(b[i])
    ensures ok('.')
  {
    assert ok(FRAME[0]) && ok(FRAME[1]) && ok(FRAME[2]) && ok(FRAME[3]) && ok(FRAME[4]) && ok(FRAME[5]);
    assert ok(FRAME[6]) && ok(FRAME[7]) && ok(FRAME[8]);
    forall i | 0 <= i < |d| ensures ok(d[i]) {
      var k := d[i] as int - '0' as int;
      assert FRAME[9 + k] == d[i];
    }
  }
}
