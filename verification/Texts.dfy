/** Strings as the gateway handles them: decimal rendering, occurrence of one string in
    another, and Go's `strings.ReplaceAll` (leftmost, non-overlapping). */
module Texts {

  import opened Sequences

  // ---------- occurrence ----------

  predicate OccursAt(t: string, s: string, p: int) {
    0 <= p && p + |t| <= |s| && s[p..p + |t|] == t
  }

  ghost predicate Contains(s: string, t: string) {
    exists p :: OccursAt(t, s, p)
  }

  predicate StartsWith(s: string, t: string) {
    |t| <= |s| && s[..|t|] == t
  }

  /** No proper suffix of `a` is a proper prefix of `b`. */
  ghost predicate NoBorder(a: string, b: string) {
    forall k :: 0 < k < |a| && |a| - k < |b| ==> a[k..] != b[..|a| - k]
  }

  /** `w` and `t` can never share characters of a text, wherever they occur. */
  ghost predicate Apart(w: string, t: string) {
    NoBorder(w, t) && NoBorder(t, w) && !Contains(w, t) && !Contains(t, w)
  }

  lemma OccursTail(t: string, s: string, p: nat)
    requires s != ""
    ensures OccursAt(t, s[1..], p) == OccursAt(t, s, p + 1)
  {
    if p + 1 + |t| <= |s| {
      assert s[1..][p..p + |t|] == s[p + 1..p + 1 + |t|];
    }
  }

  lemma Unit(a: string)
    ensures a + "" == a && "" + a == a
  {
  }

  /** A slice of a slice is a slice. */
  lemma Slice(s: string, i: int, j: int, a: int, b: int)
    requires 0 <= i <= j <= |s| && 0 <= a <= b <= j - i
    ensures s[i..j][a..b] == s[i + a..i + b]
  {
    var l, r := s[i..j][a..b], s[i + a..i + b];
    assert |l| == |r|;
    forall k | 0 <= k < |l| ensures l[k] == r[k] {
      assert l[k] == s[i..j][a + k];
    }
  }

  lemma OccursInside(t: string, s: string, p: int, i: int, j: int)
    requires OccursAt(t, s, p) && 0 <= i <= p && p + |t| <= j <= |s|
    ensures OccursAt(t, s[i..j], p - i)
    ensures Contains(s[i..j], t)
  {
    Slice(s, i, j, p - i, p - i + |t|);
    assert OccursAt(t, s[i..j], p - i);
  }

  lemma OccursLeft(t: string, a: string, b: string)
    requires Contains(a, t)
    ensures Contains(a + b, t)
  {
    var p :| OccursAt(t, a, p);
    assert (a + b)[p..p + |t|] == a[p..p + |t|];
    assert OccursAt(t, a + b, p);
  }

  lemma OccursRight(t: string, a: string, b: string)
    requires Contains(b, t)
    ensures Contains(a + b, t)
  {
    var p :| OccursAt(t, b, p);
    assert (a + b)[|a| + p..|a| + p + |t|] == b[p..p + |t|];
    assert OccursAt(t, a + b, |a| + p);
  }

  /** Nothing starts in `x` within `x + s`, so nothing lies in `x`. */
  lemma NoneStarts(x: string, s: string, t: string)
    requires t != "" && forall q :: 0 <= q < |x| ==> !OccursAt(t, x + s, q)
    ensures !Contains(x, t)
    ensures OccursAt(t, x + s, |x|) == StartsWith(s, t)
  {
    if p :| OccursAt(t, x, p) {
      assert (x + s)[p..p + |t|] == x[p..p + |t|];
      assert OccursAt(t, x + s, p);
    }
    if |t| <= |s| {
      assert (x + s)[|x|..|x| + |t|] == s[..|t|];
    }
  }

  /** Overlapping occurrences of `w` at `i` and `t` at `p` show a border or a containment. */
  lemma Overlap(s: string, w: string, i: int, t: string, p: int)
    requires OccursAt(w, s, i) && OccursAt(t, s, p)
    ensures p < i < p + |t| < i + |w| ==> t[i - p..] == w[..p + |t| - i]
    ensures i < p < i + |w| < p + |t| ==> w[p - i..] == t[..i + |w| - p]
    ensures p <= i && i + |w| <= p + |t| ==> OccursAt(w, t, i - p)
    ensures i <= p && p + |t| <= i + |w| ==> OccursAt(t, w, p - i)
  {
    if p < i < p + |t| < i + |w| {
      assert t[i - p..] == s[i..p + |t|] == w[..p + |t| - i];
    }
    if i < p < i + |w| < p + |t| {
      assert w[p - i..] == s[p..i + |w|] == t[..i + |w| - p];
    }
    if p <= i && i + |w| <= p + |t| {
      Slice(s, p, p + |t|, i - p, i - p + |w|);
    }
    if i <= p && p + |t| <= i + |w| {
      Slice(s, i, i + |w|, p - i, p - i + |t|);
    }
  }

  /** An occurrence of `t` around a string it is apart from lies wholly on one side. */
  lemma Straddle(a: string, w: string, b: string, t: string, p: int)
    requires Apart(w, t) && OccursAt(t, a + w + b, p)
    ensures p + |t| <= |a| || p >= |a| + |w|
    ensures p + |t| <= |a| ==> Contains(a, t)
    ensures p >= |a| + |w| ==> Contains(b, t)
  {
    var s := a + w + b;
    assert OccursAt(w, s, |a|);
    Overlap(s, w, |a|, t, p);
    if p + |t| <= |a| {
      OccursInside(t, s, p, 0, |a|);
      assert s[0..|a|] == a;
    }
    if p >= |a| + |w| {
      OccursInside(t, s, p, |a| + |w|, |s|);
      assert s[|a| + |w|..|s|] == b;
    }
    assert |w| > 0 by { assert w == "" ==> OccursAt(w, t, 0); }
  }

  /** Two occurrences of a border-free string coincide or do not touch. */
  lemma SelfStraddle(a: string, b: string, t: string, p: int)
    requires NoBorder(t, t) && OccursAt(t, a + t + b, p)
    ensures p == |a| || p + |t| <= |a| || p >= |a| + |t|
  {
    assert OccursAt(t, a + t + b, |a|);
    Overlap(a + t + b, t, |a|, t, p);
  }

  // ---------- strings.ReplaceAll ----------

  /** `strings.ReplaceAll(s, o, n)`; an empty `o` matches before every character and at the end. */
  function ReplaceAll(s: string, o: string, n: string): string {
    if o == "" then Interleave(s, n)
    else if |s| < |o| then s
    else if s[..|o|] == o then n + ReplaceAll(s[|o|..], o, n)
    else [s[0]] + ReplaceAll(s[1..], o, n)
  }

  function Interleave(s: string, n: string): string {
    if s == "" then n else n + [s[0]] + Interleave(s[1..], n)
  }

  /** Where `n` stands before the `i`th character of `s` in `r`, or at its end. */
  predicate Inserted(r: string, s: string, n: string, i: nat) {
    var p := i * (|n| + 1);
    i <= |s| && OccursAt(n, r, p) && (i < |s| ==> p + |n| < |r| && r[p + |n|] == s[i])
  }

  /** An empty string is replaced before every character and at the end. */
  lemma {:induction false} ReplaceEmpty(s: string, n: string)
    ensures |ReplaceAll(s, "", n)| == |s| + (|s| + 1) * |n|
    ensures forall i :: 0 <= i <= |s| ==> Inserted(ReplaceAll(s, "", n), s, n, i)
  {
    var r := ReplaceAll(s, "", n);
    if s == "" {
      assert r[0..|n|] == n;
    } else {
      var rest, r' := s[1..], ReplaceAll(s[1..], "", n);
      ReplaceEmpty(rest, n);
      assert r == n + [s[0]] + r' && (|rest| + 1) * |n| + |n| == (|s| + 1) * |n|;
      forall i | 0 <= i <= |s| ensures Inserted(r, s, n, i) {
        if i > 0 {
          assert Inserted(r', rest, n, i - 1);
          InsertedLater(r', rest, n, i - 1, s[0]);
          assert [s[0]] + rest == s;
        } else {
          assert r[0..|n|] == n;
        }
      }
    }
  }

  lemma InsertedLater(r: string, s: string, n: string, i: nat, c: char)
    requires Inserted(r, s, n, i)
    ensures Inserted(n + [c] + r, [c] + s, n, i + 1)
  {
    var p, r' := i * (|n| + 1), n + [c] + r;
    assert (i + 1) * (|n| + 1) == p + |n| + 1;
    assert r'[p + |n| + 1..p + |n| + 1 + |n|] == r[p..p + |n|];
    assert i < |s| ==> r'[p + |n| + 1 + |n|] == r[p + |n|];
  }

  lemma {:induction false} ReplaceNone(s: string, o: string, n: string)
    requires o != "" && !Contains(s, o)
    ensures ReplaceAll(s, o, n) == s
  {
    if |s| >= |o| {
      assert !OccursAt(o, s, 0) && s[0..|o|] == s[..|o|];
      forall p: nat ensures OccursAt(o, s[1..], p) == OccursAt(o, s, p + 1) {
        OccursTail(o, s, p);
      }
      ReplaceNone(s[1..], o, n);
    }
  }

  /** The leftmost occurrence is the one replaced, and scanning resumes right after it. */
  lemma {:induction false} ReplaceFirst(a: string, o: string, b: string, n: string)
    requires o != "" && forall q :: 0 <= q < |a| ==> !OccursAt(o, a + o + b, q)
    ensures ReplaceAll(a + o + b, o, n) == a + n + ReplaceAll(b, o, n)
    decreases |a|
  {
    var s := a + o + b;
    if a == "" {
      assert s[..|o|] == o && s[|o|..] == b;
      assert a + n + ReplaceAll(b, o, n) == n + ReplaceAll(b, o, n);
    } else {
      assert !OccursAt(o, s, 0);
      assert s[0..|o|] == s[..|o|];
      assert s[1..] == a[1..] + o + b;
      forall q | 0 <= q < |a[1..]| ensures !OccursAt(o, a[1..] + o + b, q) {
        OccursTail(o, s, q);
      }
      ReplaceFirst(a[1..], o, b, n);
      assert a + n + ReplaceAll(b, o, n) == [a[0]] + (a[1..] + n + ReplaceAll(b, o, n));
    }
  }

  /** Text in which no occurrence of `o` starts is copied unchanged. */
  lemma {:induction false} ReplaceSkips(a: string, b: string, o: string, n: string)
    requires o != "" && forall q :: 0 <= q < |a| ==> !OccursAt(o, a + b, q)
    ensures ReplaceAll(a + b, o, n) == a + ReplaceAll(b, o, n)
    decreases |a|
  {
    if a == "" {
      Unit(b);
      Unit(ReplaceAll(b, o, n));
    } else {
      var c, a' := [a[0]], a[1..];
      assert a == c + a' && (a + b)[1..] == a' + b;
      forall q | 0 <= q < |a'| ensures !OccursAt(o, a' + b, q) {
        OccursTail(o, a + b, q);
      }
      Assoc(c, a', b);
      ReplaceSkips(a', b, o, n);
      ReplaceChar(a[0], a' + b, o, n);
      Assoc(c, a', ReplaceAll(b, o, n));
    }
  }

  lemma ReplaceChar(c: char, s: string, o: string, n: string)
    requires o != "" && !OccursAt(o, [c] + s, 0)
    ensures ReplaceAll([c] + s, o, n) == [c] + ReplaceAll(s, o, n)
  {
    var cs := [c] + s;
    assert cs[1..] == s;
    assert |o| <= |cs| ==> cs[0..|o|] == cs[..|o|];
  }

  /** Text on both sides of a string that `o` is apart from is replaced by itself. */
  lemma {:induction false} ReplaceAcross(a: string, w: string, b: string, o: string, n: string)
    requires o != "" && Apart(w, o)
    ensures ReplaceAll(a + w + b, o, n) == ReplaceAll(a, o, n) + w + ReplaceAll(b, o, n)
    decreases |a|
  {
    var s := a + w + b;
    if a == "" {
      forall q | 0 <= q < |w| ensures !OccursAt(o, w + b, q) {
        assert "" + w + b == w + b;
        if OccursAt(o, "" + w + b, q) {
          Straddle("", w, b, o, q);
        }
      }
      assert s == w + b;
      ReplaceSkips(w, b, o, n);
      assert ReplaceAll(a, o, n) == "";
      Unit(w);
    } else if |s| >= |o| && s[..|o|] == o {
      assert s[0..|o|] == s[..|o|];
      assert OccursAt(o, s, 0);
      Straddle(a, w, b, o, 0);
      var a' := a[|o|..];
      assert a[..|o|] == o && s[|o|..] == a' + w + b;
      ReplaceAcross(a', w, b, o, n);
      Regroup(n, ReplaceAll(a', o, n), w, ReplaceAll(b, o, n));
    } else {
      assert !StartsWith(a, o) by { assert |o| <= |a| ==> a[..|o|] == s[..|o|]; }
      var c, a' := [a[0]], a[1..];
      assert s == c + (a' + w + b) && s[1..] == a' + w + b;
      ReplaceAcross(a', w, b, o, n);
      Regroup(c, ReplaceAll(a', o, n), w, ReplaceAll(b, o, n));
      ReplaceShort(a, o, n);
      ReplaceShort(s, o, n);
    }
  }

  lemma Regroup(a: string, b: string, c: string, d: string)
    ensures a + (b + c + d) == (a + b) + c + d
  {
  }

  lemma ReplaceShort(s: string, o: string, n: string)
    requires o != "" && s != "" && !StartsWith(s, o)
    ensures ReplaceAll(s, o, n) == [s[0]] + ReplaceAll(s[1..], o, n)
  {
    assert s == [s[0]] + s[1..];
  }

  // ---------- decimal rendering ----------

  function Digit(d: nat): char
    requires d < 10
  {
    '0' + d as char
  }

  predicate AllDigits(s: string) {
    forall i :: 0 <= i < |s| ==> '0' <= s[i] <= '9'
  }

  /** Rendering of a natural number by the `%d` verb. */
  function Decimal(n: nat): (s: string)
    ensures |s| >= 1 && AllDigits(s)
  {
    if n < 10 then [Digit(n)] else Decimal(n / 10) + [Digit(n % 10)]
  }

  /** The number that decimal digits stand for. */
  function Value(s: string): nat
    requires AllDigits(s)
  {
    if s == "" then 0 else 10 * Value(s[..|s| - 1]) + (s[|s| - 1] as int - '0' as int)
  }

  /** The rendering stands for the number, and has no leading zero. */
  lemma {:induction false} DecimalReads(n: nat)
    ensures Value(Decimal(n)) == n && (Decimal(n)[0] == '0' ==> n == 0)
  {
    if n >= 10 {
      DecimalReads(n / 10);
      assert Decimal(n)[..|Decimal(n)| - 1] == Decimal(n / 10);
    }
  }

  lemma {:induction false} DecimalInjective(m: nat, n: nat)
    requires Decimal(m) == Decimal(n)
    ensures m == n
  {
    var s := Decimal(m);
    assert s[|s| - 1] == Digit(m % 10) && s[|s| - 1] == Digit(n % 10);
    assert (m < 10) == (|s| == 1) && (n < 10) == (|s| == 1);
    if m >= 10 {
      assert s[..|s| - 1] == Decimal(m / 10) && s[..|s| - 1] == Decimal(n / 10);
      DecimalInjective(m / 10, n / 10);
    }
  }
}
