/** Gregorian calendar days counted from 1970-01-01, and the period keys built from them. */
module Calendar {
  import opened Texts

  predicate IsLeap(y: int) {
    y % 4 == 0 && (y % 100 != 0 || y % 400 == 0)
  }

  function MonthLength(y: int, m: int): (n: nat)
    requires 0 <= m < 12
    ensures 28 <= n <= 31
  {
    if m == 1 then (if IsLeap(y) then 29 else 28)
    else if m == 3 || m == 5 || m == 8 || m == 10 then 30
    else 31
  }

  /** Months are numbered from January 1970; the day number of the first of month `k`. */
  function MonthDay(k: nat): nat {
    if k == 0 then 0 else MonthDay(k - 1) + MonthLength(1970 + (k - 1) / 12, (k - 1) % 12)
  }

  // The same day number in closed form, as a calendar library computes it.

  /** Leap years up to and including `y`. */
  function Leaps(y: int): int {
    y / 4 - y / 100 + y / 400
  }

  /** Day number of 1 January of `y`. */
  function YearDay(y: int): int {
    365 * (y - 1970) + Leaps(y - 1) - Leaps(1969)
  }

  const DAYS_BEFORE: seq<int> := [0, 31, 59, 90, 120, 151, 181, 212, 243, 273, 304, 334]

  function FirstOf(y: int, m: int): int
    requires 0 <= m < 12
  {
    YearDay(y) + DAYS_BEFORE[m] + if m >= 2 && IsLeap(y) then 1 else 0
  }

  lemma LeapsStep(y: int)
    ensures Leaps(y) - Leaps(y - 1) == if IsLeap(y) then 1 else 0
  {
    assert y / 4 - (y - 1) / 4 == if y % 4 == 0 then 1 else 0;
    assert y / 100 - (y - 1) / 100 == if y % 100 == 0 then 1 else 0;
    assert y / 400 - (y - 1) / 400 == if y % 400 == 0 then 1 else 0;
    assert y % 400 == 0 ==> y % 100 == 0;
    assert y % 100 == 0 ==> y % 4 == 0;
  }

  lemma FirstAdvances(y: int, m: int)
    requires 0 <= m < 12
    ensures (if m == 11 then FirstOf(y + 1, 0) else FirstOf(y, m + 1)) == FirstOf(y, m) + MonthLength(y, m)
  {
    LeapsStep(y);
    assert YearDay(y + 1) == YearDay(y) + 365 + Leaps(y) - Leaps(y - 1);
  }

  lemma {:induction false} MonthDayClosed(k: nat)
    ensures MonthDay(k) == FirstOf(1970 + k / 12, k % 12)
  {
    if k == 0 {
      assert FirstOf(1970, 0) == 0;
    } else {
      var y, m := 1970 + (k - 1) / 12, (k - 1) % 12;
      MonthDayClosed(k - 1);
      FirstAdvances(y, m);
      assert 1970 + k / 12 == (if m == 11 then y + 1 else y);
      assert k % 12 == (if m == 11 then 0 else m + 1);
    }
  }

  lemma {:induction false} MonthsGrow(j: nat, k: nat)
    requires j <= k
    ensures MonthDay(k) >= MonthDay(j) + 28 * (k - j)
    decreases k - j
  {
    if j < k {
      MonthsGrow(j, k - 1);
    }
  }

  /** The month a day falls in. */
  function MonthOf(day: nat): (k: nat)
    ensures MonthDay(k) <= day < MonthDay(k + 1)
  {
    assert MonthDay(0) == 0;
    MonthFrom(day, 0)
  }

  function MonthFrom(day: nat, k: nat): (r: nat)
    requires MonthDay(k) <= day
    ensures MonthDay(r) <= day < MonthDay(r + 1)
    decreases day - MonthDay(k)
  {
    if day < MonthDay(k + 1) then k else MonthFrom(day, k + 1)
  }

  lemma MonthIsUnique(day: nat, k: nat)
    ensures MonthOf(day) == k <==> MonthDay(k) <= day < MonthDay(k + 1)
  {
    var r := MonthOf(day);
    if r < k {
      MonthsGrow(r + 1, k);
    } else if k < r {
      MonthsGrow(k + 1, r);
    }
  }

  // ---------- rendering ----------

  function Year(day: nat): nat {
    1970 + MonthOf(day) / 12
  }

  function Month(day: nat): nat {
    MonthOf(day) % 12 + 1
  }

  function DayOfMonth(day: nat): (d: nat)
    ensures 1 <= d <= 31
  {
    assert MonthDay(MonthOf(day) + 1) <= MonthDay(MonthOf(day)) + 31;
    day - MonthDay(MonthOf(day)) + 1
  }

  function Pad2(n: nat): string
    requires n < 100
  {
    [Digit(n / 10), Digit(n % 10)]
  }

  /** Layout "2006-01"; every year from 1970 on has at least four digits. */
  function YearMonth(day: nat): string {
    Decimal(Year(day)) + "-" + Pad2(Month(day))
  }

  /** Layout "2006-01-02". */
  function Date(day: nat): string {
    YearMonth(day) + "-" + Pad2(DayOfMonth(day))
  }

  /** 29 February 2024, as an example of the layouts. */
  lemma LeapDay(day: nat)
    requires day == 19782
    ensures Date(day) == "2024-02-29" && YearMonth(day) == "2024-02"
  {
    assert FirstOf(2024, 1) == 19754;
    DateParts(day, 2024, 1);
    Digits2024();
    assert Pad2(2) == "02" && Pad2(29) == "29";
    assert "2024" + "-" + "02" == "2024-02" && "2024-02" + "-" + "29" == "2024-02-29";
  }

  /** Year, month and day of the month, by the closed form. */
  lemma DateParts(day: nat, y: int, m: int)
    requires y >= 1970 && 0 <= m < 12 && FirstOf(y, m) <= day < FirstOf(y, m) + MonthLength(y, m)
    ensures Year(day) == y && Month(day) == m + 1 && DayOfMonth(day) == day - FirstOf(y, m) + 1
  {
    var k := 12 * (y - 1970) + m;
    assert k / 12 == y - 1970 && k % 12 == m;
    MonthDayClosed(k);
    assert MonthDay(k + 1) == MonthDay(k) + MonthLength(y, m);
    MonthIsUnique(day, k);
  }

  lemma Digits2024()
    ensures Decimal(2024) == "2024"
  {
    assert Decimal(20) == Decimal(2) + "0" == "20";
    assert Decimal(202) == Decimal(20) + "2" == "202";
    assert Decimal(2024) == Decimal(202) + "4";
  }

  lemma DateHasNoColon(day: nat)
    ensures ':' !in Date(day) && ':' !in YearMonth(day)
  {
    var y := Decimal(Year(day));
    assert forall i :: 0 <= i < |y| ==> y[i] != ':';
  }

  lemma Pad2Injective(m: nat, n: nat)
    requires m < 100 && n < 100 && Pad2(m) == Pad2(n)
    ensures m == n
  {
    assert Pad2(m)[0] == Pad2(n)[0] && Pad2(m)[1] == Pad2(n)[1];
  }

  lemma SuffixParts(a: string, b: string, c: string, d: string, sep: string)
    requires a + sep + b == c + sep + d && |b| == |d|
    ensures a == c && b == d
  {
    var s, t := a + sep + b, c + sep + d;
    assert |a| == |c|;
    assert a == s[..|a|] && c == t[..|c|];
    assert b == s[|a| + |sep|..] && d == t[|c| + |sep|..];
  }

  lemma YearMonthInjective(p: nat, q: nat)
    ensures YearMonth(p) == YearMonth(q) <==> MonthOf(p) == MonthOf(q)
  {
    if YearMonth(p) == YearMonth(q) {
      SuffixParts(Decimal(Year(p)), Pad2(Month(p)), Decimal(Year(q)), Pad2(Month(q)), "-");
      Pad2Injective(Month(p), Month(q));
      DecimalInjective(Year(p), Year(q));
    }
  }

  lemma DateInjective(p: nat, q: nat)
    ensures Date(p) == Date(q) <==> p == q
  {
    if Date(p) == Date(q) {
      SuffixParts(YearMonth(p), Pad2(DayOfMonth(p)), YearMonth(q), Pad2(DayOfMonth(q)), "-");
      Pad2Injective(DayOfMonth(p), DayOfMonth(q));
      YearMonthInjective(p, q);
    }
  }
}
