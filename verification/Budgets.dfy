/** Budget entities: period keys, counter keys, remaining time, limits and alert thresholds. */
module Budgets {
  import opened Wrappers
  import opened Calendar

  datatype Scope = TenantScope | KeyScope | ModelScope

  datatype PeriodType = Monthly | Daily | Custom | Other

  /** `tenantId`, `keyId` and `model` say what is bounded; amounts are exact reals. */
  datatype Budget = Budget(
    id: string, tenantId: string, keyId: string, model: string,
    scope: Scope, period: PeriodType, customDays: int,
    hardLimit: Option<real>, notifyAt: seq<real>)

  // ---------- time ----------

  // Instants are nanoseconds since 1970-01-01T00:00:00Z.
  const SECOND: int := 1_000_000_000
  const DAY: int := 86_400_000_000_000
  const MAX_DURATION: int := 9_223_372_036_854_775_807

  /** Calendar day of an instant: whole seconds, then whole days. */
  function DayOf(t: nat): nat {
    t / SECOND / 86400
  }

  lemma DayBounds(t: nat, d: nat)
    ensures DayOf(t) == d <==> d * DAY <= t < (d + 1) * DAY
  {
    var s := t / SECOND;
    assert s * SECOND <= t < (s + 1) * SECOND;
  }

  /** Difference of two instants, saturating at the largest duration. */
  function Sub(end: nat, now: nat): int {
    if end - now > MAX_DURATION then MAX_DURATION else end - now
  }

  function WindowDays(b: Budget): (n: int)
    ensures n > 0
  {
    if b.customDays <= 0 then 30 else b.customDays
  }

  /** First day of the custom window a day falls in. */
  function WindowStart(b: Budget, day: nat): nat {
    day / WindowDays(b) * WindowDays(b)
  }

  function PeriodKey(b: Budget, now: nat): string {
    match b.period
    case Monthly => YearMonth(DayOf(now))
    case Daily => Date(DayOf(now))
    case Custom => Date(WindowStart(b, DayOf(now)))
    case Other => Date(DayOf(now))
  }

  /** Start of the next period. */
  function PeriodEnd(b: Budget, now: nat): nat {
    match b.period
    case Monthly => MonthDay(MonthOf(DayOf(now)) + 1) * DAY
    case Daily => (DayOf(now) + 1) * DAY
    case Custom => (WindowStart(b, DayOf(now)) + WindowDays(b)) * DAY
    case Other => now + DAY
  }

  function PeriodTTL(b: Budget, now: nat): int {
    if b.period.Other? then DAY else Sub(PeriodEnd(b, now), now)
  }

  /** Number of the period an instant falls in. */
  function PeriodIndex(b: Budget, now: nat): nat {
    match b.period
    case Monthly => MonthOf(DayOf(now))
    case Custom => DayOf(now) / WindowDays(b)
    case _ => DayOf(now)
  }

  lemma SameKeySamePeriod(b: Budget, t: nat, u: nat)
    ensures PeriodKey(b, t) == PeriodKey(b, u) <==> PeriodIndex(b, t) == PeriodIndex(b, u)
  {
    match b.period {
      case Monthly => YearMonthInjective(DayOf(t), DayOf(u));
      case Custom =>
        DateInjective(WindowStart(b, DayOf(t)), WindowStart(b, DayOf(u)));
        SameWindow(DayOf(t), DayOf(u), WindowDays(b));
      case _ => DateInjective(DayOf(t), DayOf(u));
    }
  }

  lemma {:induction false} MulStrict(a: nat, b: nat, n: int)
    requires n > 0 && a < b
    ensures a * n + n <= b * n
    decreases b
  {
    if a + 1 < b {
      MulStrict(a, b - 1, n);
      assert b * n == (b - 1) * n + n;
    } else {
      assert b * n == a * n + n;
    }
  }

  lemma SameWindow(p: nat, q: nat, n: int)
    requires n > 0
    ensures p / n * n == q / n * n <==> p / n == q / n
  {
  }

  /** An instant is before the end of a period exactly when its day is before the last one. */
  lemma BeforeDay(u: nat, d: nat)
    ensures u < d * DAY <==> DayOf(u) < d
  {
    DayBounds(u, DayOf(u));
  }

  /** From `t` on, the periods are exactly `[.., PeriodEnd)`: the index stays until then and is
      larger ever after. */
  lemma PeriodTiles(b: Budget, t: nat, u: nat)
    requires !b.period.Other? && t <= u
    ensures u < PeriodEnd(b, t) <==> PeriodIndex(b, u) == PeriodIndex(b, t)
  {
    var p, q := DayOf(t), DayOf(u);
    match b.period {
      case Monthly => MonthTiles(t, u, MonthOf(p));
      case Custom => WindowTiles(t, u, WindowDays(b));
      case Daily => BeforeDay(u, p + 1);
    }
  }

  lemma MonthTiles(t: nat, u: nat, k: nat)
    requires t <= u && MonthOf(DayOf(t)) == k
    ensures u < MonthDay(k + 1) * DAY <==> MonthOf(DayOf(u)) == k
  {
    BeforeDay(u, MonthDay(k + 1));
    MonthIsUnique(DayOf(t), k);
    MonthIsUnique(DayOf(u), k);
  }

  lemma WindowTiles(t: nat, u: nat, n: int)
    requires t <= u && n > 0
    ensures u < (DayOf(t) / n * n + n) * DAY <==> DayOf(u) / n == DayOf(t) / n
  {
    var p, q := DayOf(t), DayOf(u);
    BeforeDay(u, p / n * n + n);
    SameWindowBefore(p, q, n);
  }

  lemma SameWindowBefore(p: nat, q: nat, n: int)
    requires n > 0 && p <= q
    ensures q < p / n * n + n <==> q / n == p / n
  {
    WindowOrder(p, q, n, p / n, q / n);
  }

  lemma WindowOrder(p: nat, q: nat, n: int, a: nat, b: nat)
    requires n > 0 && p <= q && a * n <= p < a * n + n && b * n <= q < b * n + n
    ensures q < a * n + n <==> b == a
  {
    if a < b {
      MulStrict(a, b, n);
    } else if b < a {
      MulStrict(b, a, n);
    }
  }

  /** Budget periods tile time: the key is constant up to the end of the period and never
      returns afterwards, the remaining time is positive, and a counter charged at any later
      instant `u`, with the whole seconds that remained at `t` as its time to live, stays to
      within one second of the end of the period. */
  lemma PeriodsTile(b: Budget, t: nat, u: nat)
    requires !b.period.Other? && t <= u
    ensures PeriodKey(b, u) == PeriodKey(b, t) <==> u < PeriodEnd(b, t)
    ensures 0 < PeriodTTL(b, t) <= MAX_DURATION
    ensures t + PeriodTTL(b, t) == PeriodEnd(b, t) <==> PeriodEnd(b, t) - t <= MAX_DURATION
    ensures u + PeriodTTL(b, t) / SECOND * SECOND > t + PeriodTTL(b, t) - SECOND
  {
    SameKeySamePeriod(b, t, u);
    SameKeySamePeriod(b, t, t);
    PeriodTiles(b, t, u);
    PeriodTiles(b, t, t);
  }

  /** A custom window has as many days as are set, and 30 when none are. */
  lemma WindowLength(b: Budget, t: nat)
    requires b.period.Custom?
    ensures var n := if b.customDays > 0 then b.customDays else 30;
      PeriodEnd(b, t) == (DayOf(t) / n + 1) * (n * DAY) && PeriodEnd(b, t) - n * DAY <= t < PeriodEnd(b, t)
  {
    var n := if b.customDays > 0 then b.customDays else 30;
    var w := DayOf(t) / n;
    DayBounds(t, DayOf(t));
    assert PeriodEnd(b, t) == (w * n + n) * DAY == (w + 1) * (n * DAY);
  }

  /** Windows of up to 106751 days, and all months and days, fit the duration type. */
  lemma PeriodFits(b: Budget, t: nat)
    requires !b.period.Other? && (b.period.Custom? ==> b.customDays <= 106751)
    ensures PeriodEnd(b, t) - t <= MAX_DURATION
  {
    var p := DayOf(t);
    DayBounds(t, p);
    match b.period {
      case Monthly =>
        assert MonthDay(MonthOf(p) + 1) <= p + 31;
      case Custom =>
      case Daily =>
    }
  }

  /** A budget of any other type keeps its key for less than the 24 hours it grants its counter,
      except at midnight. */
  lemma OtherPeriodsDrift(b: Budget, t: nat)
    requires b.period.Other?
    ensures (forall u: nat :: t <= u < t + PeriodTTL(b, t) ==> PeriodKey(b, u) == PeriodKey(b, t)) <==>
      t == DayOf(t) * DAY
  {
    DayBounds(t, DayOf(t));
    if t == DayOf(t) * DAY {
      forall u: nat | t <= u < t + DAY ensures PeriodKey(b, u) == PeriodKey(b, t) {
        DayBounds(u, DayOf(t));
      }
    } else {
      var u := (DayOf(t) + 1) * DAY;
      DayBounds(u, DayOf(t) + 1);
      DateInjective(DayOf(u), DayOf(t));
      assert t <= u < t + PeriodTTL(b, t) && PeriodKey(b, u) != PeriodKey(b, t);
    }
  }

  /** So for a budget stored as "weekly", a type the code does not know: at noon its counter is given
      24 hours, and at midnight, 12 hours later, its key is a new one. */
  lemma WeeklyAtNoon(b: Budget)
    requires b.period.Other?
    ensures PeriodTTL(b, DAY / 2) == DAY && PeriodKey(b, DAY) != PeriodKey(b, DAY / 2)
  {
    DayBounds(DAY / 2, 0);
    DayBounds(DAY, 1);
    DateInjective(DayOf(DAY), DayOf(DAY / 2));
  }

  // ---------- counter keys ----------

  function ScopeName(s: Scope): string {
    match s
    case TenantScope => "tenant"
    case KeyScope => "key"
    case ModelScope => "model"
  }

  function Entity(b: Budget): string {
    match b.scope
    case TenantScope => b.tenantId
    case KeyScope => b.keyId
    case ModelScope => b.tenantId + ":" + b.model
  }

  /** A counter key without its period. */
  function Named(b: Budget): string {
    "budget:" + ScopeName(b.scope) + ":" + Entity(b)
  }

  function CounterKey(b: Budget, now: nat): string {
    Named(b) + ":" + PeriodKey(b, now)
  }

  /** Counter keys as they are printed, up to the period. */
  lemma KeysPrinted(b: Budget, now: nat)
    requires b.tenantId == "acme" && b.keyId == "mc_1" && b.model == "gpt-4"
    ensures CounterKey(b, now) == Printed(b.scope) + ":" + PeriodKey(b, now)
  {
    assert Named(b) == Printed(b.scope);
  }

  function Printed(s: Scope): string {
    match s
    case TenantScope => "budget:tenant:acme"
    case KeyScope => "budget:key:mc_1"
    case ModelScope => "budget:model:acme:gpt-4"
  }

  /** A budget changes its counter exactly when its period ends. */
  lemma CounterPerPeriod(b: Budget, t: nat, u: nat)
    requires !b.period.Other? && t <= u
    ensures CounterKey(b, u) == CounterKey(b, t) <==> u < PeriodEnd(b, t)
  {
    PeriodsTile(b, t, u);
    var head := Named(b) + ":";
    assert CounterKey(b, u)[|head|..] == PeriodKey(b, u);
    assert CounterKey(b, t)[|head|..] == PeriodKey(b, t);
  }

  /** Nothing but the last colon separates such a key from what is before it. */
  lemma KeyHasNoColon(b: Budget, t: nat)
    ensures ':' !in PeriodKey(b, t)
  {
    DateHasNoColon(DayOf(t));
    DateHasNoColon(WindowStart(b, DayOf(t)));
  }

  lemma CutAtLast(a: string, b: string, c: string, d: string)
    requires a + ":" + b == c + ":" + d && ':' !in b && ':' !in d
    ensures a == c && b == d
  {
    var s, t := a + ":" + b, c + ":" + d;
    assert s[|a|] == ':' && t[|c|] == ':';
    assert forall i :: |a| < i < |s| ==> s[i] == b[i - |a| - 1];
    assert forall i :: |c| < i < |t| ==> t[i] == d[i - |c| - 1];
    assert a == s[..|a|] && c == t[..|c|] && b == s[|a| + 1..] && d == t[|c| + 1..];
  }

  lemma CutAtFirst(a: string, b: string, c: string, d: string)
    requires a + ":" + b == c + ":" + d && ':' !in a && ':' !in c
    ensures a == c && b == d
  {
    var s, t := a + ":" + b, c + ":" + d;
    assert s[|a|] == ':' && t[|c|] == ':';
    assert forall i :: 0 <= i < |a| ==> s[i] == a[i];
    assert forall i :: 0 <= i < |c| ==> t[i] == c[i];
    assert a == s[..|a|] && c == t[..|c|] && b == s[|a| + 1..] && d == t[|c| + 1..];
  }

  /** Both budgets bound the same tenant, key, or model of a tenant. */
  predicate SameBound(b: Budget, c: Budget) {
    b.scope == c.scope &&
    match b.scope
    case TenantScope => b.tenantId == c.tenantId
    case KeyScope => b.keyId == c.keyId
    case ModelScope => b.tenantId == c.tenantId && b.model == c.model
  }

  /** Two budgets share a counter exactly when they bound the same and are in periods of the same key. */
  lemma CounterKeyExact(b: Budget, c: Budget, t: nat, u: nat)
    requires b.scope.ModelScope? ==> ':' !in b.tenantId
    requires c.scope.ModelScope? ==> ':' !in c.tenantId
    ensures CounterKey(b, t) == CounterKey(c, u) <==> SameBound(b, c) && PeriodKey(b, t) == PeriodKey(c, u)
  {
    if CounterKey(b, t) == CounterKey(c, u) {
      KeyHasNoColon(b, t);
      KeyHasNoColon(c, u);
      CutAtLast(Named(b), PeriodKey(b, t), Named(c), PeriodKey(c, u));
      NamedExact(b, c);
    }
  }

  lemma NamedExact(b: Budget, c: Budget)
    requires Named(b) == Named(c)
    requires b.scope.ModelScope? ==> ':' !in b.tenantId
    requires c.scope.ModelScope? ==> ':' !in c.tenantId
    ensures SameBound(b, c)
  {
    assert Named(b)[7..] == ScopeName(b.scope) + ":" + Entity(b);
    assert Named(c)[7..] == ScopeName(c.scope) + ":" + Entity(c);
    CutAtFirst(ScopeName(b.scope), Entity(b), ScopeName(c.scope), Entity(c));
    assert ScopeName(b.scope)[0] == ScopeName(c.scope)[0];
    if b.scope.ModelScope? {
      CutAtFirst(b.tenantId, b.model, c.tenantId, c.model);
    }
  }

  // ---------- limits and thresholds ----------

  predicate HardExceeded(b: Budget, spent: real) {
    b.hardLimit.Some? && spent >= b.hardLimit.value
  }

  function Threshold(limit: real, pct: real): real {
    limit * pct / 100.0
  }

  predicate Crosses(limit: real, pct: real, prev: real, now: real) {
    0.0 <= pct <= 100.0 && prev < Threshold(limit, pct) <= now
  }

  /** The percentages of `ps` crossed between two spends, in list order. */
  function Crossed(limit: real, ps: seq<real>, prev: real, now: real): seq<real> {
    if ps == [] then []
    else
      var n := |ps| - 1;
      Crossed(limit, ps[..n], prev, now) + (if Crosses(limit, ps[n], prev, now) then [ps[n]] else [])
  }

  function Alerts(b: Budget, prev: real, now: real): seq<real> {
    if b.hardLimit.None? || b.hardLimit.value <= 0.0 then []
    else Crossed(b.hardLimit.value, b.notifyAt, prev, now)
  }

  function Count(ps: seq<real>, pct: real): nat {
    multiset(ps)[pct]
  }

  /** Each list entry is reported exactly when its own threshold was crossed. */
  lemma {:induction false} CrossedCounts(limit: real, ps: seq<real>, prev: real, now: real, pct: real)
    ensures Count(Crossed(limit, ps, prev, now), pct) ==
      if Crosses(limit, pct, prev, now) then Count(ps, pct) else 0
  {
    if ps != [] {
      var n := |ps| - 1;
      CrossedCounts(limit, ps[..n], prev, now, pct);
      assert ps == ps[..n] + [ps[n]];
    }
  }

  lemma CrossedIs(b: Budget, prev: real, now: real, pct: real)
    ensures pct in Alerts(b, prev, now) <==>
      pct in b.notifyAt && 0.0 <= pct <= 100.0 && b.hardLimit.Some? && b.hardLimit.value > 0.0 &&
      prev * 100.0 < b.hardLimit.value * pct <= now * 100.0
  {
    if b.hardLimit.Some? && b.hardLimit.value > 0.0 {
      var limit := b.hardLimit.value;
      CrossedCounts(limit, b.notifyAt, prev, now, pct);
      assert Threshold(limit, pct) * 100.0 == limit * pct;
    }
  }

  method CrossedThresholds(b: Budget, prev: real, now: real) returns (crossed: seq<real>)
    ensures crossed == Alerts(b, prev, now)
    ensures forall pct :: pct in crossed <==>
      pct in b.notifyAt && 0.0 <= pct <= 100.0 && b.hardLimit.Some? && b.hardLimit.value > 0.0 &&
      prev * 100.0 < b.hardLimit.value * pct <= now * 100.0
  {
    forall pct { CrossedIs(b, prev, now, pct); }
    if b.hardLimit.None? || b.hardLimit.value <= 0.0 {
      return [];
    }
    crossed := [];
    var i := 0;
    while i < |b.notifyAt|
      invariant 0 <= i <= |b.notifyAt|
      invariant crossed == Crossed(b.hardLimit.value, b.notifyAt[..i], prev, now)
    {
      var pct := b.notifyAt[i];
      assert b.notifyAt[..i + 1][..i] == b.notifyAt[..i];
      i := i + 1;
      if pct < 0.0 || pct > 100.0 {
        continue;
      }
      var threshold := b.hardLimit.value * pct / 100.0;
      if prev < threshold && now >= threshold {
        crossed := crossed + [pct];
      }
    }
    assert b.notifyAt[..i] == b.notifyAt;
  }
}
