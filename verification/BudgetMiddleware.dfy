/** The budget handler's own loops: every call is a run of the step system of BudgetRuns. */
module BudgetMiddleware {
  import opened Sequences
  import opened Wrappers
  import opened Folding
  import opened Budgets
  import opened BudgetRuns

  function Last(trace: seq<State>): State
    requires trace != []
  {
    trace[|trace| - 1]
  }

  /** How many of the first `n` successful charges also count for the virtual key `k` itself. */
  function KeyHits(ts: seq<Target>, incOk: seq<bool>, k: string, n: nat): nat
    requires n <= |ts| == |incOk|
  {
    if n == 0 then 0 else KeyHits(ts, incOk, k, n - 1) + (if incOk[n - 1] && ForKey(ts[n - 1], k) then 1 else 0)
  }

  predicate ForKey(t: Target, k: string) {
    t.budget.scope.KeyScope? && t.budget.keyId != "" && t.budget.keyId == k
  }

  /** How many of the first `n` successful charges go to the counter `key`. */
  function Hits(ts: seq<Target>, incOk: seq<bool>, key: string, n: nat): nat
    requires n <= |ts| == |incOk|
  {
    if n == 0 then 0 else Hits(ts, incOk, key, n - 1) + (if incOk[n - 1] && ts[n - 1].key == key then 1 else 0)
  }

  /** `h` charges of the same cost. */
  function Owed(h: nat, cost: real): real {
    h as real * cost
  }

  lemma OneMore(h: nat, cost: real)
    ensures Owed(h + 1, cost) == Owed(h, cost) + cost
  {
    assert (h + 1) as real == h as real + 1.0;
  }

  /** Every counter grew by the cost of the first `n` successful charges to it. */
  ghost predicate CountersGrew(c0: map<string, real>, c1: map<string, real>, ts: seq<Target>, incOk: seq<bool>,
                               n: nat, cost: real)
    requires n <= |ts| == |incOk|
  {
    forall key :: Get(c1, key) == Get(c0, key) + Owed(Hits(ts, incOk, key, n), cost)
  }

  /** Every virtual key's own spend grew by its share of the first `n` successful charges. */
  ghost predicate KeysGrew(c0: map<string, real>, c1: map<string, real>, ts: seq<Target>, incOk: seq<bool>,
                           n: nat, cost: real)
    requires n <= |ts| == |incOk|
  {
    c1.Keys == c0.Keys && forall k :: k in c0 ==> c1[k] == c0[k] + Owed(KeyHits(ts, incOk, k, n), cost)
  }

  function CountersNext(c: map<string, real>, t: Target, cost: real, ok: bool): map<string, real> {
    if ok then c[t.key := Get(c, t.key) + cost] else c
  }

  function KeysNext(m: map<string, real>, t: Target, cost: real, ok: bool): map<string, real> {
    if ok && ForKey(t, t.budget.keyId) && t.budget.keyId in m
    then m[t.budget.keyId := m[t.budget.keyId] + cost] else m
  }

  lemma GrowNext(c0: map<string, real>, c: map<string, real>, m0: map<string, real>, m: map<string, real>,
                 ts: seq<Target>, incOk: seq<bool>, n: nat, cost: real)
    requires n < |ts| == |incOk| && CountersGrew(c0, c, ts, incOk, n, cost) && KeysGrew(m0, m, ts, incOk, n, cost)
    ensures CountersGrew(c0, CountersNext(c, ts[n], cost, incOk[n]), ts, incOk, n + 1, cost)
    ensures KeysGrew(m0, KeysNext(m, ts[n], cost, incOk[n]), ts, incOk, n + 1, cost)
  {
    forall key ensures Get(CountersNext(c, ts[n], cost, incOk[n]), key) ==
      Get(c0, key) + Owed(Hits(ts, incOk, key, n + 1), cost) {
      OneMore(Hits(ts, incOk, key, n), cost);
    }
    forall k | k in m0
      ensures KeysNext(m, ts[n], cost, incOk[n])[k] == m0[k] + Owed(KeyHits(ts, incOk, k, n + 1), cost)
    {
      OneMore(KeyHits(ts, incOk, k, n), cost);
    }
  }

  lemma GrowNone(c: map<string, real>, m: map<string, real>, ts: seq<Target>, incOk: seq<bool>, cost: real)
    requires |ts| == |incOk|
    ensures CountersGrew(c, c, ts, incOk, 0, cost) && KeysGrew(m, m, ts, incOk, 0, cost)
  {
    assert Owed(0, cost) == 0.0;
  }

  /** `IsRun`, kept folded. */
  ghost predicate RunSoFar(trace: seq<State>, steps: seq<Step>) {
    trace != [] && forall k :: Unfold(k) ==> IsRun(trace, steps)
  }

  lemma RunGrows(trace: seq<State>, steps: seq<Step>, e: Step)
    requires RunSoFar(trace, steps) && Enabled(Last(trace), e)
    ensures RunSoFar(trace + [Next(Last(trace), e)], steps + [e])
  {
    assert Unfold(0);
  }

  /** `SerialSteps`, kept folded. */
  ghost predicate SerialSoFar(steps: seq<Step>) {
    forall k :: Unfold(k) ==> SerialSteps(steps)
  }

  lemma SerialGrows(steps: seq<Step>, e: Step)
    requires SerialSoFar(steps)
    ensures !Increments(e) ==> SerialSoFar(steps + [e])
    ensures e.Increment? && steps != [] && steps[|steps| - 1] == ReadPrev(e.id, true) ==> SerialSoFar(steps + [e])
  {
    assert Unfold(0);
  }

  /** `Undisturbed`, kept folded. */
  ghost predicate Calmly(steps: seq<Step>) {
    forall k :: Unfold(k) ==> Undisturbed(steps)
  }

  lemma CalmlyGrows(steps: seq<Step>, e: Step)
    requires Calmly(steps) && !e.Expire? && !e.LostReply?
    ensures Calmly(steps + [e])
  {
    assert Unfold(0);
  }

  /** Ids from `n` on are free; kept folded. */
  ghost predicate IdsBelow(s: State, n: nat) {
    forall k :: Unfold(k) ==> forall id :: id in s.requests ==> id < n
  }

  lemma IdsKept(s: State, n: nat, e: Step)
    requires IdsBelow(s, n) && Enabled(s, e) && (e.Arrive? ==> e.id < n)
    ensures IdsBelow(Next(s, e), n)
  {
    assert Unfold(0);
  }

  lemma IdsFree(s: State, n: nat)
    requires IdsBelow(s, n)
    ensures n !in s.requests && IdsBelow(s, n + 1)
  {
    assert Unfold(0);
  }

  // ---------- what one call does ----------

  /** The counters after the first `n` increments. */
  function CountersAfter(c: map<string, real>, ts: seq<Target>, cost: real, incOk: seq<bool>, n: nat): map<string, real>
    requires n <= |ts| == |incOk|
  {
    if n == 0 then c else CountersNext(CountersAfter(c, ts, cost, incOk, n - 1), ts[n - 1], cost, incOk[n - 1])
  }

  function ChargeOf(id: nat, t: Target, cost: real, ok: bool): seq<Charge> {
    if ok then [Charge(id, t.budget.id, t.key, cost)] else []
  }

  /** What the first `n` successful increments record, one entry each. */
  function ChargesOf(id: nat, ts: seq<Target>, cost: real, incOk: seq<bool>, n: nat): seq<Charge>
    requires n <= |ts| == |incOk|
  {
    if n == 0 then [] else ChargesOf(id, ts, cost, incOk, n - 1) + ChargeOf(id, ts[n - 1], cost, incOk[n - 1])
  }

  function AlertsOfOne(c: map<string, real>, t: Target, cost: real, prevOk: bool, ok: bool): seq<Alert> {
    var prev := if prevOk then Get(c, t.key) else 0.0;
    if ok then AlertsFor(t.budget, Alerts(t.budget, prev, Get(c, t.key) + cost)) else []
  }

  /** What the first `n` increments notify; a failed read of the spend before counts as zero. */
  function AlertsOf(c: map<string, real>, ts: seq<Target>, cost: real, prevOk: seq<bool>, incOk: seq<bool>, n: nat):
    seq<Alert>
    requires n <= |ts| == |incOk| == |prevOk|
  {
    if n == 0 then []
    else
      AlertsOf(c, ts, cost, prevOk, incOk, n - 1) +
      AlertsOfOne(CountersAfter(c, ts, cost, incOk, n - 1), ts[n - 1], cost, prevOk[n - 1], incOk[n - 1])
  }

  function KeysAfter(m: map<string, real>, ts: seq<Target>, cost: real, incOk: seq<bool>, n: nat): map<string, real>
    requires n <= |ts| == |incOk|
  {
    if n == 0 then m else KeysNext(KeysAfter(m, ts, cost, incOk, n - 1), ts[n - 1], cost, incOk[n - 1])
  }

  lemma {:induction false} GrewAfter(c: map<string, real>, m: map<string, real>, ts: seq<Target>, cost: real,
                                     incOk: seq<bool>, n: nat)
    requires n <= |ts| == |incOk|
    ensures CountersGrew(c, CountersAfter(c, ts, cost, incOk, n), ts, incOk, n, cost)
    ensures KeysGrew(m, KeysAfter(m, ts, cost, incOk, n), ts, incOk, n, cost)
  {
    if n == 0 {
      GrowNone(c, m, ts, incOk, cost);
    } else {
      GrewAfter(c, m, ts, cost, incOk, n - 1);
      GrowNext(c, CountersAfter(c, ts, cost, incOk, n - 1), m, KeysAfter(m, ts, cost, incOk, n - 1),
               ts, incOk, n - 1, cost);
    }
  }

  /** The middleware's stores, with the steps recorded so far. */
  datatype Books = Books(counters: map<string, real>, keySpent: map<string, real>, charges: seq<Charge>,
                         alerts: seq<Alert>, steps: seq<Step>)

  /** The books after the first `n` charges of a request. */
  ghost predicate InCharge(b0: Books, b: Books, id: nat, ts: seq<Target>, cost: real, prevOk: seq<bool>,
                           incOk: seq<bool>, n: nat)
  {
    forall k :: Unfold(k) ==>
      n <= |ts| == |incOk| == |prevOk| &&
      b == Books(CountersAfter(b0.counters, ts, cost, incOk, n), KeysAfter(b0.keySpent, ts, cost, incOk, n),
                 b0.charges + ChargesOf(id, ts, cost, incOk, n),
                 b0.alerts + AlertsOf(b0.counters, ts, cost, prevOk, incOk, n),
                 b0.steps + ChargeSteps(id, prevOk, incOk, n))
  }

  /** The books after one charge. */
  function BooksNext(b: Books, id: nat, t: Target, cost: real, prevOk: bool, ok: bool): Books {
    Books(CountersNext(b.counters, t, cost, ok), KeysNext(b.keySpent, t, cost, ok),
          b.charges + ChargeOf(id, t, cost, ok),
          b.alerts + AlertsOfOne(b.counters, t, cost, prevOk, ok), b.steps + [ReadPrev(id, prevOk), Increment(id, ok)])
  }

  lemma ChargingStart(b: Books, id: nat, ts: seq<Target>, cost: real, prevOk: seq<bool>, incOk: seq<bool>)
    requires |ts| == |incOk| == |prevOk|
    ensures InCharge(b, b, id, ts, cost, prevOk, incOk, 0)
  {
  }

  lemma ChargingNext(b0: Books, b: Books, id: nat, ts: seq<Target>, cost: real, prevOk: seq<bool>, incOk: seq<bool>,
                     n: nat)
    requires InCharge(b0, b, id, ts, cost, prevOk, incOk, n) && n < |ts| == |incOk| == |prevOk|
    ensures InCharge(b0, BooksNext(b, id, ts[n], cost, prevOk[n], incOk[n]), id, ts, cost, prevOk, incOk, n + 1)
  {
    assert Unfold(0);
    var t := ts[n];
    Assoc(b0.charges, ChargesOf(id, ts, cost, incOk, n), ChargeOf(id, t, cost, incOk[n]));
    Assoc(b0.alerts, AlertsOf(b0.counters, ts, cost, prevOk, incOk, n),
          AlertsOfOne(b.counters, t, cost, prevOk[n], incOk[n]));
    Assoc(b0.steps, ChargeSteps(id, prevOk, incOk, n), [ReadPrev(id, prevOk[n]), Increment(id, incOk[n])]);
  }

  lemma ChargingEnd(b0: Books, b: Books, id: nat, ts: seq<Target>, cost: real, prevOk: seq<bool>, incOk: seq<bool>)
    requires |ts| == |incOk| == |prevOk| && InCharge(b0, b, id, ts, cost, prevOk, incOk, |ts|)
    ensures b.charges == b0.charges + ChargesOf(id, ts, cost, incOk, |ts|)
    ensures b.alerts == b0.alerts + AlertsOf(b0.counters, ts, cost, prevOk, incOk, |ts|)
    ensures b.steps == b0.steps + ChargeSteps(id, prevOk, incOk, |ts|)
    ensures CountersGrew(b0.counters, b.counters, ts, incOk, |ts|, cost)
    ensures KeysGrew(b0.keySpent, b.keySpent, ts, incOk, |ts|, cost)
  {
    assert Unfold(0);
    GrewAfter(b0.counters, b0.keySpent, ts, cost, incOk, |ts|);
  }

  /** The checks from the `i`th budget on, up to the first that rejects. */
  function CheckSteps(id: nat, ts: seq<Target>, checkOk: seq<bool>, counters: map<string, real>, i: nat): seq<Step>
    requires i <= |ts| == |checkOk|
    decreases |ts| - i
  {
    if i == |ts| then []
    else [Check(id, checkOk[i])] +
         if Rejects(ts[i], checkOk[i], counters) then [] else CheckSteps(id, ts, checkOk, counters, i + 1)
  }

  function ChargeSteps(id: nat, prevOk: seq<bool>, incOk: seq<bool>, n: nat): seq<Step>
    requires n <= |prevOk| == |incOk|
  {
    if n == 0 then []
    else ChargeSteps(id, prevOk, incOk, n - 1) + [ReadPrev(id, prevOk[n - 1]), Increment(id, incOk[n - 1])]
  }

  /** The steps of one call: all checks, then the end of the response, then all charges. */
  function CallSteps(id: nat, matched: seq<Budget>, now: nat, cost: real, checkOk: seq<bool>, prevOk: seq<bool>,
                     incOk: seq<bool>, counters: map<string, real>, rejected: bool): seq<Step>
    requires |checkOk| == |prevOk| == |incOk| == |matched|
  {
    if matched == [] then []
    else
      [Arrive(id, matched, now)] + CheckSteps(id, Targets(matched, now), checkOk, counters, 0) +
      if rejected then []
      else [Finish(id, cost)] + if cost <= 0.0 then [] else ChargeSteps(id, prevOk, incOk, |matched|)
  }

  /** `HandledAs`, kept folded. */
  ghost predicate Handled(b0: Books, b: Books, id: nat, matched: seq<Budget>, now: nat, cost: real, checkOk: seq<bool>,
                          prevOk: seq<bool>, incOk: seq<bool>, rejected: bool)
    requires |checkOk| == |prevOk| == |incOk| == |matched|
  {
    forall k :: Outer(k) ==> HandledAs(b0, b, id, matched, now, cost, checkOk, prevOk, incOk, rejected)
  }

  /** What one call does to the books: it rejects exactly when some counter that could be read is over
      its hard limit; otherwise every successful increment adds the cost to its counter, to its virtual
      key, and one record; and the steps of the call follow those recorded before. */
  ghost predicate HandledAs(b0: Books, b: Books, id: nat, matched: seq<Budget>, now: nat, cost: real,
                            checkOk: seq<bool>, prevOk: seq<bool>, incOk: seq<bool>, rejected: bool)
    requires |checkOk| == |prevOk| == |incOk| == |matched|
  {
    var ts := Targets(matched, now);
    b.steps == b0.steps + CallSteps(id, matched, now, cost, checkOk, prevOk, incOk, b0.counters, rejected) &&
    (forall i :: 0 <= i < |ts| ==> ts[i].budget == matched[i] && ts[i].key == CounterKey(matched[i], now)) &&
    (rejected <==> exists i :: 0 <= i < |ts| && checkOk[i] && OverLimit(ts[i], b0.counters)) &&
    (rejected || cost <= 0.0 ==> b == b0.(steps := b.steps)) &&
    (!rejected && cost > 0.0 ==>
      CountersGrew(b0.counters, b.counters, ts, incOk, |ts|, cost) &&
      KeysGrew(b0.keySpent, b.keySpent, ts, incOk, |ts|, cost) &&
      b.charges == b0.charges + ChargesOf(id, ts, cost, incOk, |ts|) &&
      b.alerts == b0.alerts + AlertsOf(b0.counters, ts, cost, prevOk, incOk, |ts|))
  }

  lemma HandledGrows(b0: Books, b: Books, id: nat, matched: seq<Budget>, now: nat, cost: real, checkOk: seq<bool>,
                     prevOk: seq<bool>, incOk: seq<bool>, rejected: bool)
    requires |checkOk| == |prevOk| == |incOk| == |matched|
    requires Handled(b0, b, id, matched, now, cost, checkOk, prevOk, incOk, rejected)
    ensures HandledAs(b0, b, id, matched, now, cost, checkOk, prevOk, incOk, rejected) && b0.steps <= b.steps
  {
    assert Outer(0);
  }

  lemma HandledNone(b: Books, id: nat, now: nat, cost: real)
    ensures Handled(b, b, id, [], now, cost, [], [], [], false)
  {
    assert Outer(0);
    var ts := Targets([], now);
    GrowNone(b.counters, b.keySpent, ts, [], cost);
  }

  /** Steps of a request that has arrived and been checked. */
  ghost predicate Checked(b0: Books, b: Books, id: nat, matched: seq<Budget>, now: nat, checkOk: seq<bool>)
    requires |checkOk| == |matched|
  {
    forall k :: Outer(k) ==>
      b == b0.(steps := b0.steps + [Arrive(id, matched, now)] +
                        CheckSteps(id, Targets(matched, now), checkOk, b0.counters, 0))
  }

  lemma CheckedNow(b0: Books, b: Books, id: nat, matched: seq<Budget>, now: nat, checkOk: seq<bool>)
    requires |checkOk| == |matched| && b == b0.(steps := b.steps)
    requires b.steps ==
             b0.steps + [Arrive(id, matched, now)] + CheckSteps(id, Targets(matched, now), checkOk, b0.counters, 0)
    ensures Checked(b0, b, id, matched, now, checkOk)
  {
  }

  lemma HandledRejected(b0: Books, b: Books, id: nat, matched: seq<Budget>, now: nat, cost: real, checkOk: seq<bool>,
                        prevOk: seq<bool>, incOk: seq<bool>)
    requires |checkOk| == |prevOk| == |incOk| == |matched| && matched != [] && Checked(b0, b, id, matched, now, checkOk)
    requires var ts := Targets(matched, now); exists i :: 0 <= i < |ts| && Rejects(ts[i], checkOk[i], b0.counters)
    ensures Handled(b0, b, id, matched, now, cost, checkOk, prevOk, incOk, true)
  {
    assert Outer(0);
    RejectsOver(Targets(matched, now), checkOk, b0.counters);
    var checks := CheckSteps(id, Targets(matched, now), checkOk, b0.counters, 0);
    Assoc(b0.steps, [Arrive(id, matched, now)], checks);
    assert [Arrive(id, matched, now)] + checks + [] == [Arrive(id, matched, now)] + checks;
  }

  lemma HandledServed(b0: Books, b1: Books, b2: Books, b: Books, id: nat, matched: seq<Budget>, now: nat, cost: real,
                      checkOk: seq<bool>, prevOk: seq<bool>, incOk: seq<bool>)
    requires |checkOk| == |prevOk| == |incOk| == |matched| && matched != []
    requires Checked(b0, b1, id, matched, now, checkOk)
    requires b2 == b1.(steps := b1.steps + [Finish(id, cost)])
    requires var ts := Targets(matched, now);
      (forall i :: 0 <= i < |ts| ==> !Rejects(ts[i], checkOk[i], b0.counters)) &&
      if cost <= 0.0 then b == b2 else InCharge(b2, b, id, ts, cost, prevOk, incOk, |ts|)
    ensures Handled(b0, b, id, matched, now, cost, checkOk, prevOk, incOk, false)
  {
    assert Outer(0);
    RejectsOver(Targets(matched, now), checkOk, b0.counters);
    var ts := Targets(matched, now);
    var arrive, checks := [Arrive(id, matched, now)], CheckSteps(id, ts, checkOk, b0.counters, 0);
    var last := if cost <= 0.0 then [] else ChargeSteps(id, prevOk, incOk, |ts|);
    if cost > 0.0 {
      ChargingEnd(b2, b, id, ts, cost, prevOk, incOk);
    }
    assert b.steps == b0.steps + arrive + checks + [Finish(id, cost)] + last;
    JoinSteps(b0.steps, arrive, checks, [Finish(id, cost)], last);
  }

  lemma JoinSteps(a: seq<Step>, b: seq<Step>, c: seq<Step>, d: seq<Step>, e: seq<Step>)
    ensures a + b + c + d + e == a + (b + c + (d + e))
  {
  }

  /** The steps of the first `i` checks, none of which rejected; kept folded. */
  ghost predicate CheckedTo(before: seq<Step>, steps: seq<Step>, id: nat, ts: seq<Target>, checkOk: seq<bool>,
                            counters: map<string, real>, i: nat)
  {
    forall k :: Unfold(k) ==>
      i <= |ts| == |checkOk| &&
      steps + CheckSteps(id, ts, checkOk, counters, i) == before + CheckSteps(id, ts, checkOk, counters, 0)
  }

  lemma CheckedStart(before: seq<Step>, id: nat, ts: seq<Target>, checkOk: seq<bool>, counters: map<string, real>)
    requires |ts| == |checkOk|
    ensures CheckedTo(before, before, id, ts, checkOk, counters, 0)
  {
  }

  lemma CheckedNext(before: seq<Step>, steps: seq<Step>, id: nat, ts: seq<Target>, checkOk: seq<bool>,
                    counters: map<string, real>, i: nat)
    requires i < |ts| == |checkOk| && CheckedTo(before, steps, id, ts, checkOk, counters, i)
    ensures var next := steps + [Check(id, checkOk[i])];
      if Rejects(ts[i], checkOk[i], counters) then next == before + CheckSteps(id, ts, checkOk, counters, 0)
      else CheckedTo(before, next, id, ts, checkOk, counters, i + 1)
  {
    assert Unfold(0);
    var check := [Check(id, checkOk[i])];
    if Rejects(ts[i], checkOk[i], counters) {
      assert check + [] == check;
    } else {
      Assoc(steps, check, CheckSteps(id, ts, checkOk, counters, i + 1));
    }
  }

  lemma CheckedAll(before: seq<Step>, steps: seq<Step>, id: nat, ts: seq<Target>, checkOk: seq<bool>,
                   counters: map<string, real>)
    requires CheckedTo(before, steps, id, ts, checkOk, counters, |ts|) && |ts| == |checkOk|
    ensures steps == before + CheckSteps(id, ts, checkOk, counters, 0)
  {
    assert Unfold(0);
    assert steps + [] == steps;
  }

  /** Outcome of reading and then incrementing the `n`th budget of a request. */
  function Charged(s: State, id: nat, ts: seq<Target>, n: nat, cost: real, prevOk: bool, incOk: bool): State
    requires n < |ts|
  {
    var t := ts[n];
    State(CountersNext(s.counters, t, cost, incOk),
          s.requests[id := Request(ts, if n + 1 < |ts| then Charging(n + 1, cost, None) else Done(cost))],
          s.charges + ChargeOf(id, t, cost, incOk), s.alerts + AlertsOfOne(s.counters, t, cost, prevOk, incOk), s.lost)
  }

  lemma ChargeIsTwoSteps(s: State, id: nat, ts: seq<Target>, n: nat, cost: real, prevOk: bool, incOk: bool)
    requires n < |ts| && id in s.requests && s.requests[id] == Request(ts, Charging(n, cost, None))
    ensures Enabled(s, ReadPrev(id, prevOk))
    ensures Enabled(Next(s, ReadPrev(id, prevOk)), Increment(id, incOk))
    ensures Next(Next(s, ReadPrev(id, prevOk)), Increment(id, incOk)) == Charged(s, id, ts, n, cost, prevOk, incOk)
  {
    var s1 := Next(s, ReadPrev(id, prevOk));
    var p := AfterCharge(s1.requests[id]);
    assert s1.requests[id := s1.requests[id].(phase := p)] == s.requests[id := Request(ts, p)];
  }

  predicate Rejects(t: Target, readOk: bool, counters: map<string, real>) {
    readOk && HardExceeded(t.budget, Get(counters, t.key))
  }

  /** The spend of the budget's counter has reached its hard limit. */
  predicate OverLimit(t: Target, counters: map<string, real>) {
    match t.budget.hardLimit
    case None => false
    case Some(limit) => limit <= if t.key in counters then counters[t.key] else 0.0
  }

  lemma RejectsOver(ts: seq<Target>, checkOk: seq<bool>, counters: map<string, real>)
    requires |ts| == |checkOk|
    ensures forall i :: 0 <= i < |ts| ==>
      (Rejects(ts[i], checkOk[i], counters) <==> checkOk[i] && OverLimit(ts[i], counters))
  {
  }

  class Middleware {
    var counters: map<string, real>
    var charges: seq<Charge>
    var alerts: seq<Alert>
    var keySpent: map<string, real>
    var nextId: nat
    ghost var trace: seq<State>
    ghost var steps: seq<Step>

    /** The store is what the run so far has made of it. */
    ghost predicate Valid()
      reads this
    {
      RunSoFar(trace, steps) && Calmly(steps) &&
      counters == Last(trace).counters && charges == Last(trace).charges && alerts == Last(trace).alerts &&
      IdsBelow(Last(trace), nextId)
    }

    ghost function Now(): Books
      reads this
    {
      Books(counters, keySpent, charges, alerts, steps)
    }

    constructor (keys: map<string, real>)
      ensures Valid() && steps == [] && keySpent == keys
    {
      counters, charges, alerts, keySpent, nextId := map[], [], [], keys, 0;
      trace, steps := [START], [];
    }

    ghost method Record(e: Step)
      requires RunSoFar(trace, steps) && Enabled(Last(trace), e) && Calmly(steps) && !e.Expire? && !e.LostReply?
      modifies this`trace, this`steps
      ensures RunSoFar(trace, steps) && steps == old(steps) + [e] && Calmly(steps)
      ensures Last(trace) == Next(old(Last(trace)), e)
      ensures forall n :: IdsBelow(old(Last(trace)), n) && (e.Arrive? ==> e.id < n) ==> IdsBelow(Last(trace), n)
      ensures !Increments(e) && SerialSoFar(old(steps)) ==> SerialSoFar(steps)
    {
      RunGrows(trace, steps, e);
      CalmlyGrows(steps, e);
      if SerialSoFar(steps) {
        SerialGrows(steps, e);
      }
      ghost var s := Last(trace);
      trace, steps := trace + [Next(s, e)], steps + [e];
      forall n | IdsBelow(s, n) && (e.Arrive? ==> e.id < n) ensures IdsBelow(Next(s, e), n) {
        IdsKept(s, n, e);
      }
    }

    /** Request `id` is in phase `p`, and everything recorded is a run. */
    ghost predicate At(id: nat, ts: seq<Target>, p: Phase)
      reads this
    {
      Valid() && id in Last(trace).requests && Last(trace).requests[id] == Request(ts, p)
    }

    ghost method RecordCharge(id: nat, ts: seq<Target>, n: nat, cost: real, prevOk: bool, incOk: bool)
      requires n < |ts| && RunSoFar(trace, steps) && Calmly(steps)
      requires id in Last(trace).requests && Last(trace).requests[id] == Request(ts, Charging(n, cost, None))
      modifies this`trace, this`steps
      ensures RunSoFar(trace, steps) && Last(trace) == Charged(old(Last(trace)), id, ts, n, cost, prevOk, incOk)
      ensures steps == old(steps) + [ReadPrev(id, prevOk), Increment(id, incOk)] && Calmly(steps)
      ensures forall n :: IdsBelow(old(Last(trace)), n) ==> IdsBelow(Last(trace), n)
      ensures prevOk && SerialSoFar(old(steps)) ==> SerialSoFar(steps)
    {
      ChargeIsTwoSteps(Last(trace), id, ts, n, cost, prevOk, incOk);
      Record(ReadPrev(id, prevOk));
      ghost var before := steps;
      Record(Increment(id, incOk));
      if prevOk && SerialSoFar(old(steps)) {
        SerialGrows(before, Increment(id, incOk));
      }
    }

    /** All budgets are checked first; the first one that is read as exceeded rejects. */
    method CheckAll(id: nat, ts: seq<Target>, checkOk: seq<bool>) returns (rejected: bool)
      requires At(id, ts, Checking(0)) && |checkOk| == |ts|
      modifies this`trace, this`steps
      ensures rejected <==> exists i :: 0 <= i < |ts| && Rejects(ts[i], checkOk[i], counters)
      ensures rejected <==> exists i :: 0 <= i < |ts| && checkOk[i] && OverLimit(ts[i], counters)
      ensures At(id, ts, if rejected then Done(0.0) else Checking(|ts|))
      ensures steps == old(steps) + CheckSteps(id, ts, checkOk, counters, 0)
      ensures SerialSoFar(old(steps)) ==> SerialSoFar(steps)
    {
      RejectsOver(ts, checkOk, counters);
      var i := 0;
      CheckedStart(steps, id, ts, checkOk, counters);
      while i < |ts|
        invariant 0 <= i <= |ts| && At(id, ts, Checking(i))
        invariant CheckedTo(old(steps), steps, id, ts, checkOk, counters, i)
        invariant forall j :: 0 <= j < i ==> !Rejects(ts[j], checkOk[j], counters)
        invariant SerialSoFar(old(steps)) ==> SerialSoFar(steps)
      {
        CheckedNext(old(steps), steps, id, ts, checkOk, counters, i);
        Record(Check(id, checkOk[i]));
        if checkOk[i] {
          var spent := Get(counters, ts[i].key);
          if HardExceeded(ts[i].budget, spent) {
            return true;
          }
        }
        i := i + 1;
      }
      CheckedAll(old(steps), steps, id, ts, checkOk, counters);
      return false;
    }

    /** One budget: read, increment, record, alert. */
    method ChargeOne(id: nat, ts: seq<Target>, n: nat, cost: real, prevOk: bool, incOk: bool)
      requires n < |ts| && At(id, ts, Charging(n, cost, None))
      modifies this
      ensures At(id, ts, if n + 1 < |ts| then Charging(n + 1, cost, None) else Done(cost))
      ensures Now() == BooksNext(old(Now()), id, ts[n], cost, prevOk, incOk)
      ensures prevOk && SerialSoFar(old(steps)) ==> SerialSoFar(steps)
      ensures nextId == old(nextId)
    {
      var b, key := ts[n].budget, ts[n].key;
      var prev := if prevOk then Get(counters, key) else 0.0;
      RecordCharge(id, ts, n, cost, prevOk, incOk);
      if !incOk {
        return;
      }
      var newSpent := Get(counters, key) + cost;
      counters := counters[key := newSpent];
      charges := charges + [Charge(id, b.id, key, cost)];
      var crossed := CrossedThresholds(b, prev, newSpent);
      alerts := alerts + AlertsFor(b, crossed);
      if b.scope.KeyScope? && b.keyId != "" && b.keyId in keySpent {
        keySpent := keySpent[b.keyId := keySpent[b.keyId] + cost];
      }
    }

    /** The charge loop after a successful response. */
    method ChargeAll(id: nat, ts: seq<Target>, cost: real, prevOk: seq<bool>, incOk: seq<bool>)
      requires ts != [] && At(id, ts, Charging(0, cost, None)) && |prevOk| == |incOk| == |ts|
      modifies this
      ensures At(id, ts, Done(cost)) && nextId == old(nextId)
      ensures InCharge(old(Now()), Now(), id, ts, cost, prevOk, incOk, |ts|)
      ensures (forall i :: 0 <= i < |ts| ==> prevOk[i]) && SerialSoFar(old(steps)) ==> SerialSoFar(steps)
    {
      var n := 0;
      ghost var serial := (forall i :: 0 <= i < |ts| ==> prevOk[i]) && SerialSoFar(steps);
      ChargingStart(Now(), id, ts, cost, prevOk, incOk);
      while n < |ts|
        invariant 0 <= n <= |ts| && nextId == old(nextId)
        invariant At(id, ts, if n < |ts| then Charging(n, cost, None) else Done(cost))
        invariant InCharge(old(Now()), Now(), id, ts, cost, prevOk, incOk, n)
        invariant serial ==> SerialSoFar(steps)
      {
        ChargingNext(old(Now()), Now(), id, ts, cost, prevOk, incOk, n);
        ChargeOne(id, ts, n, cost, prevOk[n], incOk[n]);
        n := n + 1;
      }
    }

    /** One request. `cost` is what the response body and the rates give; it is not positive for
        streaming, failed and unmetered responses. */
    method Handle(matched: seq<Budget>, now: nat, cost: real, checkOk: seq<bool>, prevOk: seq<bool>, incOk: seq<bool>)
      returns (rejected: bool)
      requires Valid() && |checkOk| == |prevOk| == |incOk| == |matched|
      modifies this
      ensures Valid() && nextId == old(nextId) + (if matched == [] then 0 else 1) && old(steps) <= steps
      ensures Handled(old(Now()), Now(), old(nextId), matched, now, cost, checkOk, prevOk, incOk, rejected)
      ensures (forall i :: 0 <= i < |matched| ==> prevOk[i]) && SerialSoFar(old(steps)) ==> SerialSoFar(steps)
    {
      ghost var b0 := Now();
      if matched == [] {
        HandledNone(b0, nextId, now, cost);
        HandledGrows(b0, Now(), nextId, matched, now, cost, checkOk, prevOk, incOk, false);
        return false;
      }
      var id, ts := nextId, Targets(matched, now);
      IdsFree(Last(trace), nextId);
      nextId := nextId + 1;
      Record(Arrive(id, matched, now));
      rejected := CheckAll(id, ts, checkOk);
      CheckedNow(b0, Now(), id, matched, now, checkOk);
      if rejected {
        HandledRejected(b0, Now(), id, matched, now, cost, checkOk, prevOk, incOk);
        HandledGrows(b0, Now(), id, matched, now, cost, checkOk, prevOk, incOk, true);
        return;
      }
      ghost var b1 := Now();
      Record(Finish(id, cost));
      ghost var b2 := Now();
      if cost > 0.0 {
        ChargeAll(id, ts, cost, prevOk, incOk);
      }
      HandledServed(b0, b1, b2, Now(), id, matched, now, cost, checkOk, prevOk, incOk);
      HandledGrows(b0, Now(), id, matched, now, cost, checkOk, prevOk, incOk, false);
    }

    /** The run theorems for the handler: each counter is the sum of the charges to it. */
    lemma CountersAreCharges(key: string)
      requires Valid()
      ensures Get(counters, key) == SumKey(charges, key)
    {
      assert Unfold(0);
      UndisturbedCounter(trace, steps, |trace| - 1, key);
    }

    /** Over calls one after the other whose reads succeeded, a budget that alone owns its counter has
        notified every list entry whose threshold the counter has reached exactly once, and no other. */
    lemma NotifiedOnce(b: Budget, key: string, pct: real)
      requires Valid() && SerialSoFar(steps) && b.hardLimit.Some? && b.hardLimit.value > 0.0 && 0.0 < pct <= 100.0
      requires Stands(b, key, Last(trace))
      ensures AlertCount(alerts, Alert(b.id, pct)) ==
        if Get(counters, key) >= Threshold(b.hardLimit.value, pct) then Count(b.notifyAt, pct) else 0
    {
      assert Unfold(0);
      var n := |trace| - 1;
      forall i | 0 <= i < |trace| ensures Stands(b, key, trace[i]) {
        StoodBefore(trace, steps, i, n, b, key);
      }
      SerialOnce(trace, steps, n, b, key, pct);
    }
  }

  /** Steps determine the run, so a longer list of them extends it. */
  lemma {:induction false} RunExtends(trace: seq<State>, steps: seq<Step>, longer: seq<State>, more: seq<Step>, i: nat)
    requires IsRun(trace, steps) && IsRun(longer, more) && steps <= more && i < |trace|
    ensures trace[i] == longer[i]
  {
    if i > 0 {
      RunExtends(trace, steps, longer, more, i - 1);
      assert steps[i - 1] == more[i - 1];
    }
  }

  /** Requests keep their budgets and are never forgotten. */
  lemma {:induction false} RequestsStay(trace: seq<State>, steps: seq<Step>, i: nat, j: nat, id: nat)
    requires IsRun(trace, steps) && i <= j < |trace| && id in trace[i].requests
    ensures id in trace[j].requests && trace[j].requests[id].matched == trace[i].requests[id].matched
    decreases j - i
  {
    if i < j {
      RequestsStay(trace, steps, i, j - 1, id);
      assert Enabled(trace[j - 1], steps[j - 1]) && trace[j] == Next(trace[j - 1], steps[j - 1]);
    }
  }

  /** So a counter that stands for one budget at the end has always done so. */
  lemma StoodBefore(trace: seq<State>, steps: seq<Step>, i: nat, j: nat, b: Budget, key: string)
    requires IsRun(trace, steps) && i <= j < |trace| && Stands(b, key, trace[j])
    ensures Stands(b, key, trace[i])
  {
    forall id, n | id in trace[i].requests && 0 <= n < |trace[i].requests[id].matched|
      ensures StandsAt(b, key, trace[i].requests[id], n)
    {
      RequestsStay(trace, steps, i, j, id);
      assert StandsAt(b, key, trace[j].requests[id], n);
    }
  }
}
