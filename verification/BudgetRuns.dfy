/** Budget enforcement as a system of interleaved requests over atomic store commands: every
    request first checks all its budgets, later charges them one by one. */
module BudgetRuns {
  import opened Wrappers
  import opened Budgets

  /** `Charging(n, ..)` has charged the first `n` budgets; `prev` is the value read before the
      next increment. `Done(cost)` charged all budgets, `Done(0)` none of them. */
  datatype Phase =
    | Checking(next: nat)
    | Serving
    | Charging(next: nat, cost: real, prev: Option<real>)
    | Done(charged: real)

  /** A matched budget with its counter key at the time of the request. */
  datatype Target = Target(budget: Budget, key: string)

  function Targets(matched: seq<Budget>, now: nat): (r: seq<Target>)
    ensures |r| == |matched|
    ensures forall i :: 0 <= i < |r| ==> r[i].budget == matched[i] && r[i].key == CounterKey(matched[i], now)
  {
    seq(|matched|, i requires 0 <= i < |matched| => Target(matched[i], CounterKey(matched[i], now)))
  }

  datatype Request = Request(matched: seq<Target>, phase: Phase)

  datatype Charge = Charge(id: nat, budget: string, key: string, cost: real)

  datatype Alert = Alert(budget: string, pct: real)

  /** `charges` are those recorded, `lost` those applied to a counter while the reply was lost. */
  datatype State = State(
    counters: map<string, real>, requests: map<nat, Request>, charges: seq<Charge>, alerts: seq<Alert>,
    lost: seq<Charge>)

  const START := State(map[], map[], [], [], [])

  function Key(r: Request, i: nat): string
    requires i < |r.matched|
  {
    r.matched[i].key
  }

  /** A missing counter reads as zero. */
  function Get(counters: map<string, real>, key: string): real {
    if key in counters then counters[key] else 0.0
  }

  /** `Finish` carries the cost found in the response; nothing is charged unless it is positive
      (it is not for streaming, failed and unmetered responses). A failed `Increment` was not applied;
      one that was, but whose reply was lost, is handled alike. */
  datatype Step =
    | Arrive(id: nat, matched: seq<Budget>, now: nat)
    | Check(id: nat, readOk: bool)
    | Finish(id: nat, cost: real)
    | ReadPrev(id: nat, readOk: bool)
    | Increment(id: nat, incOk: bool)
    | LostReply(id: nat)
    | Expire(key: string)

  predicate MayIncrement(s: State, id: nat) {
    id in s.requests && s.requests[id].phase.Charging? && s.requests[id].phase.prev.Some? &&
    s.requests[id].phase.next < |s.requests[id].matched|
  }

  predicate Enabled(s: State, e: Step) {
    match e
    case Arrive(id, matched, _) => id !in s.requests && matched != []
    case Check(id, _) => id in s.requests && s.requests[id].phase.Checking? &&
      s.requests[id].phase.next < |s.requests[id].matched|
    case Finish(id, _) => id in s.requests && (s.requests[id].phase.Serving? ||
      (s.requests[id].phase.Checking? && s.requests[id].phase.next == |s.requests[id].matched|))
    case ReadPrev(id, _) => id in s.requests && s.requests[id].phase.Charging? &&
      s.requests[id].phase.prev.None? && s.requests[id].phase.next < |s.requests[id].matched|
    case Increment(id, _) => MayIncrement(s, id)
    case LostReply(id) => MayIncrement(s, id)
    case Expire(_) => true
  }

  predicate Increments(e: Step) {
    e.Increment? || e.LostReply?
  }

  function Moved(s: State, id: nat, p: Phase): State
    requires id in s.requests
  {
    s.(requests := s.requests[id := s.requests[id].(phase := p)])
  }

  /** After the last budget the request is done. */
  function AfterCharge(r: Request): Phase
    requires r.phase.Charging?
  {
    if r.phase.next + 1 >= |r.matched| then Done(r.phase.cost) else Charging(r.phase.next + 1, r.phase.cost, None)
  }

  function AlertsFor(b: Budget, pcts: seq<real>): (r: seq<Alert>)
    ensures |r| == |pcts| && forall i :: 0 <= i < |r| ==> r[i] == Alert(b.id, pcts[i])
  {
    seq(|pcts|, i requires 0 <= i < |pcts| => Alert(b.id, pcts[i]))
  }

  function Next(s: State, e: Step): State
    requires Enabled(s, e)
  {
    match e
    case Arrive(id, matched, now) => s.(requests := s.requests[id := Request(Targets(matched, now), Checking(0))])
    case Check(id, readOk) =>
      var r := s.requests[id];
      var i := r.phase.next;
      if readOk && HardExceeded(r.matched[i].budget, Get(s.counters, Key(r, i))) then Moved(s, id, Done(0.0))
      else Moved(s, id, Checking(i + 1))
    case Finish(id, cost) => Moved(s, id, if cost <= 0.0 then Done(0.0) else Charging(0, cost, None))
    case ReadPrev(id, readOk) =>
      var r := s.requests[id];
      var prev := if readOk then Get(s.counters, Key(r, r.phase.next)) else 0.0;
      Moved(s, id, r.phase.(prev := Some(prev)))
    case Increment(id, incOk) =>
      var r := s.requests[id];
      var s' := Moved(s, id, AfterCharge(r));
      if !incOk then s'
      else
        var b, key := r.matched[r.phase.next].budget, Key(r, r.phase.next);
        var total := Get(s.counters, key) + r.phase.cost;
        s'.(counters := s.counters[key := total],
            charges := s.charges + [Charge(id, b.id, key, r.phase.cost)],
            alerts := s.alerts + AlertsFor(b, Alerts(b, r.phase.prev.value, total)))
    case LostReply(id) =>
      var r := s.requests[id];
      var b, key := r.matched[r.phase.next].budget, Key(r, r.phase.next);
      Moved(s, id, AfterCharge(r)).(counters := s.counters[key := Get(s.counters, key) + r.phase.cost],
        lost := s.lost + [Charge(id, b.id, key, r.phase.cost)])
    case Expire(key) => s.(counters := s.counters - {key})
  }

  /** `trace` lists the states of a run of `steps` from `START`. */
  ghost predicate IsRun(trace: seq<State>, steps: seq<Step>) {
    |trace| == |steps| + 1 && trace[0] == START &&
    forall i :: 0 <= i < |steps| ==> Enabled(trace[i], steps[i]) && trace[i + 1] == Next(trace[i], steps[i])
  }

  /** Every phase index is in range and every charged cost is positive. */
  ghost predicate Sound(s: State) {
    forall id :: id in s.requests ==>
      var r := s.requests[id];
      r.matched != [] &&
      match r.phase
      case Checking(n) => n <= |r.matched|
      case Serving => true
      case Charging(n, cost, _) => n < |r.matched| && cost > 0.0
      case Done(cost) => cost >= 0.0
  }

  lemma SoundStep(s: State, e: Step)
    requires Sound(s) && Enabled(s, e)
    ensures Sound(Next(s, e))
  {
  }

  lemma {:induction false} RunIsSound(trace: seq<State>, steps: seq<Step>, i: nat)
    requires IsRun(trace, steps) && i < |trace|
    ensures Sound(trace[i])
  {
    if i > 0 {
      RunIsSound(trace, steps, i - 1);
      SoundStep(trace[i - 1], steps[i - 1]);
    }
  }

  // ---------- how far a counter can overshoot ----------

  /** Within the run, counter `key` is used by budget `b` only, once per request. */
  ghost predicate Owns(b: Budget, key: string, r: Request) {
    (forall i :: 0 <= i < |r.matched| && Key(r, i) == key ==> r.matched[i].budget == b) &&
    forall i, j :: 0 <= i < j < |r.matched| && Key(r, i) == key ==> Key(r, j) != key
  }

  ghost predicate OwnsAll(b: Budget, key: string, s: State) {
    forall id :: id in s.requests ==> Owns(b, key, s.requests[id])
  }

  /** Admitted by the check on `key` and not yet past the charge on it. */
  predicate Between(r: Request, key: string) {
    exists i :: 0 <= i < |r.matched| && Key(r, i) == key && InGap(r.phase, i)
  }

  predicate InGap(p: Phase, i: nat) {
    match p
    case Checking(n) => i < n
    case Serving => true
    case Charging(n, _, _) => n <= i
    case Done(_) => false
  }

  function Pending(s: State, key: string): set<nat> {
    set id | id in s.requests && Between(s.requests[id], key)
  }

  /** Reads succeed, costs are at most `C`. */
  predicate Calm(e: Step, C: real) {
    (e.Check? ==> e.readOk) && (e.Finish? ==> e.cost <= C)
  }

  ghost predicate CostsBounded(s: State, C: real) {
    forall id :: id in s.requests && s.requests[id].phase.Charging? ==> s.requests[id].phase.cost <= C
  }

  /** Invariant: every request still between check and charge has left room for its cost. */
  ghost predicate Room(s: State, key: string, H: real, K: nat, C: real) {
    Fits(Get(s.counters, key), |Pending(s, key)|, H, K, C)
  }

  ghost predicate Fits(c: real, p: nat, H: real, K: nat, C: real) {
    c >= 0.0 && ((p == 0 && c == 0.0) || (H > 0.0 && c < H + Slack(K, p, C)))
  }

  /** Room left for requests that have not been admitted yet. */
  function Slack(K: nat, p: nat, C: real): real {
    (K - p) as real * C
  }

  lemma Sizes(a: set<nat>, b: set<nat>, id: nat)
    requires a - {id} == b - {id}
    ensures |a| == |b| + (if id in a then 1 else 0) - (if id in b then 1 else 0)
  {
    assert a == (a - {id}) + (if id in a then {id} else {});
    assert b == (b - {id}) + (if id in b then {id} else {});
  }

  /** A request only enters the gap between check and charge by reading a counter below the limit. */
  lemma EntersBelow(s: State, e: Step, b: Budget, key: string, H: real)
    requires Sound(s) && Enabled(s, e) && !e.Expire? && OwnsAll(b, key, s) && b.hardLimit == Some(H)
    requires e.Check? ==> e.readOk
    requires e.id in Pending(Next(s, e), key) && e.id !in Pending(s, key)
    ensures e.Check? && Get(s.counters, key) < H
  {
    if !e.Arrive? {
      var r, r' := s.requests[e.id], Next(s, e).requests[e.id];
      var i :| 0 <= i < |r'.matched| && Key(r', i) == key && InGap(r'.phase, i);
      assert Key(r, i) == key && !Between(r, key);
    }
  }

  /** Charging the counter takes the request out of the gap. */
  lemma ChargeLeaves(s: State, e: Step, b: Budget, key: string)
    requires Sound(s) && Enabled(s, e) && Increments(e) && OwnsAll(b, key, s)
    requires Key(s.requests[e.id], s.requests[e.id].phase.next) == key
    ensures e.id in Pending(s, key) && e.id !in Pending(Next(s, e), key)
  {
    var r, r' := s.requests[e.id], Next(s, e).requests[e.id];
    assert InGap(r.phase, r.phase.next) && Between(r, key) && Owns(b, key, r);
    forall j | r.phase.next < j < |r'.matched| ensures Key(r', j) != key {
      assert Key(r', j) == Key(r, j);
    }
  }

  /** What one step does to a counter `c` and to the number `p` of requests in the gap. */
  ghost predicate Effect(c: real, p: nat, c': real, p': nat, H: real, C: real) {
    (p' <= p && (c' == c || (c' == 0.0 && p' == p))) ||
    (c' == c < H && p' == p + 1) ||
    (p == p' + 1 && c < c' <= c + C)
  }

  lemma ChargeEffect(s: State, e: Step, b: Budget, key: string, H: real, C: real)
    requires Sound(s) && Enabled(s, e) && OwnsAll(b, key, s) && CostsBounded(s, C)
    requires Increments(e) && Key(s.requests[e.id], s.requests[e.id].phase.next) == key
    ensures Effect(Get(s.counters, key), |Pending(s, key)|,
                   Get(Next(s, e).counters, key), |Pending(Next(s, e), key)|, H, C)
  {
    ChargeLeaves(s, e, b, key);
    Sizes(Pending(Next(s, e), key), Pending(s, key), e.id);
  }

  lemma OtherEffect(s: State, e: Step, b: Budget, key: string, H: real, C: real)
    requires Sound(s) && Enabled(s, e) && OwnsAll(b, key, s) && b.hardLimit == Some(H) && Calm(e, C)
    requires !e.Expire? && (Increments(e) ==> Key(s.requests[e.id], s.requests[e.id].phase.next) != key)
    ensures Effect(Get(s.counters, key), |Pending(s, key)|,
                   Get(Next(s, e).counters, key), |Pending(Next(s, e), key)|, H, C)
  {
    var p, p' := Pending(s, key), Pending(Next(s, e), key);
    Sizes(p', p, e.id);
    if e.id in p' && e.id !in p {
      EntersBelow(s, e, b, key, H);
    }
  }

  lemma RoomStep(s: State, e: Step, b: Budget, key: string, H: real, K: nat, C: real)
    requires Sound(s) && Enabled(s, e) && OwnsAll(b, key, s) && b.hardLimit == Some(H)
    requires Calm(e, C) && CostsBounded(s, C) && C >= 0.0
    requires |Pending(Next(s, e), key)| <= K && Room(s, key, H, K, C)
    ensures Room(Next(s, e), key, H, K, C)
  {
    if Increments(e) && Key(s.requests[e.id], s.requests[e.id].phase.next) == key {
      ChargeEffect(s, e, b, key, H, C);
    } else if !e.Expire? {
      OtherEffect(s, e, b, key, H, C);
    }
    var s' := Next(s, e);
    RoomEffect(Get(s.counters, key), |Pending(s, key)|, Get(s'.counters, key), |Pending(s', key)|, H, K, C);
  }

  lemma RoomEffect(c: real, p: nat, c': real, p': nat, H: real, K: nat, C: real)
    requires Effect(c, p, c', p', H, C) && Fits(c, p, H, K, C) && p' <= K && C >= 0.0
    ensures Fits(c', p', H, K, C)
  {
  }

  lemma CostsStep(s: State, e: Step, C: real)
    requires Enabled(s, e) && CostsBounded(s, C) && Calm(e, C)
    ensures CostsBounded(Next(s, e), C)
  {
  }

  /** Conditions of the overshoot bound, on every state and step of a run. */
  ghost predicate Bounded(trace: seq<State>, steps: seq<Step>, b: Budget, key: string, K: nat, C: real) {
    IsRun(trace, steps) &&
    (forall i :: 0 <= i < |trace| ==> OwnsAll(b, key, trace[i]) && |Pending(trace[i], key)| <= K) &&
    forall i :: 0 <= i < |steps| ==> Calm(steps[i], C)
  }

  lemma {:induction false} RoomAlways(trace: seq<State>, steps: seq<Step>, i: nat, b: Budget, key: string,
                                      H: real, K: nat, C: real)
    requires Bounded(trace, steps, b, key, K, C) && b.hardLimit == Some(H) && C >= 0.0 && i < |trace|
    ensures Room(trace[i], key, H, K, C) && CostsBounded(trace[i], C)
  {
    if i == 0 {
      assert Pending(START, key) == {};
    } else {
      RoomAlways(trace, steps, i - 1, b, key, H, K, C);
      RunIsSound(trace, steps, i - 1);
      assert Calm(steps[i - 1], C) && |Pending(trace[i], key)| <= K && OwnsAll(b, key, trace[i - 1]);
      RoomStep(trace[i - 1], steps[i - 1], b, key, H, K, C);
      CostsStep(trace[i - 1], steps[i - 1], C);
    }
  }

  /** With at most `K` requests between check and charge and costs of at most `C`, the counter
      stays strictly below `H + K*C`; with a limit of zero or less nothing is ever charged. */
  lemma Overshoot(trace: seq<State>, steps: seq<Step>, i: nat, b: Budget, key: string, H: real, K: nat, C: real)
    requires Bounded(trace, steps, b, key, K, C) && b.hardLimit == Some(H) && C >= 0.0 && i < |trace|
    ensures H > 0.0 ==> 0.0 <= Get(trace[i].counters, key) < H + K as real * C
    ensures H <= 0.0 ==> Get(trace[i].counters, key) == 0.0
  {
    RoomAlways(trace, steps, i, b, key, H, K, C);
    assert Slack(K, 0, C) == K as real * C;
    assert K as real * C >= 0.0;
  }

  // ---------- alerts ----------

  /** Spends read before an increment are never ahead of the counter. */
  ghost predicate PrevsBehind(s: State, key: string) {
    forall id :: id in s.requests ==> PrevBehind(s.requests[id], key, Get(s.counters, key))
  }

  predicate PrevBehind(r: Request, key: string, c: real) {
    r.phase.Charging? && r.phase.prev.Some? && r.phase.next < |r.matched| && Key(r, r.phase.next) == key ==>
      r.phase.prev.value <= c
  }

  function AlertCount(alerts: seq<Alert>, a: Alert): nat {
    multiset(alerts)[a]
  }

  lemma {:induction false} AlertsForCount(b: Budget, pcts: seq<real>, pct: real)
    ensures AlertCount(AlertsFor(b, pcts), Alert(b.id, pct)) == Count(pcts, pct)
  {
    if pcts != [] {
      var n := |pcts| - 1;
      AlertsForCount(b, pcts[..n], pct);
      assert pcts == pcts[..n] + [pcts[n]];
      assert AlertsFor(b, pcts) == AlertsFor(b, pcts[..n]) + [Alert(b.id, pcts[n])];
    }
  }

  /** Counter `key` stands for budget `b` in every request, and only for it. */
  ghost predicate Stands(b: Budget, key: string, s: State) {
    forall id, i :: id in s.requests && 0 <= i < |s.requests[id].matched| ==>
      StandsAt(b, key, s.requests[id], i)
  }

  ghost predicate StandsAt(b: Budget, key: string, r: Request, i: nat)
    requires i < |r.matched|
  {
    (Key(r, i) == key ==> r.matched[i].budget == b) && (r.matched[i].budget.id == b.id ==> Key(r, i) == key)
  }

  /** Alerts for `pct` added by one step: those of an increment of `key` that crosses it. */
  function Added(s: State, e: Step, b: Budget, key: string, pct: real): nat
    requires Enabled(s, e) && b.hardLimit.Some?
  {
    if e.Increment? && e.incOk && Key(s.requests[e.id], s.requests[e.id].phase.next) == key &&
       b.hardLimit.value > 0.0 &&
       Crosses(b.hardLimit.value, pct, s.requests[e.id].phase.prev.value,
               Get(s.counters, key) + s.requests[e.id].phase.cost)
    then Count(b.notifyAt, pct) else 0
  }

  /** Alerts an increment adds. */
  function NewAlerts(s: State, id: nat): seq<Alert>
    requires MayIncrement(s, id)
  {
    var r := s.requests[id];
    var b := r.matched[r.phase.next].budget;
    AlertsFor(b, Alerts(b, r.phase.prev.value, Get(s.counters, Key(r, r.phase.next)) + r.phase.cost))
  }

  lemma AlertsCount(b: Budget, prev: real, total: real, pct: real)
    requires b.hardLimit.Some?
    ensures AlertCount(AlertsFor(b, Alerts(b, prev, total)), Alert(b.id, pct)) ==
      if b.hardLimit.value > 0.0 && Crosses(b.hardLimit.value, pct, prev, total) then Count(b.notifyAt, pct) else 0
  {
    AlertsForCount(b, Alerts(b, prev, total), pct);
    if b.hardLimit.value > 0.0 {
      CrossedCounts(b.hardLimit.value, b.notifyAt, prev, total, pct);
    }
  }

  lemma NewAlertsCount(s: State, id: nat, b: Budget, key: string, pct: real)
    requires MayIncrement(s, id) && Stands(b, key, s) && b.hardLimit.Some?
    ensures AlertCount(NewAlerts(s, id), Alert(b.id, pct)) == Added(s, Increment(id, true), b, key, pct)
  {
    var r := s.requests[id];
    var n := r.phase.next;
    var total := Get(s.counters, Key(r, n)) + r.phase.cost;
    var pcts := Alerts(r.matched[n].budget, r.phase.prev.value, total);
    assert StandsAt(b, key, r, n);
    if r.matched[n].budget.id == b.id {
      AlertsCount(b, r.phase.prev.value, total, pct);
    }
  }

  lemma AlertStep(s: State, e: Step, b: Budget, key: string, pct: real)
    requires Enabled(s, e) && Stands(b, key, s) && b.hardLimit.Some?
    ensures AlertCount(Next(s, e).alerts, Alert(b.id, pct)) ==
      AlertCount(s.alerts, Alert(b.id, pct)) + Added(s, e, b, key, pct)
  {
    if e.Increment? && e.incOk {
      NewAlertsCount(s, e.id, b, key, pct);
    }
  }

  /** Conditions of the alert theorems: no expiry within the run, the key stands for `b` only. */
  ghost predicate Watched(trace: seq<State>, steps: seq<Step>, b: Budget, key: string) {
    IsRun(trace, steps) && b.hardLimit.Some? && b.hardLimit.value > 0.0 &&
    (forall i :: 0 <= i < |trace| ==> Stands(b, key, trace[i])) &&
    forall i :: 0 <= i < |steps| ==> !steps[i].Expire?
  }

  lemma {:induction false} PrevsAlways(trace: seq<State>, steps: seq<Step>, i: nat, b: Budget, key: string)
    requires Watched(trace, steps, b, key) && i < |trace|
    ensures PrevsBehind(trace[i], key) && Get(trace[i].counters, key) >= 0.0
  {
    if i > 0 {
      PrevsAlways(trace, steps, i - 1, b, key);
      RunIsSound(trace, steps, i - 1);
      PrevsStep(trace[i - 1], steps[i - 1], key);
    }
  }

  lemma PrevsStep(s: State, e: Step, key: string)
    requires Sound(s) && Enabled(s, e) && !e.Expire? && PrevsBehind(s, key) && Get(s.counters, key) >= 0.0
    ensures PrevsBehind(Next(s, e), key) && Get(Next(s, e).counters, key) >= 0.0
  {
    assert Get(Next(s, e).counters, key) >= Get(s.counters, key);
  }

  /** A lost reply takes counter `key` past `x`. */
  ghost predicate PassesUnheard(s: State, e: Step, key: string, x: real) {
    Enabled(s, e) && e.LostReply? && Get(s.counters, key) < x <= Get(Next(s, e).counters, key)
  }

  /** No lost reply among the first `i` steps took the counter past `x`. */
  ghost predicate Heard(trace: seq<State>, steps: seq<Step>, i: nat, key: string, x: real)
    requires i <= |steps| <= |trace|
  {
    forall j :: 0 <= j < i ==> !PassesUnheard(trace[j], steps[j], key, x)
  }

  /** Under any interleaving, and with failing reads and increments, every percentage in (0,100]
      whose threshold the counter has reached was notified, unless a lost reply took it there. */
  lemma {:induction false} NeverMissed(trace: seq<State>, steps: seq<Step>, i: nat, b: Budget, key: string, pct: real)
    requires Watched(trace, steps, b, key) && i < |trace| && pct in b.notifyAt && 0.0 < pct <= 100.0
    requires Get(trace[i].counters, key) >= Threshold(b.hardLimit.value, pct)
    requires Heard(trace, steps, i, key, Threshold(b.hardLimit.value, pct))
    ensures AlertCount(trace[i].alerts, Alert(b.id, pct)) >= Count(b.notifyAt, pct) >= 1
  {
    ThresholdPositive(b.hardLimit.value, pct);
    if i > 0 {
      var s, e := trace[i - 1], steps[i - 1];
      PrevsAlways(trace, steps, i - 1, b, key);
      RunIsSound(trace, steps, i - 1);
      AlertStep(s, e, b, key, pct);
      if Get(s.counters, key) >= Threshold(b.hardLimit.value, pct) {
        NeverMissed(trace, steps, i - 1, b, key, pct);
      } else {
        assert !PassesUnheard(s, e, key, Threshold(b.hardLimit.value, pct));
        ReachedNow(s, e, b, key, pct);
      }
    }
  }

  lemma ThresholdPositive(limit: real, pct: real)
    requires limit > 0.0 && pct > 0.0
    ensures Threshold(limit, pct) > 0.0
  {
    assert limit * pct > 0.0;
  }

  /** The increment that reaches a threshold reports it. */
  lemma ReachedNow(s: State, e: Step, b: Budget, key: string, pct: real)
    requires Sound(s) && Enabled(s, e) && PrevsBehind(s, key)
    requires b.hardLimit.Some? && b.hardLimit.value > 0.0 && 0.0 < pct <= 100.0
    requires Get(s.counters, key) < Threshold(b.hardLimit.value, pct) <= Get(Next(s, e).counters, key)
    requires !e.Expire? && !e.LostReply?
    ensures Added(s, e, b, key, pct) == Count(b.notifyAt, pct)
  {
  }

  /** A serial run reads the counter successfully right before each of its increments. */
  ghost predicate Serial(trace: seq<State>, steps: seq<Step>) {
    |trace| == |steps| + 1 && SerialSteps(steps)
  }

  ghost predicate SerialSteps(steps: seq<Step>) {
    forall i :: 0 <= i < |steps| && Increments(steps[i]) ==> i > 0 && steps[i - 1] == ReadPrev(steps[i].id, true)
  }

  /** In serial runs every list entry is notified exactly once when its threshold is reached, if and
      only if no lost reply took the counter there. */
  lemma {:induction false} SerialOnce(trace: seq<State>, steps: seq<Step>, i: nat, b: Budget, key: string, pct: real)
    requires Watched(trace, steps, b, key) && Serial(trace, steps) && i < |trace| && 0.0 < pct <= 100.0
    ensures var x := Threshold(b.hardLimit.value, pct);
      Notified(trace[i], b, key, pct, Heard(trace, steps, i, key, x)) &&
      (Get(trace[i].counters, key) < x ==> Heard(trace, steps, i, key, x))
  {
    ThresholdPositive(b.hardLimit.value, pct);
    if i > 0 {
      SerialOnce(trace, steps, i - 1, b, key, pct);
      SerialFacts(trace, steps, i - 1, b, key);
      var x := Threshold(b.hardLimit.value, pct);
      HeardNext(trace, steps, i - 1, key, x);
      SerialStep(trace[i - 1], steps[i - 1], b, key, pct, Heard(trace, steps, i - 1, key, x));
    }
  }

  lemma HeardNext(trace: seq<State>, steps: seq<Step>, i: nat, key: string, x: real)
    requires i < |steps| <= |trace|
    ensures Heard(trace, steps, i + 1, key, x) <==>
      Heard(trace, steps, i, key, x) && !PassesUnheard(trace[i], steps[i], key, x)
  {
  }

  ghost predicate Notified(s: State, b: Budget, key: string, pct: real, heard: bool)
    requires b.hardLimit.Some?
  {
    AlertCount(s.alerts, Alert(b.id, pct)) ==
      if heard && Get(s.counters, key) >= Threshold(b.hardLimit.value, pct) then Count(b.notifyAt, pct) else 0
  }

  lemma SerialFacts(trace: seq<State>, steps: seq<Step>, i: nat, b: Budget, key: string)
    requires Watched(trace, steps, b, key) && Serial(trace, steps) && i < |steps|
    ensures var s, e := trace[i], steps[i];
      Sound(s) && Enabled(s, e) && trace[i + 1] == Next(s, e) && Stands(b, key, s) && PrevsBehind(s, key) &&
      Get(s.counters, key) >= 0.0 && !e.Expire? &&
      (Increments(e) && Key(s.requests[e.id], s.requests[e.id].phase.next) == key ==>
        s.requests[e.id].phase.prev == Some(Get(s.counters, key)))
  {
    PrevsAlways(trace, steps, i, b, key);
    RunIsSound(trace, steps, i);
    if Increments(steps[i]) {
      JustRead(trace[i - 1], trace[i], steps[i], key);
    }
  }

  lemma SerialStep(s: State, e: Step, b: Budget, key: string, pct: real, heard: bool)
    requires Sound(s) && Enabled(s, e) && Stands(b, key, s) && PrevsBehind(s, key) && Get(s.counters, key) >= 0.0
    requires b.hardLimit.Some? && b.hardLimit.value > 0.0 && 0.0 < pct <= 100.0 && !e.Expire?
    requires Increments(e) && Key(s.requests[e.id], s.requests[e.id].phase.next) == key ==>
      s.requests[e.id].phase.prev == Some(Get(s.counters, key))
    requires Notified(s, b, key, pct, heard) && (Get(s.counters, key) < Threshold(b.hardLimit.value, pct) ==> heard)
    ensures var heard' := heard && !PassesUnheard(s, e, key, Threshold(b.hardLimit.value, pct));
      Notified(Next(s, e), b, key, pct, heard') &&
      (Get(Next(s, e).counters, key) < Threshold(b.hardLimit.value, pct) ==> heard')
  {
    ThresholdPositive(b.hardLimit.value, pct);
    AlertStep(s, e, b, key, pct);
  }

  /** A lost reply that takes a counter past a threshold of its budget: nobody is notified. */
  lemma LostReplyUnheard(b: Budget, now: nat) returns (trace: seq<State>, steps: seq<Step>)
    requires b.hardLimit == Some(100.0) && b.notifyAt == [50.0]
    ensures IsRun(trace, steps) && |steps| == 5 && steps[4] == LostReply(0)
    ensures Get(trace[5].counters, CounterKey(b, now)) == 60.0 && trace[5].alerts == []
  {
    trace, steps := Extended([START], [], Arrive(0, [b], now));
    trace, steps := Extended(trace, steps, Check(0, true));
    trace, steps := Extended(trace, steps, Finish(0, 60.0));
    trace, steps := Extended(trace, steps, ReadPrev(0, true));
    trace, steps := Extended(trace, steps, LostReply(0));
  }

  lemma JustRead(before: State, s: State, e: Step, key: string)
    requires Increments(e) && Enabled(before, ReadPrev(e.id, true)) && s == Next(before, ReadPrev(e.id, true))
    requires Enabled(s, e)
    ensures Key(s.requests[e.id], s.requests[e.id].phase.next) == key ==>
      s.requests[e.id].phase.prev == Some(Get(s.counters, key))
  {
  }

  // ---------- conservation of spend ----------

  function SumKey(charges: seq<Charge>, key: string): real {
    if charges == [] then 0.0
    else
      var n := |charges| - 1;
      SumKey(charges[..n], key) + (if charges[n].key == key then charges[n].cost else 0.0)
  }

  /** Sum of the recorded spend entries of one budget. */
  function SumBudget(charges: seq<Charge>, budget: string): real {
    if charges == [] then 0.0
    else
      var n := |charges| - 1;
      SumBudget(charges[..n], budget) + (if charges[n].budget == budget then charges[n].cost else 0.0)
  }

  /** What one request was charged on one counter. */
  function SumRequest(charges: seq<Charge>, id: nat, key: string): real {
    if charges == [] then 0.0
    else
      var n := |charges| - 1;
      SumRequest(charges[..n], id, key) +
        (if charges[n].id == id && charges[n].key == key then charges[n].cost else 0.0)
  }

  lemma SumsGrow(charges: seq<Charge>, c: Charge, key: string, budget: string, id: nat)
    ensures SumKey(charges + [c], key) == SumKey(charges, key) + (if c.key == key then c.cost else 0.0)
    ensures SumBudget(charges + [c], budget) ==
            SumBudget(charges, budget) + (if c.budget == budget then c.cost else 0.0)
    ensures SumRequest(charges + [c], id, key) ==
      SumRequest(charges, id, key) + (if c.id == id && c.key == key then c.cost else 0.0)
  {
    assert (charges + [c])[..|charges|] == charges;
  }

  /** How many of the first `n` matched budgets share the counter. */
  function Times(ts: seq<Target>, key: string, n: nat): nat
    requires n <= |ts|
  {
    if n == 0 then 0 else Times(ts, key, n - 1) + (if ts[n - 1].key == key then 1 else 0)
  }

  /** The charge a successful increment records. */
  function NewCharge(s: State, id: nat): Charge
    requires MayIncrement(s, id)
  {
    var r := s.requests[id];
    Charge(id, r.matched[r.phase.next].budget.id, Key(r, r.phase.next), r.phase.cost)
  }

  predicate Charges(e: Step) {
    e.Increment? && e.incOk
  }

  /** The number of steps up to and with the last expiry of `key`. */
  function LastExpiry(steps: seq<Step>, key: string, i: nat): (k: nat)
    requires i <= |steps|
    ensures k <= i
  {
    if i == 0 || steps[i - 1] == Expire(key) then i else LastExpiry(steps, key, i - 1)
  }

  /** All that was ever added to the counter `key`. */
  function Total(s: State, key: string): real {
    SumKey(s.charges, key) + SumKey(s.lost, key)
  }

  /** All recorded spend of budget `b`, with what was added to its counter `key` but lost. */
  function Spend(s: State, b: Budget, key: string): real {
    SumBudget(s.charges, b.id) + SumKey(s.lost, key)
  }

  lemma ChargeStands(s: State, id: nat, b: Budget, key: string)
    requires MayIncrement(s, id) && Stands(b, key, s)
    ensures NewCharge(s, id).key == key <==> NewCharge(s, id).budget == b.id
  {
    assert StandsAt(b, key, s.requests[id], s.requests[id].phase.next);
  }

  /** A step that does not expire the counter changes it by what it adds. */
  lemma TotalStep(s: State, e: Step, key: string)
    requires Enabled(s, e) && e != Expire(key)
    ensures Get(Next(s, e).counters, key) - Get(s.counters, key) == Total(Next(s, e), key) - Total(s, key)
  {
    if Charges(e) {
      SumsGrow(s.charges, NewCharge(s, e.id), key, "", 0);
    } else if e.LostReply? {
      SumsGrow(s.lost, NewCharge(s, e.id), key, "", 0);
    }
  }

  lemma SpendStep(s: State, e: Step, key: string, b: Budget)
    requires Enabled(s, e) && e != Expire(key) && Stands(b, key, s)
    ensures Get(Next(s, e).counters, key) - Get(s.counters, key) == Spend(Next(s, e), b, key) - Spend(s, b, key)
  {
    if Charges(e) {
      ChargeStands(s, e.id, b, key);
      SumsGrow(s.charges, NewCharge(s, e.id), key, b.id, 0);
    } else if e.LostReply? {
      SumsGrow(s.lost, NewCharge(s, e.id), key, "", 0);
    }
  }

  /** A counter is the sum of all that was added to it since it last expired: the charges to its key,
      and those whose reply was lost. */
  lemma {:induction false} CounterIsSumOfCharges(trace: seq<State>, steps: seq<Step>, i: nat, key: string)
    requires IsRun(trace, steps) && i < |trace|
    ensures Get(trace[i].counters, key) == Total(trace[i], key) - Total(trace[LastExpiry(steps, key, i)], key)
  {
    if i > 0 && steps[i - 1] != Expire(key) {
      CounterIsSumOfCharges(trace, steps, i - 1, key);
      TotalStep(trace[i - 1], steps[i - 1], key);
    }
  }

  /** No counter expires and no reply is lost. */
  ghost predicate Undisturbed(steps: seq<Step>) {
    forall i :: 0 <= i < |steps| ==> !steps[i].Expire? && !steps[i].LostReply?
  }

  /** Then a counter is the sum of all charges to its key. */
  lemma {:induction false} UndisturbedCounter(trace: seq<State>, steps: seq<Step>, i: nat, key: string)
    requires IsRun(trace, steps) && Undisturbed(steps) && i < |trace|
    ensures LastExpiry(steps, key, i) == 0 && trace[i].lost == []
    ensures Get(trace[i].counters, key) == SumKey(trace[i].charges, key)
  {
    if i > 0 {
      UndisturbedCounter(trace, steps, i - 1, key);
      assert Enabled(trace[i - 1], steps[i - 1]) && trace[i] == Next(trace[i - 1], steps[i - 1]);
    }
    CounterIsSumOfCharges(trace, steps, i, key);
  }

  /** A counter may expire at any time; it then reads zero, and nothing else changes. */
  lemma ExpiryStep(s: State, key: string)
    ensures Enabled(s, Expire(key)) && Get(Next(s, Expire(key)).counters, key) == 0.0
    ensures Next(s, Expire(key)) == s.(counters := Next(s, Expire(key)).counters)
    ensures forall k :: k != key ==> Get(Next(s, Expire(key)).counters, k) == Get(s.counters, k)
  {
  }

  /** When a counter stands for one budget, it equals that budget's recorded spend since the counter
      last expired, but for the charges whose reply was lost. */
  lemma {:induction false} CounterIsRecordedSpend(trace: seq<State>, steps: seq<Step>, i: nat, b: Budget, key: string)
    requires IsRun(trace, steps) && i < |trace| && forall j :: 0 <= j < |trace| ==> Stands(b, key, trace[j])
    ensures Get(trace[i].counters, key) == Spend(trace[i], b, key) - Spend(trace[LastExpiry(steps, key, i)], b, key)
  {
    if i > 0 && steps[i - 1] != Expire(key) {
      CounterIsRecordedSpend(trace, steps, i - 1, b, key);
      SpendStep(trace[i - 1], steps[i - 1], key, b);
    }
  }

  /** ... and all of that budget's recorded spend as long as it does not expire and no reply is lost. */
  lemma UndisturbedSpend(trace: seq<State>, steps: seq<Step>, i: nat, b: Budget, key: string)
    requires IsRun(trace, steps) && Undisturbed(steps) && i < |trace|
    requires forall j :: 0 <= j < |trace| ==> Stands(b, key, trace[j])
    ensures Get(trace[i].counters, key) == SumBudget(trace[i].charges, b.id)
  {
    UndisturbedCounter(trace, steps, i, key);
    CounterIsRecordedSpend(trace, steps, i, b, key);
  }

  /** What a request in phase `p` has charged to `key`, when no increment failed. */
  function Due(r: Request, key: string): real {
    match r.phase
    case Charging(n, cost, _) => if n <= |r.matched| then Times(r.matched, key, n) as real * cost else 0.0
    case Done(cost) => Times(r.matched, key, |r.matched|) as real * cost
    case _ => 0.0
  }

  ghost predicate AllDue(s: State, key: string) {
    forall id :: AddedBy(s, id, key) == DueOf(s, id, key)
  }

  /** What one request added to one counter, replies lost or not. */
  function AddedBy(s: State, id: nat, key: string): real {
    SumRequest(s.charges, id, key) + SumRequest(s.lost, id, key)
  }

  function DueOf(s: State, id: nat, key: string): real {
    if id in s.requests then Due(s.requests[id], key) else 0.0
  }

  lemma DueAdvances(r: Request, key: string)
    requires r.phase.Charging? && r.phase.next < |r.matched|
    ensures Due(r.(phase := AfterCharge(r)), key) ==
      Due(r, key) + (if Key(r, r.phase.next) == key then r.phase.cost else 0.0)
  {
    var n, cost := r.phase.next, r.phase.cost;
    var t := Times(r.matched, key, n);
    assert (t + 1) as real * cost == t as real * cost + cost;
  }

  /** A step changes what is due from a request only by charging it. */
  lemma DueMoves(s: State, e: Step, id: nat, key: string)
    requires Sound(s) && Enabled(s, e) && (e.Increment? ==> e.incOk)
    ensures DueOf(Next(s, e), id, key) == DueOf(s, id, key) +
      if Increments(e) && e.id == id && NewCharge(s, id).key == key then NewCharge(s, id).cost else 0.0
  {
    if Increments(e) && e.id == id {
      DueAdvances(s.requests[id], key);
    } else if e.Finish? && e.id == id {
      assert Times(s.requests[id].matched, key, 0) == 0;
    }
  }

  lemma AddedMoves(s: State, e: Step, id: nat, key: string)
    requires Enabled(s, e) && (e.Increment? ==> e.incOk)
    ensures AddedBy(Next(s, e), id, key) == AddedBy(s, id, key) +
      if Increments(e) && e.id == id && NewCharge(s, id).key == key then NewCharge(s, id).cost else 0.0
  {
    if Charges(e) {
      SumsGrow(s.charges, NewCharge(s, e.id), key, "", id);
    } else if e.LostReply? {
      SumsGrow(s.lost, NewCharge(s, e.id), key, "", id);
    }
  }

  lemma DueStep(s: State, e: Step, key: string)
    requires Sound(s) && Enabled(s, e) && AllDue(s, key) && (e.Increment? ==> e.incOk)
    ensures AllDue(Next(s, e), key)
  {
    forall id ensures AddedBy(Next(s, e), id, key) == DueOf(Next(s, e), id, key) {
      DueMoves(s, e, id, key);
      AddedMoves(s, e, id, key);
    }
  }

  /** When `m` matched budgets share a counter key, a finished request has added its cost to
      that counter exactly `m` times; an unfinished or rejected one, as often as it has got. */
  lemma {:induction false} ChargedOncePerBudget(trace: seq<State>, steps: seq<Step>, i: nat, key: string)
    requires IsRun(trace, steps) && i < |trace|
    requires forall j :: 0 <= j < |steps| && steps[j].Increment? ==> steps[j].incOk
    ensures AllDue(trace[i], key)
  {
    if i > 0 {
      ChargedOncePerBudget(trace, steps, i - 1, key);
      RunIsSound(trace, steps, i - 1);
      DueStep(trace[i - 1], steps[i - 1], key);
    }
  }

  // ---------- responses without a cost ----------

  /** No response carries a cost, as when all of them are streamed. */
  ghost predicate Costless(steps: seq<Step>) {
    forall i :: 0 <= i < |steps| && steps[i].Finish? ==> steps[i].cost <= 0.0
  }

  ghost predicate Untouched(s: State) {
    s.counters == map[] && s.charges == [] && s.lost == [] &&
    forall id :: id in s.requests ==> !s.requests[id].phase.Charging?
  }

  /** Then nothing is ever charged, and no budget with a limit above zero rejects anything. */
  lemma {:induction false} NeverCharged(trace: seq<State>, steps: seq<Step>, i: nat)
    requires IsRun(trace, steps) && Costless(steps) && i < |trace|
    ensures Untouched(trace[i])
    ensures i < |steps| && steps[i].Check? ==>
      var r := trace[i].requests[steps[i].id];
      !HardExceeded(r.matched[r.phase.next].budget, 0.0) ==>
      trace[i + 1].requests[steps[i].id].phase == Checking(r.phase.next + 1)
  {
    if i > 0 {
      NeverCharged(trace, steps, i - 1);
      assert Enabled(trace[i - 1], steps[i - 1]) && trace[i] == Next(trace[i - 1], steps[i - 1]);
    }
    if i < |steps| {
      assert Enabled(trace[i], steps[i]) && trace[i + 1] == Next(trace[i], steps[i]);
    }
  }

  /** So any number `n` of streamed requests are served under any budget with a limit above zero,
      however small, and whatever their answers cost. */
  lemma {:induction false} StreamsAreFree(b: Budget, now: nat, n: nat) returns (trace: seq<State>, steps: seq<Step>)
    requires !HardExceeded(b, 0.0)
    ensures IsRun(trace, steps) && |steps| == 3 * n && trace[3 * n].counters == map[]
    ensures forall id :: id in trace[3 * n].requests <==> 0 <= id < n
    ensures forall id :: 0 <= id < n ==> steps[3 * id + 2] == Finish(id, 0.0)
  {
    if n == 0 {
      trace, steps := [START], [];
    } else {
      trace, steps := StreamsAreFree(b, now, n - 1);
      trace, steps := Extended(trace, steps, Arrive(n - 1, [b], now));
      trace, steps := Extended(trace, steps, Check(n - 1, true));
      trace, steps := Extended(trace, steps, Finish(n - 1, 0.0));
    }
  }

  lemma Extended(trace: seq<State>, steps: seq<Step>, e: Step) returns (trace': seq<State>, steps': seq<Step>)
    requires IsRun(trace, steps) && Enabled(trace[|steps|], e)
    ensures IsRun(trace', steps') && steps' == steps + [e] && trace' == trace + [Next(trace[|steps|], e)]
  {
    trace', steps' := trace + [Next(trace[|steps|], e)], steps + [e];
  }
}
