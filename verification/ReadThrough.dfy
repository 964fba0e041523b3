/** A primary store behind a best-effort cache, as interleaved store commands: the protocol that
    the session and mask decorators share. */
module ReadThrough {
  import opened Wrappers

  /** `Reading` is about to read the primary, `Saving` to write what it read (or has just written
      there) to the cache, `Answer` is done, `Failed` met an error of the primary or a row that the
      primary does not show to this caller. */
  datatype Thread<V> =
    | Reading(key: string)
    | Saving(key: string, v: V)
    | Answer(key: string, found: Option<V>)
    | Failed(key: string)

  datatype State<V> = State(primary: map<string, V>, cache: map<string, V>, threads: map<nat, Thread<V>>)

  /** `Get` finds the cache down when `up` is false; a `Save` to the cache may fail, and the cache
      may lose any entry at any time. `Put` writes a version to the primary and goes on to refresh
      the cache, either with what it wrote or by reading it back. */
  datatype Step<V> =
    | Get(t: nat, key: string, up: bool)
    | Read(t: nat, ok: bool)
    | Save(t: nat, ok: bool)
    | End(t: nat)
    | Put(t: nat, key: string, v: V, readBack: bool)
    | Drop(keys: set<string>)
    | Evict(key: string)

  predicate Enabled<V>(s: State<V>, e: Step<V>) {
    match e
    case Get(t, _, _) => t !in s.threads
    case Read(t, _) => t in s.threads && s.threads[t].Reading?
    case Save(t, _) => t in s.threads && s.threads[t].Saving?
    case End(t) => t in s.threads && (s.threads[t].Answer? || s.threads[t].Failed?)
    case Put(t, _, _, _) => t !in s.threads
    case Drop(_) => true
    case Evict(_) => true
  }

  function Next<V>(s: State<V>, e: Step<V>): State<V>
    requires Enabled(s, e)
  {
    match e
    case Get(t, key, up) =>
      s.(threads := s.threads[t := if up && key in s.cache then Answer(key, Some(s.cache[key])) else Reading(key)])
    case Read(t, ok) =>
      var key := s.threads[t].key;
      s.(threads := s.threads[t :=
        if !ok then Failed(key) else if key in s.primary then Saving(key, s.primary[key]) else Answer(key, None)])
    case Save(t, ok) =>
      var Saving(key, v) := s.threads[t];
      s.(cache := if ok then s.cache[key := v] else s.cache, threads := s.threads[t := Answer(key, Some(v))])
    case End(t) => s.(threads := s.threads - {t})
    case Put(t, key, v, readBack) =>
      s.(primary := s.primary[key := v], threads := s.threads[t := if readBack then Reading(key) else Saving(key, v)])
    case Drop(keys) => s.(primary := s.primary - keys)
    case Evict(key) => s.(cache := s.cache - {key})
  }

  /** Where a list of steps leads, if every one of them can be taken. */
  function Exec<V>(s: State<V>, steps: seq<Step<V>>): Option<State<V>>
    decreases |steps|
  {
    if steps == [] then Some(s)
    else if Enabled(s, steps[0]) then Exec(Next(s, steps[0]), steps[1..]) else None
  }

  /** No request is under way. */
  function Idle<V>(primary: map<string, V>, cache: map<string, V>): State<V> {
    State(primary, cache, map[])
  }

  /** The steps one `Get` takes when nothing else is going on. */
  function GetSteps<V>(key: string, up: bool, sees: bool, ok: bool, s: State<V>): seq<Step<V>> {
    if up && key in s.cache then [Get(0, key, up), End(0)]
    else if sees && key in s.primary then [Get(0, key, up), Read(0, true), Save(0, ok), End(0)]
    else [Get(0, key, up), Read(0, sees), End(0)]
  }

  /** The steps of a write: the primary row, then the cache, from the value at hand or read back. */
  function PutSteps<V>(key: string, v: V, readBack: bool, ok: bool): seq<Step<V>> {
    if readBack then [Put(0, key, v, true), Read(0, true), Save(0, ok), End(0)]
    else [Put(0, key, v, false), Save(0, ok), End(0)]
  }

  lemma ExecCons<V>(s: State<V>, e: Step<V>, rest: seq<Step<V>>)
    requires Enabled(s, e)
    ensures Exec(s, [e] + rest) == Exec(Next(s, e), rest)
  {
    assert ([e] + rest)[1..] == rest;
  }

  lemma GetAlone<V>(primary: map<string, V>, cache: map<string, V>, key: string, up: bool, sees: bool, ok: bool)
    ensures var s := Idle(primary, cache);
      Exec(s, GetSteps(key, up, sees, ok, s)) == Some(Idle(primary,
        if !(up && key in cache) && sees && key in primary && ok then cache[key := primary[key]] else cache))
  {
    var s := Idle(primary, cache);
    var e: Step<V> := Get(0, key, up);
    var s1 := Next(s, e);
    if up && key in cache {
      ExecCons(s, e, [End(0)]);
      ExecCons(s1, End(0), []);
      assert GetSteps(key, up, sees, ok, s) == [e] + [End(0)];
      assert s1.threads - {0} == map[];
    } else {
      ReadAlone(s1, key, sees, ok);
      ExecCons(s, e, ReadSteps(s1, key, sees, ok));
      assert GetSteps(key, up, sees, ok, s) == [e] + ReadSteps(s1, key, sees, ok);
    }
  }

  function ReadSteps<V>(s: State<V>, key: string, sees: bool, ok: bool): seq<Step<V>> {
    if sees && key in s.primary then [Read(0, true), Save(0, ok), End(0)] else [Read(0, sees), End(0)]
  }

  lemma ReadAlone<V>(s: State<V>, key: string, sees: bool, ok: bool)
    requires s.threads == map[0 := Reading(key)]
    ensures Exec(s, ReadSteps(s, key, sees, ok)) == Some(Idle(s.primary,
      if sees && key in s.primary && ok then s.cache[key := s.primary[key]] else s.cache))
  {
    var s1 := Next(s, Read(0, sees));
    if sees && key in s.primary {
      assert s1.threads == map[0 := Saving(key, s.primary[key])];
      SaveAlone(s1, key, s.primary[key], ok);
      ExecCons(s, Read(0, true), [Save(0, ok), End(0)]);
      assert ReadSteps(s, key, sees, ok) == [Read(0, true)] + [Save(0, ok), End(0)];
    } else {
      ExecCons(s1, End(0), []);
      ExecCons(s, Read(0, sees), [End(0)]);
      assert ReadSteps(s, key, sees, ok) == [Read(0, sees)] + [End(0)];
      assert s1.threads - {0} == map[];
    }
  }

  lemma SaveAlone<V>(s: State<V>, key: string, v: V, ok: bool)
    requires s.threads == map[0 := Saving(key, v)]
    ensures Exec(s, [Save(0, ok), End(0)]) == Some(Idle(s.primary, if ok then s.cache[key := v] else s.cache))
  {
    var e: Step<V> := Save(0, ok);
    var s1 := Next(s, e);
    ExecCons(s, e, [End(0)]);
    ExecCons(s1, End(0), []);
    assert [e, End(0)] == [e] + [End(0)];
    assert s1.threads - {0} == map[];
  }

  lemma PutAlone<V>(primary: map<string, V>, cache: map<string, V>, key: string, v: V, readBack: bool, ok: bool)
    ensures Exec(Idle(primary, cache), PutSteps(key, v, readBack, ok)) ==
      Some(Idle(primary[key := v], if ok then cache[key := v] else cache))
  {
    var s := Idle(primary, cache);
    var e := Put(0, key, v, readBack);
    var s1 := Next(s, e);
    if readBack {
      ReadAlone(s1, key, true, ok);
      ExecCons(s, e, ReadSteps(s1, key, true, ok));
      assert PutSteps(key, v, readBack, ok) == [e] + ReadSteps(s1, key, true, ok);
    } else {
      SaveAlone(s1, key, v, ok);
      ExecCons(s, e, [Save(0, ok), End(0)]);
      assert PutSteps(key, v, readBack, ok) == [e] + [Save(0, ok), End(0)];
    }
  }

  ghost predicate IsRun<V>(trace: seq<State<V>>, steps: seq<Step<V>>) {
    |trace| == |steps| + 1 && trace[0] == State(map[], map[], map[]) &&
    forall i :: 0 <= i < |steps| ==> Enabled(trace[i], steps[i]) && trace[i + 1] == Next(trace[i], steps[i])
  }

  /** The primary held version `v` of `key` at some state up to `j`. */
  ghost predicate Held<V>(trace: seq<State<V>>, j: nat, key: string, v: V) {
    exists i :: 0 <= i <= j && i < |trace| && At(trace[i], key, v)
  }

  predicate At<V(==)>(s: State<V>, key: string, v: V) {
    key in s.primary && s.primary[key] == v
  }

  /** The primary lacked `key` at some state up to `j`. */
  ghost predicate Lacked<V>(trace: seq<State<V>>, j: nat, key: string) {
    exists i :: 0 <= i <= j && i < |trace| && Absent(trace[i], key)
  }

  predicate Absent<V>(s: State<V>, key: string) {
    key !in s.primary
  }

  /** What a thread knows was true of the primary at some time. */
  ghost predicate Knows<V>(trace: seq<State<V>>, j: nat, th: Thread<V>) {
    match th
    case Reading(_) => true
    case Saving(key, v) => Held(trace, j, key, v)
    case Answer(key, Some(v)) => Held(trace, j, key, v)
    case Answer(key, None) => Lacked(trace, j, key)
    case Failed(_) => true
  }

  ghost predicate Genuine<V>(trace: seq<State<V>>, j: nat)
    requires j < |trace|
  {
    (forall k :: k in trace[j].cache ==> Held(trace, j, k, trace[j].cache[k])) &&
    forall t :: t in trace[j].threads ==> Knows(trace, j, trace[j].threads[t])
  }

  lemma HeldLater<V>(trace: seq<State<V>>, j: nat)
    requires j + 1 < |trace|
    ensures forall k, v :: Held(trace, j, k, v) ==> Held(trace, j + 1, k, v)
    ensures forall k :: Lacked(trace, j, k) ==> Lacked(trace, j + 1, k)
    ensures forall k, v :: At(trace[j], k, v) || At(trace[j + 1], k, v) ==> Held(trace, j + 1, k, v)
    ensures forall k :: Absent(trace[j], k) ==> Lacked(trace, j + 1, k)
  {
  }

  lemma GenuineStep<V>(trace: seq<State<V>>, steps: seq<Step<V>>, j: nat)
    requires IsRun(trace, steps) && j + 1 < |trace| && Genuine(trace, j)
    ensures Genuine(trace, j + 1)
  {
    HeldLater(trace, j);
    var s, s', e := trace[j], trace[j + 1], steps[j];
    assert Enabled(s, e) && s' == Next(s, e);
    assert e.Put? ==> At(s', e.key, e.v);
    assert e.Read? && s.threads[e.t].key in s.primary ==> At(s, s.threads[e.t].key, s.primary[s.threads[e.t].key]);
    assert e.Read? && s.threads[e.t].key !in s.primary ==> Absent(s, s.threads[e.t].key);
    forall t | t in s'.threads ensures Knows(trace, j + 1, s'.threads[t]) {
      assert t in s.threads ==> Knows(trace, j, s.threads[t]);
    }
  }

  /** Under any interleaving, with failing cache writes and vanishing entries, the cache and every
      answer hold only versions that the primary once held. */
  lemma {:induction false} AlwaysGenuine<V>(trace: seq<State<V>>, steps: seq<Step<V>>, j: nat)
    requires IsRun(trace, steps) && j < |trace|
    ensures Genuine(trace, j)
  {
    if j > 0 {
      AlwaysGenuine(trace, steps, j - 1);
      GenuineStep(trace, steps, j - 1);
    }
  }

  /** Rows are inserted when absent and never changed or removed. */
  ghost predicate InsertOnly<V>(trace: seq<State<V>>, steps: seq<Step<V>>) {
    IsRun(trace, steps) &&
    forall i :: 0 <= i < |steps| ==> !steps[i].Drop? && (steps[i].Put? ==> steps[i].key !in trace[i].primary)
  }

  lemma {:induction false} RowsStay<V>(trace: seq<State<V>>, steps: seq<Step<V>>, i: nat, j: nat, key: string, v: V)
    requires InsertOnly(trace, steps) && i <= j < |trace| && At(trace[i], key, v)
    ensures At(trace[j], key, v)
    decreases j - i
  {
    if i < j {
      RowsStay(trace, steps, i, j - 1, key, v);
      assert Enabled(trace[j - 1], steps[j - 1]) && trace[j] == Next(trace[j - 1], steps[j - 1]);
    }
  }

  /** Over an insert-only primary every successful answer is exactly the primary's current row. */
  lemma InsertOnlyIsExact<V>(trace: seq<State<V>>, steps: seq<Step<V>>, j: nat, t: nat)
    requires InsertOnly(trace, steps) && j < |trace| && t in trace[j].threads
    requires trace[j].threads[t].Answer? && trace[j].threads[t].found.Some?
    ensures At(trace[j], trace[j].threads[t].key, trace[j].threads[t].found.value)
  {
    AlwaysGenuine(trace, steps, j);
    var th := trace[j].threads[t];
    assert Knows(trace, j, th) && Held(trace, j, th.key, th.found.value);
    var i :| 0 <= i <= j && i < |trace| && At(trace[i], th.key, th.found.value);
    RowsStay(trace, steps, i, j, th.key, th.found.value);
  }

  // ---------- when the cache is fresh ----------

  predicate Current<V(==)>(s: State<V>, key: string, found: Option<V>) {
    found == if key in s.primary then Some(s.primary[key]) else None
  }

  /** The cache entry of `key`, if any, and every version of it on its way to the cache are the
      primary's row now; for a row that is gone there is neither. */
  ghost predicate Fresh<V>(s: State<V>, key: string) {
    (key in s.cache ==> Current(s, key, Some(s.cache[key]))) &&
    forall t :: t in s.threads && s.threads[t].Saving? && s.threads[t].key == key ==>
      Current(s, key, Some(s.threads[t].v))
  }

  /** The row of `key` is neither put nor dropped. */
  ghost predicate Leaves<V(!new)>(steps: seq<Step<V>>, key: string) {
    forall i :: 0 <= i < |steps| ==> Spares(steps[i], key)
  }

  predicate Spares<V>(e: Step<V>, key: string) {
    match e case Put(_, k, _, _) => k != key case Drop(keys) => key !in keys case _ => true
  }

  /** Whatever happens next, short of a change to the row, its cache entry is the primary's row. */
  ghost predicate StaysFresh<V(!new)>(s: State<V>, key: string) {
    forall steps :: Leaves(steps, key) && Exec(s, steps).Some? ==>
      var s' := Exec(s, steps).value; key in s'.cache ==> Current(s', key, Some(s'.cache[key]))
  }

  /** ... and so is every answer about it to a request that has not begun yet. */
  ghost predicate AnswersFresh<V(!new)>(s: State<V>, key: string) {
    forall steps, t :: Leaves(steps, key) && Exec(s, steps).Some? && t !in s.threads ==>
      var s' := Exec(s, steps).value;
      t in s'.threads && s'.threads[t].Answer? && s'.threads[t].key == key ==> Current(s', key, s'.threads[t].found)
  }

  /** What requests that began after those of `before` answer about `key` is the row. */
  ghost predicate Answering<V>(s: State<V>, before: set<nat>, key: string) {
    forall t :: t in s.threads && t !in before && s.threads[t].Answer? && s.threads[t].key == key ==>
      Current(s, key, s.threads[t].found)
  }

  lemma FreshStep<V>(s: State<V>, e: Step<V>, before: set<nat>, key: string)
    requires Enabled(s, e) && Spares(e, key) && Fresh(s, key) && Answering(s, before, key)
    ensures Fresh(Next(s, e), key) && Answering(Next(s, e), before, key)
  {
    var s' := Next(s, e);
    assert key in s'.primary <==> key in s.primary;
    assert key in s.primary ==> s'.primary[key] == s.primary[key];
    forall t | t in s'.threads && s'.threads[t].Saving? && s'.threads[t].key == key
      ensures Current(s', key, Some(s'.threads[t].v))
    {
      assert t in s.threads && s.threads[t].Saving? ==> s'.threads[t] == s.threads[t];
    }
    forall t | t in s'.threads && t !in before && s'.threads[t].Answer? && s'.threads[t].key == key
      ensures Current(s', key, s'.threads[t].found)
    {
      assert t in s.threads && s.threads[t].Answer? ==> s'.threads[t] == s.threads[t];
    }
  }

  lemma {:induction false} FreshRun<V(!new)>(s: State<V>, steps: seq<Step<V>>, before: set<nat>, key: string)
    requires Leaves(steps, key) && Exec(s, steps).Some? && Fresh(s, key) && Answering(s, before, key)
    ensures Fresh(Exec(s, steps).value, key) && Answering(Exec(s, steps).value, before, key)
    decreases |steps|
  {
    if steps != [] {
      FreshStep(s, steps[0], before, key);
      FreshRun(Next(s, steps[0]), steps[1..], before, key);
    }
  }

  lemma UnusedThread(ts: set<nat>) returns (t: nat)
    ensures t !in ts && forall u :: u in ts ==> u < t
  {
    if ts == {} {
      t := 0;
    } else {
      var u :| u in ts;
      var v := UnusedThread(ts - {u});
      t := if v > u then v else u + 1;
      assert forall x :: x in ts ==> x == u || x in ts - {u};
    }
  }

  /** An entry that is not the primary's row is answered to the next request. */
  lemma StaleEntryShows<V(!new)>(s: State<V>, first: seq<Step<V>>, key: string)
    requires Leaves(first, key) && Exec(s, first).Some?
    requires var s' := Exec(s, first).value;
      s'.threads.Keys <= s.threads.Keys && key in s'.cache && !Current(s', key, Some(s'.cache[key]))
    ensures !StaysFresh(s, key) && !AnswersFresh(s, key)
  {
    var s' := Exec(s, first).value;
    var t := UnusedThread(s.threads.Keys);
    var e: Step<V> := Get(t, key, true);
    ExecSnoc(s, first, e);
    assert Leaves(first + [e], key);
    assert Exec(s, first + [e]).value.threads[t] == Answer(key, Some(s'.cache[key]));
  }

  lemma {:induction false} ExecSnoc<V>(s: State<V>, steps: seq<Step<V>>, e: Step<V>)
    requires Exec(s, steps).Some? && Enabled(Exec(s, steps).value, e)
    ensures Exec(s, steps + [e]) == Some(Next(Exec(s, steps).value, e))
    decreases |steps|
  {
    if steps != [] {
      assert (steps + [e])[1..] == steps[1..] + [e];
      ExecSnoc(Next(s, steps[0]), steps[1..], e);
    } else {
      assert steps + [e] == [e] && [e][1..] == [];
    }
  }

  /** As long as the row of `key` is neither put nor dropped, every later cache entry of it and every
      later answer about it is the primary's row, if and only if the cache and what is on its way to
      the cache are so now. */
  lemma FreshExact<V(!new)>(s: State<V>, key: string)
    ensures StaysFresh(s, key) <==> Fresh(s, key)
    ensures AnswersFresh(s, key) <==> Fresh(s, key)
  {
    if Fresh(s, key) {
      forall steps | Leaves(steps, key) && Exec(s, steps).Some?
        ensures Fresh(Exec(s, steps).value, key) && Answering(Exec(s, steps).value, s.threads.Keys, key)
      {
        FreshRun(s, steps, s.threads.Keys, key);
      }
    } else if key in s.cache && !Current(s, key, Some(s.cache[key])) {
      StaleEntryShows(s, [], key);
    } else {
      var t :| t in s.threads && s.threads[t].Saving? && s.threads[t].key == key &&
               !Current(s, key, Some(s.threads[t].v));
      var e: Step<V> := Save(t, true);
      assert [] + [e] == [e];
      ExecSnoc(s, [], e);
      StaleEntryShows(s, [e], key);
    }
  }

  lemma Follow<V>(steps: seq<Step<V>>, s: State<V>, e: Step<V>) returns (steps': seq<Step<V>>, s': State<V>)
    requires Exec(Idle(map[], map[]), steps) == Some(s) && Enabled(s, e)
    ensures steps' == steps + [e] && s' == Next(s, e) && Exec(Idle(map[], map[]), steps') == Some(s')
  {
    steps', s' := steps + [e], Next(s, e);
    ExecSnoc(Idle(map[], map[]), steps, e);
  }

  /** A row is inserted, its cache write fails, and a reader fetches it. */
  lemma ReaderHolds<V>(key: string, v: V) returns (steps: seq<Step<V>>, s: State<V>)
    ensures steps == [Put(0, key, v, false), Save(0, false), Get(1, key, true), Read(1, true)]
    ensures s == State(map[key := v], map[], map[0 := Answer(key, Some(v)), 1 := Saving(key, v)])
    ensures Exec(Idle(map[], map[]), steps) == Some(s)
  {
    steps, s := Follow([], Idle(map[], map[]), Put(0, key, v, false));
    steps, s := Follow(steps, s, Save(0, false));
    steps, s := Follow(steps, s, Get(1, key, true));
    steps, s := Follow(steps, s, Read(1, true));
  }

  /** Then an update writes and caches a new version, and the reader stores the old one: a run of both
      decorators' commands that leads to an answer out of date. */
  lemma StaleAnswer<V>(key: string, v: V, w: V) returns (steps: seq<Step<V>>, s: State<V>)
    requires v != w
    ensures steps == [Put(0, key, v, false), Save(0, false), Get(1, key, true), Read(1, true), Put(2, key, w, true),
                      Read(2, true), Save(2, true), Save(1, true), Get(3, key, true)]
    ensures Exec(Idle(map[], map[]), steps) == Some(s)
    ensures At(s, key, w) && 3 in s.threads && s.threads[3] == Answer(key, Some(v))
  {
    steps, s := ReaderHolds(key, v);
    steps, s := Follow(steps, s, Put(2, key, w, true));
    steps, s := Follow(steps, s, Read(2, true));
    steps, s := Follow(steps, s, Save(2, true));
    assert s == State(map[key := w], map[key := w],
                      map[0 := Answer(key, Some(v)), 1 := Saving(key, v), 2 := Answer(key, Some(w))]);
    steps, s := Follow(steps, s, Save(1, true));
    steps, s := Follow(steps, s, Get(3, key, true));
  }

  /** In the same way the reader brings back a row that was deleted, from the cache as well. */
  lemma DeletedReturns<V>(key: string, v: V) returns (steps: seq<Step<V>>, s: State<V>)
    ensures steps == [Put(0, key, v, false), Save(0, false), Get(1, key, true), Read(1, true), Drop({key}),
                      Evict(key), Save(1, true), Get(2, key, true)]
    ensures Exec(Idle(map[], map[]), steps) == Some(s)
    ensures Absent(s, key) && 2 in s.threads && s.threads[2] == Answer(key, Some(v))
  {
    steps, s := ReaderHolds(key, v);
    steps, s := Follow(steps, s, Drop({key}));
    steps, s := Follow(steps, s, Evict(key));
    steps, s := Follow(steps, s, Save(1, true));
    steps, s := Follow(steps, s, Get(2, key, true));
  }
}
