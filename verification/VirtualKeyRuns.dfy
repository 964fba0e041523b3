/** Revocation under interleaving: lookups, refreshes and admin writes as atomic steps. */
module VirtualKeyRuns {
  import opened Wrappers
  import opened VirtualKeys

  /** A lookup that missed the index, then has read its row, then holds its answer. An index hit
      holds its answer at once. */
  datatype Lookup = Missed(hash: string) | Fetched(hash: string, vk: VirtualKey) | Holding(vk: VirtualKey)

  /** `listed` is the row list of a refresh that has not swapped it in yet. */
  datatype State = State(rows: Rows, index: Rows, lookups: map<nat, Lookup>, listed: Option<Rows>)

  datatype Step =
    | Begin(t: nat, hash: string)
    | Fetch(t: nat)
    | Store(t: nat)
    | Decide(t: nat)
    | List
    | Install
    | Write(hash: string, row: VirtualKey)
    | Invalidate(id: string)

  predicate Enabled(s: State, e: Step) {
    match e
    case Begin(t, _) => t !in s.lookups
    case Fetch(t) => t in s.lookups && s.lookups[t].Missed?
    case Store(t) => t in s.lookups && s.lookups[t].Fetched?
    case Decide(t) => t in s.lookups && s.lookups[t].Holding?
    case List => s.listed.None?
    case Install => s.listed.Some?
    case Write(hash, row) => row.hash == hash
    case Invalidate(_) => true
  }

  function Next(s: State, e: Step): State
    requires Enabled(s, e)
  {
    match e
    case Begin(t, hash) =>
      s.(lookups := s.lookups[t := if hash in s.index then Holding(s.index[hash]) else Missed(hash)])
    case Fetch(t) =>
      var found := FindByHash(s.rows, s.lookups[t].hash);
      if found.Some? then s.(lookups := s.lookups[t := Fetched(s.lookups[t].hash, found.value)])
      else s.(lookups := s.lookups - {t})
    case Store(t) =>
      var l := s.lookups[t];
      s.(index := s.index[l.hash := l.vk], lookups := s.lookups[t := Holding(l.vk)])
    case Decide(t) => s.(lookups := s.lookups - {t})
    case List => s.(listed := Some(s.rows))
    case Install => s.(index := s.listed.value, listed := None)
    case Write(hash, row) => s.(rows := s.rows[hash := row])
    case Invalidate(id) => s.(index := map h | h in s.index && s.index[h].id != id :: s.index[h])
  }

  /** The steps of a lookup on its own: an indexed key answers at once; else the enabled row, if any, is
      stored and answers. */
  lemma LookupAlone(rows: Rows, index: Rows, hash: string, t: nat)
    ensures
      var s := State(rows, index, map[], None);
      var s1 := Next(s, Begin(t, hash));
      if hash in index then
        s1 == s.(lookups := map[t := Holding(index[hash])]) && Enabled(s1, Decide(t)) && Next(s1, Decide(t)) == s
      else
        Enabled(s1, Fetch(t)) &&
        if hash in rows && rows[hash].enabled == true then
          var s2 := Next(s1, Fetch(t));
          Enabled(s2, Store(t)) &&
          Next(s2, Store(t)) == s.(index := index[hash := rows[hash]], lookups := map[t := Holding(rows[hash])])
        else Next(s1, Fetch(t)) == s
  {
  }

  /** A refresh on its own, an invalidation and an admin write. */
  lemma OthersAlone(s: State, id: string, hash: string, row: VirtualKey)
    ensures s.listed.None? ==>
      Enabled(s, List) && Enabled(Next(s, List), Install) && Next(Next(s, List), Install) == s.(index := s.rows)
    ensures Enabled(s, Invalidate(id)) && Next(s, Invalidate(id)) == s.(index := Next(s, Invalidate(id)).index) &&
      forall h :: h in Next(s, Invalidate(id)).index <==> h in s.index && s.index[h].id != id
    ensures forall h :: h in Next(s, Invalidate(id)).index ==> Next(s, Invalidate(id)).index[h] == s.index[h]
    ensures row.hash == hash ==>
      Enabled(s, Write(hash, row)) && Next(s, Write(hash, row)) == s.(rows := s.rows[hash := row])
  {
  }

  // ---------- revocation ----------

  /** A copy of key `id` from before it was revoked. */
  predicate Stale(vk: VirtualKey, id: string) {
    vk.id == id && vk.enabled
  }

  ghost predicate NoneStale(rows: Rows, id: string) {
    forall h :: h in rows ==> !Stale(rows[h], id)
  }

  /** No copy from before the revocation can still reach the index. Lookups that already hold
      such a copy as their answer are not counted: they only still have to decide. */
  ghost predicate Quiet(s: State, id: string) {
    NoneStale(s.index, id) &&
    (s.listed.Some? ==> NoneStale(s.listed.value, id)) &&
    forall t :: t in s.lookups && s.lookups[t].Fetched? ==> !Stale(s.lookups[t].vk, id)
  }

  /** Lookups about to be answered with a copy from before the revocation. */
  function Holders(s: State, id: string): set<nat> {
    set t | t in s.lookups && s.lookups[t].Holding? && Stale(s.lookups[t].vk, id)
  }

  lemma QuietStep(s: State, e: Step, id: string)
    requires Enabled(s, e) && Quiet(s, id) && NoneStale(s.rows, id) && NoneStale(Next(s, e).rows, id)
    ensures Quiet(Next(s, e), id)
    ensures Holders(Next(s, e), id) <= Holders(s, id)
  {
  }

  /** Legal steps during which key `id` stays revoked in the table. */
  ghost predicate StaysRevoked(s: State, steps: seq<Step>, id: string)
    decreases |steps|
  {
    NoneStale(s.rows, id) &&
    (steps != [] ==> Enabled(s, steps[0]) && StaysRevoked(Next(s, steps[0]), steps[1..], id))
  }

  /** Some lookup outside `before` is decided with a copy that is still enabled. */
  ghost predicate Accepts(s: State, steps: seq<Step>, id: string, before: set<nat>)
    requires StaysRevoked(s, steps, id)
    decreases |steps|
  {
    steps != [] &&
    ((steps[0].Decide? && steps[0].t !in before && steps[0].t in Holders(s, id)) ||
     Accepts(Next(s, steps[0]), steps[1..], id, before))
  }

  /** Whatever happens while the key stays revoked, only lookups that hold their answer already
      can still accept it. */
  ghost predicate SafeForever(s: State, id: string) {
    forall steps :: StaysRevoked(s, steps, id) ==> !Accepts(s, steps, id, Holders(s, id))
  }

  lemma {:induction false} QuietIsSafe(s: State, steps: seq<Step>, id: string, before: set<nat>)
    requires StaysRevoked(s, steps, id) && Quiet(s, id) && Holders(s, id) <= before
    ensures !Accepts(s, steps, id, before)
    decreases |steps|
  {
    if steps != [] {
      assert StaysRevoked(Next(s, steps[0]), steps[1..], id) && NoneStale(Next(s, steps[0]).rows, id);
      QuietStep(s, steps[0], id);
      QuietIsSafe(Next(s, steps[0]), steps[1..], id, before);
    }
  }

  lemma FreshLookup(s: State, before: set<nat>) returns (t: nat)
    ensures t !in s.lookups && t !in before
  {
    t := Above(s.lookups.Keys + before);
  }

  lemma Above(ts: set<nat>) returns (t: nat)
    ensures forall u :: u in ts ==> u < t
  {
    if ts == {} {
      t := 0;
    } else {
      var u :| u in ts;
      var r := Above(ts - {u});
      t := if u < r then r else u + 1;
      assert ts == (ts - {u}) + {u};
    }
  }

  /** A stale index entry is accepted by the next lookup of its hash. */
  lemma IndexAccepts(s: State, h: string, id: string, before: set<nat>) returns (steps: seq<Step>)
    requires NoneStale(s.rows, id) && h in s.index && Stale(s.index[h], id)
    ensures StaysRevoked(s, steps, id) && Accepts(s, steps, id, before)
  {
    var t := FreshLookup(s, before);
    steps := [Begin(t, h), Decide(t)];
    var s1 := Next(s, steps[0]);
    var last := [Decide(t)];
    assert steps[1..] == last && last[1..] == [];
    assert StaysRevoked(Next(s1, last[0]), [], id);
    assert StaysRevoked(s1, last, id);
    assert t in Holders(s1, id) && Accepts(s1, last, id, before);
  }

  /** One more step in front keeps an accepting run accepting. */
  lemma AcceptsAfter(s: State, e: Step, steps: seq<Step>, id: string, before: set<nat>)
    requires NoneStale(s.rows, id) && Enabled(s, e) && StaysRevoked(Next(s, e), steps, id)
    requires Accepts(Next(s, e), steps, id, before)
    ensures StaysRevoked(s, [e] + steps, id) && Accepts(s, [e] + steps, id, before)
  {
    assert ([e] + steps)[1..] == steps;
  }

  /** A revoked key is safe from a state on exactly when no copy from before the revocation is in
      the index, in a pending refresh, or in a lookup that has read it but not stored it yet. */
  lemma RevocationExact(s: State, id: string)
    requires NoneStale(s.rows, id)
    ensures SafeForever(s, id) <==> Quiet(s, id)
  {
    var before := Holders(s, id);
    if Quiet(s, id) {
      forall steps | StaysRevoked(s, steps, id) ensures !Accepts(s, steps, id, before) {
        QuietIsSafe(s, steps, id, before);
      }
    } else {
      var steps := UnsafeRun(s, id, before);
      assert StaysRevoked(s, steps, id) && Accepts(s, steps, id, before);
    }
  }

  lemma UnsafeRun(s: State, id: string, before: set<nat>) returns (steps: seq<Step>)
    requires NoneStale(s.rows, id) && !Quiet(s, id)
    ensures StaysRevoked(s, steps, id) && Accepts(s, steps, id, before)
  {
    if h :| h in s.index && Stale(s.index[h], id) {
      steps := IndexAccepts(s, h, id, before);
    } else if s.listed.Some? && !NoneStale(s.listed.value, id) {
      var h :| h in s.listed.value && Stale(s.listed.value[h], id);
      steps := IndexAccepts(Next(s, Install), h, id, before);
      AcceptsAfter(s, Install, steps, id, before);
      steps := [Install] + steps;
    } else {
      var t :| t in s.lookups && s.lookups[t].Fetched? && Stale(s.lookups[t].vk, id);
      steps := IndexAccepts(Next(s, Store(t)), s.lookups[t].hash, id, before);
      AcceptsAfter(s, Store(t), steps, id, before);
      steps := [Store(t)] + steps;
    }
  }

  // ---------- how a refresh reaches that state ----------

  /** States reached by legal steps. */
  ghost predicate IsRun(trace: seq<State>, steps: seq<Step>) {
    |trace| == |steps| + 1 &&
    forall i :: 0 <= i < |steps| ==> Enabled(trace[i], steps[i]) && trace[i + 1] == Next(trace[i], steps[i])
  }

  /** Lookups that have read a copy from before the revocation and not stored it yet. */
  function Carriers(s: State, id: string): set<nat> {
    set t | t in s.lookups && s.lookups[t].Fetched? && Stale(s.lookups[t].vk, id)
  }

  /** Once the key is revoked, no further lookup can pick up such a copy from the table. */
  lemma {:induction false} CarriersOnlyFinish(trace: seq<State>, steps: seq<Step>, i: nat, j: nat, id: string)
    requires IsRun(trace, steps) && i <= j < |trace|
    requires forall k :: i <= k < |trace| ==> NoneStale(trace[k].rows, id)
    ensures Carriers(trace[j], id) <= Carriers(trace[i], id)
    decreases j - i
  {
    if i < j {
      CarriersOnlyFinish(trace, steps, i, j - 1, id);
      assert NoneStale(trace[j - 1].rows, id) && Enabled(trace[j - 1], steps[j - 1]);
      assert trace[j] == Next(trace[j - 1], steps[j - 1]);
    }
  }

  lemma {:induction false} ListStays(trace: seq<State>, steps: seq<Step>, i: nat, j: nat)
    requires IsRun(trace, steps) && i < j < |trace|
    requires steps[i].List? && forall k :: i < k < j ==> !steps[k].Install?
    ensures trace[j].listed == Some(trace[i].rows)
    decreases j - i
  {
    assert Enabled(trace[j - 1], steps[j - 1]) && trace[j] == Next(trace[j - 1], steps[j - 1]);
    if i + 1 < j {
      ListStays(trace, steps, i, j - 1);
    }
  }

  /** Revoked from state `r` on; a refresh lists at `l >= r` and swaps in at `k`; every lookup
      that had read the key before the revocation has stored it before the swap. Then nothing
      but lookups holding their answer at that moment can ever accept the key again. */
  lemma RefreshEndsRevocation(trace: seq<State>, steps: seq<Step>, r: nat, l: nat, k: nat, id: string)
    requires IsRun(trace, steps) && r <= l < k < |steps|
    requires forall i :: r <= i < |trace| ==> NoneStale(trace[i].rows, id)
    requires steps[l].List? && steps[k].Install? && forall i :: l < i < k ==> !steps[i].Install?
    requires Carriers(trace[r], id) * Carriers(trace[k], id) == {}
    ensures Quiet(trace[k + 1], id) && SafeForever(trace[k + 1], id)
  {
    ListStays(trace, steps, l, k);
    CarriersOnlyFinish(trace, steps, r, k, id);
    var s := trace[k];
    assert Enabled(s, steps[k]) && trace[k + 1] == Next(s, steps[k]);
    assert NoneStale(trace[l].rows, id) && NoneStale(trace[k + 1].rows, id);
    assert Carriers(s, id) == Carriers(trace[r], id) * Carriers(s, id) == {};
    forall t | t in s.lookups && s.lookups[t].Fetched? ensures !Stale(s.lookups[t].vk, id) {
      assert t !in Carriers(s, id);
    }
    RevocationExact(trace[k + 1], id);
  }

  /** Finishing only after the swap is too late: a lookup that read the key before it was revoked
      puts it back into the index, where the next lookup accepts it. */
  lemma LateStoreRevives(vk: VirtualKey) returns (trace: seq<State>, steps: seq<Step>)
    requires vk.enabled
    ensures steps == [Begin(0, vk.hash), Fetch(0), Write(vk.hash, vk.(enabled := false)), List, Install, Store(0),
                      Decide(0)]
    ensures IsRun(trace, steps) && trace[0] == State(map[vk.hash := vk], map[], map[], None)
    ensures trace[7].lookups == map[] && !SafeForever(trace[7], vk.id)
  {
    var off, h := vk.(enabled := false), vk.hash;
    steps := [Begin(0, h), Fetch(0), Write(h, off), List, Install, Store(0), Decide(0)];
    var none: map<nat, Lookup> := map[];
    var s0 := State(map[h := vk], map[], none, None);
    var s3 := State(map[h := off], map[], map[0 := Fetched(h, vk)], None);
    var s5 := State(map[h := off], map[h := off], map[0 := Fetched(h, vk)], None);
    var s7 := State(map[h := off], map[h := vk], none, None);
    var s1, s2 := ReadThenRevoke(vk);
    var s4 := s3.(listed := Some(s3.rows));
    var s6 := StoreThenDecide(vk);
    trace := [s0, s1, s2, s3, s4, s5, s6, s7];
    assert s7.index[h] == vk && Stale(vk, vk.id) && !Quiet(s7, vk.id);
    RevocationExact(s7, vk.id);
  }

  lemma ReadThenRevoke(vk: VirtualKey) returns (s1: State, s2: State)
    requires vk.enabled
    ensures
      var s0 := State(map[vk.hash := vk], map[], map[], None);
      var off := vk.(enabled := false);
      Enabled(s0, Begin(0, vk.hash)) && s1 == Next(s0, Begin(0, vk.hash)) &&
      Enabled(s1, Fetch(0)) && s2 == Next(s1, Fetch(0)) &&
      Next(s2, Write(vk.hash, off)) == State(map[vk.hash := off], map[], map[0 := Fetched(vk.hash, vk)], None)
  {
    var s0 := State(map[vk.hash := vk], map[], map[], None);
    s1 := Next(s0, Begin(0, vk.hash));
    s2 := Next(s1, Fetch(0));
  }

  lemma StoreThenDecide(vk: VirtualKey) returns (s6: State)
    ensures
      var off := vk.(enabled := false);
      var s5 := State(map[vk.hash := off], map[vk.hash := off], map[0 := Fetched(vk.hash, vk)], None);
      s6 == Next(s5, Store(0)) && Enabled(s6, Decide(0)) &&
      Next(s6, Decide(0)) == State(map[vk.hash := off], map[vk.hash := vk], map[], None)
  {
    var off := vk.(enabled := false);
    var s5 := State(map[vk.hash := off], map[vk.hash := off], map[0 := Fetched(vk.hash, vk)], None);
    s6 := Next(s5, Store(0));
  }
}
