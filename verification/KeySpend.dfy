/** The gateway's own update of a virtual key's spend: it reads the whole row and later writes it
    back, so that it can undo what happened in between. */
module KeySpend {

  /** The columns of a key row that matter here; the update writes both. */
  datatype Row = Row(enabled: bool, spent: real)

  datatype Copy = Copy(id: string, row: Row)

  /** `pending` are the rows that updates have read and not written back yet. */
  datatype State = State(rows: map<string, Row>, pending: map<nat, Copy>)

  datatype Step = Read(t: nat, id: string) | Write(t: nat, cost: real) | Revoke(id: string)

  predicate Enabled(s: State, e: Step) {
    match e
    case Read(t, id) => t !in s.pending && id in s.rows
    case Write(t, _) => t in s.pending
    case Revoke(_) => true
  }

  /** An update of a row that is gone changes nothing. */
  function Next(s: State, e: Step): State
    requires Enabled(s, e)
  {
    match e
    case Read(t, id) => s.(pending := s.pending[t := Copy(id, s.rows[id])])
    case Write(t, cost) =>
      var Copy(id, row) := s.pending[t];
      State(if id in s.rows then s.rows[id := row.(spent := row.spent + cost)] else s.rows, s.pending - {t})
    case Revoke(id) => if id in s.rows then s.(rows := s.rows[id := s.rows[id].(enabled := false)]) else s
  }

  ghost predicate Legal(s: State, steps: seq<Step>)
    decreases |steps|
  {
    steps != [] ==> Enabled(s, steps[0]) && Legal(Next(s, steps[0]), steps[1..])
  }

  ghost function Run(s: State, steps: seq<Step>): State
    requires Legal(s, steps)
    decreases |steps|
  {
    if steps == [] then s else Run(Next(s, steps[0]), steps[1..])
  }

  predicate Revoked(s: State, id: string) {
    id in s.rows && !s.rows[id].enabled
  }

  /** No update under way read the row while it was still enabled. */
  ghost predicate NoneHeld(s: State, id: string) {
    forall t :: t in s.pending && s.pending[t].id == id ==> !s.pending[t].row.enabled
  }

  ghost predicate StaysRevoked(s: State, id: string) {
    forall steps :: Legal(s, steps) ==> Revoked(Run(s, steps), id)
  }

  lemma {:induction false} RunStaysRevoked(s: State, steps: seq<Step>, id: string)
    requires Legal(s, steps) && Revoked(s, id) && NoneHeld(s, id)
    ensures Revoked(Run(s, steps), id)
    decreases |steps|
  {
    if steps != [] {
      RunStaysRevoked(Next(s, steps[0]), steps[1..], id);
    }
  }

  /** A revoked key stays revoked, whatever spend updates do, if and only if no update that read the
      row before the revocation is still under way. */
  lemma RevokedExact(s: State, id: string)
    requires Revoked(s, id)
    ensures StaysRevoked(s, id) <==> NoneHeld(s, id)
  {
    if NoneHeld(s, id) {
      forall steps | Legal(s, steps) ensures Revoked(Run(s, steps), id) {
        RunStaysRevoked(s, steps, id);
      }
    } else {
      var t :| t in s.pending && s.pending[t].id == id && s.pending[t].row.enabled;
      var e := Write(t, 1.0);
      OneStep(s, e);
      assert !Revoked(Run(s, [e]), id);
    }
  }

  lemma OneStep(s: State, e: Step)
    requires Enabled(s, e)
    ensures Legal(s, [e]) && Run(s, [e]) == Next(s, e)
  {
    assert [e][1..] == [];
    assert Legal(Next(s, e), []);
  }

  /** The gateway brings a revoked key back: read, revoked, written back enabled. */
  lemma SpendRevives(id: string, spent: real, cost: real)
    ensures var s := State(map[id := Row(true, spent)], map[]);
      var s1 := Next(s, Read(0, id));
      var s2 := Next(s1, Revoke(id));
      Revoked(s2, id) && Enabled(s2, Write(0, cost)) &&
      Next(s2, Write(0, cost)).rows[id] == Row(true, spent + cost)
  {
  }

  /** Two updates that both read before either writes: one of the costs is lost. */
  lemma SpendLost(id: string, spent: real, x: real, y: real)
    ensures var s := State(map[id := Row(true, spent)], map[]);
      var s1 := Next(Next(s, Read(0, id)), Read(1, id));
      Next(Next(s1, Write(0, x)), Write(1, y)).rows[id] == Row(true, spent + y)
  {
  }

  // ---------- when no cost is lost ----------

  /** The pending updates that are late: another update of their row was written since they read it. */
  function LateAfter(s: State, late: set<nat>, e: Step): set<nat>
    requires Enabled(s, e)
  {
    match e
    case Read(t, _) => late - {t}
    case Write(t, _) => late + (set u | u in s.pending && s.pending[u].id == s.pending[t].id) - {t}
    case Revoke(_) => late
  }

  predicate Writes(s: State, e: Step, id: string) {
    e.Write? && e.t in s.pending && s.pending[e.t].id == id
  }

  /** No late update of `id` is ever written. */
  ghost predicate NoneLate(s: State, late: set<nat>, steps: seq<Step>, id: string)
    requires Legal(s, steps)
    decreases |steps|
  {
    steps != [] ==>
      (Writes(s, steps[0], id) ==> steps[0].t !in late) &&
      NoneLate(Next(s, steps[0]), LateAfter(s, late, steps[0]), steps[1..], id)
  }

  /** All costs that updates of `id` wrote. */
  ghost function Written(s: State, steps: seq<Step>, id: string): real
    requires Legal(s, steps)
    decreases |steps|
  {
    if steps == [] then 0.0
    else (if Writes(s, steps[0], id) then steps[0].cost else 0.0) + Written(Next(s, steps[0]), steps[1..], id)
  }

  predicate Positive(steps: seq<Step>) {
    forall i :: 0 <= i < |steps| && steps[i].Write? ==> steps[i].cost > 0.0
  }

  /** The row holds at most what it should, `total`; a late copy holds less, and any other what the
      row holds. */
  ghost predicate Behind(s: State, late: set<nat>, id: string, total: real) {
    id in s.rows && s.rows[id].spent <= total &&
    forall t :: t in s.pending && s.pending[t].id == id ==>
      if t in late then s.pending[t].row.spent < total else s.pending[t].row.spent == s.rows[id].spent
  }

  lemma {:induction false} SpendRun(s: State, late: set<nat>, steps: seq<Step>, id: string, total: real)
    requires Legal(s, steps) && Positive(steps) && Behind(s, late, id, total)
    ensures id in Run(s, steps).rows
    ensures Run(s, steps).rows[id].spent == total + Written(s, steps, id) <==>
      s.rows[id].spent == total && NoneLate(s, late, steps, id)
    ensures Run(s, steps).rows[id].spent <= total + Written(s, steps, id)
    decreases |steps|
  {
    if steps != [] {
      var e := steps[0];
      SpendRun(Next(s, e), LateAfter(s, late, e), steps[1..], id,
               total + if Writes(s, e, id) then e.cost else 0.0);
    }
  }

  /** With nothing under way at first, a key's spend is what it was plus all costs written, if and only
      if no update is written after another one was since it read the row; otherwise it is less. */
  lemma SpendExact(s: State, steps: seq<Step>, id: string)
    requires Legal(s, steps) && Positive(steps) && id in s.rows
    requires forall t :: t in s.pending ==> s.pending[t].id != id
    ensures id in Run(s, steps).rows
    ensures Run(s, steps).rows[id].spent == s.rows[id].spent + Written(s, steps, id) <==>
      NoneLate(s, {}, steps, id)
    ensures Run(s, steps).rows[id].spent <= s.rows[id].spent + Written(s, steps, id)
  {
    SpendRun(s, {}, steps, id, s.rows[id].spent);
  }
}
