/** Sessions: the guarded row updates of the primary store, the cached store in front of it, and
    the status handling of the use case. */
module Sessions {
  import opened Wrappers
  import RT = ReadThrough

  datatype Status = Active | Expired | Closed

  datatype Counts = Counts(tokens: int, messages: int, masks: int, dictMasks: int, piiMasks: int, preprocessors: int)

  datatype Session = Session(id: string, tenant: string, model: string, counts: Counts, status: Status, expiresAt: int)

  type Table = map<string, Session>

  datatype Error = NotFound | Conflict | SessionExpired | SessionClosed

  // ---------- row updates of the primary ----------

  datatype Update =
    | Save(s: Session)
    | Increment(tenant: string, id: string, delta: Counts, now: int)
    | Extend(tenant: string, id: string, expiresAt: int)
    | Close(tenant: string, id: string)
    | Purge(now: int)

  function Add(a: Counts, b: Counts): Counts {
    Counts(a.tokens + b.tokens, a.messages + b.messages, a.masks + b.masks,
           a.dictMasks + b.dictMasks, a.piiMasks + b.piiMasks, a.preprocessors + b.preprocessors)
  }

  /** Row `id` of the tenant, still active. */
  predicate Open(rows: Table, tenant: string, id: string) {
    id in rows && rows[id].tenant == tenant && rows[id].status.Active?
  }

  function Applied(rows: Table, u: Update): Result<Table, Error> {
    match u
    case Save(s) => if s.id in rows then Err(Conflict) else Ok(rows[s.id := s])
    case Increment(tenant, id, delta, now) =>
      if Open(rows, tenant, id) && rows[id].expiresAt > now
      then Ok(rows[id := rows[id].(counts := Add(rows[id].counts, delta))]) else Err(NotFound)
    case Extend(tenant, id, expiresAt) =>
      if Open(rows, tenant, id) then Ok(rows[id := rows[id].(expiresAt := expiresAt)]) else Err(NotFound)
    case Close(tenant, id) =>
      if Open(rows, tenant, id) then Ok(rows[id := rows[id].(status := Closed)]) else Err(NotFound)
    case Purge(now) => Ok(map id | id in rows && !(rows[id].status.Expired? || rows[id].expiresAt < now) :: rows[id])
  }

  /** What a guarded update makes of its row, field by field. */
  predicate Changed(s: Session, s': Session, u: Update) {
    s'.id == s.id && s'.tenant == s.tenant && s'.model == s.model &&
    (if u.Increment? then
       s'.counts.tokens == s.counts.tokens + u.delta.tokens &&
       s'.counts.messages == s.counts.messages + u.delta.messages &&
       s'.counts.masks == s.counts.masks + u.delta.masks &&
       s'.counts.dictMasks == s.counts.dictMasks + u.delta.dictMasks &&
       s'.counts.piiMasks == s.counts.piiMasks + u.delta.piiMasks &&
       s'.counts.preprocessors == s.counts.preprocessors + u.delta.preprocessors
     else s'.counts == s.counts) &&
    s'.status == (if u.Close? then Closed else s.status) &&
    s'.expiresAt == if u.Extend? then u.expiresAt else s.expiresAt
  }

  /** The table after an update; a refused update changes nothing. */
  function After(rows: Table, u: Update): Table {
    match Applied(rows, u)
    case Ok(r) => r
    case Err(_) => rows
  }

  function Run(rows: Table, us: seq<Update>): Table {
    if us == [] then rows else After(Run(rows, us[..|us| - 1]), us[|us| - 1])
  }

  /** Row `id` exists after every prefix of the updates. */
  ghost predicate StaysPresent(rows: Table, us: seq<Update>, id: string) {
    forall n :: 0 <= n <= |us| ==> id in Run(rows, us[..n])
  }

  /** Closing is final: while the row exists, nothing about a closed session changes. */
  lemma {:induction false} ClosedIsFinal(rows: Table, us: seq<Update>, id: string)
    requires StaysPresent(rows, us, id) && id in rows && rows[id].status.Closed?
    ensures id in Run(rows, us) && Run(rows, us)[id] == rows[id]
    decreases |us|
  {
    if us != [] {
      var n := |us| - 1;
      forall m | 0 <= m <= n ensures id in Run(rows, us[..n][..m]) {
        assert us[..n][..m] == us[..m];
      }
      ClosedIsFinal(rows, us[..n], id);
      assert us[..|us|] == us;
    }
  }

  /** No update marks a row as expired, so a table that starts without such rows never gets one. */
  lemma {:induction false} ExpiredNeverStored(rows: Table, us: seq<Update>, id: string)
    requires forall i :: i in rows ==> !rows[i].status.Expired?
    requires forall k :: 0 <= k < |us| && us[k].Save? ==> us[k].s.status.Active?
    ensures id in Run(rows, us) ==> !Run(rows, us)[id].status.Expired?
    decreases |us|
  {
    if us != [] {
      ExpiredNeverStored(rows, us[..|us| - 1], id);
    }
  }

  /** Rows are only ever seen, changed or closed through their own tenant. */
  lemma TenantOwnsRow(rows: Table, u: Update, id: string)
    requires id in rows && id in After(rows, u) && After(rows, u)[id] != rows[id]
    ensures After(rows, u)[id].tenant == rows[id].tenant
    ensures !u.Save? && !u.Purge? && u.tenant == rows[id].tenant && u.id == id
  {
  }

  // ---------- the cached store ----------

  /** `Get` of the primary is scoped to the tenant. */
  function PrimaryGet(rows: Table, tenant: string, id: string): Result<Session, Error> {
    if id in rows && rows[id].tenant == tenant then Ok(rows[id]) else Err(NotFound)
  }

  /** `Get` of the cached store; the cache is keyed by session id alone. */
  function CachedGet(rows: Table, cache: Table, tenant: string, id: string): Result<Session, Error> {
    if id in cache then Ok(cache[id]) else PrimaryGet(rows, tenant, id)
  }

  /** Every cached session that still has a row equals it. */
  ghost predicate Fresh(cache: Table, rows: Table) {
    forall id :: id in cache && id in rows ==> cache[id] == rows[id]
  }

  /** A fresh cache answers like the primary exactly for sessions it does not hold, and for those
      it holds that were not purged and are asked for by their own tenant. */
  lemma CachedGetExact(rows: Table, cache: Table, tenant: string, id: string)
    requires Fresh(cache, rows)
    ensures CachedGet(rows, cache, tenant, id) == PrimaryGet(rows, tenant, id) <==>
      (id in cache ==> id in rows && rows[id].tenant == tenant)
  {
  }

  /** The id column is the primary key. */
  ghost predicate Keyed(rows: Table) {
    forall id :: id in rows ==> rows[id].id == id
  }

  /** Each method also says which store commands it amounts to when nothing else is going on. */
  class CachedStore {
    var primary: Table
    var secondary: Table

    ghost predicate Valid()
      reads this
    {
      Keyed(primary)
    }

    constructor ()
      ensures Valid() && primary == map[] && secondary == map[]
    {
      primary, secondary := map[], map[];
    }

    /** Best-effort write to the cache; it may fail. */
    method CacheSave(s: Session, ok: bool)
      modifies this`secondary
      ensures secondary == if ok then old(secondary)[s.id := s] else old(secondary)
    {
      if ok {
        secondary := secondary[s.id := s];
      }
    }

    method SaveSession(s: Session, cacheOk: bool) returns (r: Result<(), Error>, ghost steps: seq<RT.Step<Session>>)
      requires Valid()
      modifies this
      ensures Valid()
      ensures primary == After(old(primary), Save(s)) && r.Ok? == (s.id !in old(primary))
      ensures r.Ok? ==> primary == old(primary)[s.id := s]
      ensures r.Err? ==> r == Err(Conflict) && primary == old(primary)
      ensures secondary == if r.Ok? && cacheOk then old(secondary)[s.id := s] else old(secondary)
      ensures (cacheOk || s.id !in old(secondary)) && old(Fresh(secondary, primary)) ==> Fresh(secondary, primary)
      ensures steps == if r.Ok? then RT.PutSteps(s.id, s, false, cacheOk) else []
      ensures RT.Exec(old(RT.Idle(primary, secondary)), steps) == Some(RT.Idle(primary, secondary))
    {
      steps := [];
      if s.id in primary {
        return Err(Conflict), steps;
      }
      RT.PutAlone(primary, secondary, s.id, s, false, cacheOk);
      steps := RT.PutSteps(s.id, s, false, cacheOk);
      primary := primary[s.id := s];
      CacheSave(s, cacheOk);
      return Ok(()), steps;
    }

    /** Cache first; on a miss the primary answers and the cache is filled. */
    method Get(tenant: string, id: string, cacheUp: bool, cacheOk: bool)
      returns (r: Result<Session, Error>, ghost steps: seq<RT.Step<Session>>)
      requires Valid()
      modifies this`secondary
      ensures Valid()
      ensures r == if cacheUp then CachedGet(primary, old(secondary), tenant, id) else PrimaryGet(primary, tenant, id)
      ensures r.Ok? && !(cacheUp && id in old(secondary)) ==>
        id in primary && r == Ok(primary[id]) && primary[id].tenant == tenant
      ensures secondary == old(secondary) || (r.Ok? && cacheOk && secondary == old(secondary)[id := r.value])
      ensures old(Fresh(secondary, primary)) ==> Fresh(secondary, primary)
      ensures old(Fresh(secondary, primary)) && id in primary && primary[id].tenant == tenant ==> r == Ok(primary[id])
      ensures steps ==
        RT.GetSteps(id, cacheUp, PrimaryGet(primary, tenant, id).Ok?, cacheOk, old(RT.Idle(primary, secondary)))
      ensures RT.Exec(old(RT.Idle(primary, secondary)), steps) == Some(RT.Idle(primary, secondary))
    {
      RT.GetAlone(primary, secondary, id, cacheUp, PrimaryGet(primary, tenant, id).Ok?, cacheOk);
      steps := RT.GetSteps(id, cacheUp, PrimaryGet(primary, tenant, id).Ok?, cacheOk, RT.Idle(primary, secondary));
      if cacheUp && id in secondary {
        return Ok(secondary[id]), steps;
      }
      r := PrimaryGet(primary, tenant, id);
      if r.Ok? {
        CacheSave(r.value, cacheOk);
      }
    }

    /** The three guarded updates share one shape: update the row, read it back, cache it. */
    method Change(u: Update, cacheOk: bool) returns (r: Result<(), Error>, ghost steps: seq<RT.Step<Session>>)
      requires Valid() && (u.Increment? || u.Extend? || u.Close?)
      modifies this
      ensures Valid()
      ensures primary == After(old(primary), u) && r.Ok? == Applied(old(primary), u).Ok?
      ensures r.Ok? <==>
        u.id in old(primary) && old(primary)[u.id].tenant == u.tenant && old(primary)[u.id].status == Active &&
        (u.Increment? ==> old(primary)[u.id].expiresAt > u.now)
      ensures r.Err? ==> r == Err(NotFound) && primary == old(primary)
      ensures r.Ok? ==> primary.Keys == old(primary).Keys && Changed(old(primary)[u.id], primary[u.id], u)
      ensures forall id :: id in primary && id != u.id ==> id in old(primary) && primary[id] == old(primary)[id]
      ensures r.Ok? && cacheOk ==> u.id in primary && secondary == old(secondary)[u.id := primary[u.id]]
      ensures !(r.Ok? && cacheOk) ==> secondary == old(secondary)
      ensures (cacheOk || r.Err? || u.id !in old(secondary)) && old(Fresh(secondary, primary)) ==>
        Fresh(secondary, primary)
      ensures r.Ok? ==> u.id in primary && steps == RT.PutSteps(u.id, primary[u.id], true, cacheOk)
      ensures r.Err? ==> steps == []
      ensures RT.Exec(old(RT.Idle(primary, secondary)), steps) == Some(RT.Idle(primary, secondary))
    {
      steps := [];
      var res := Applied(primary, u);
      if res.Err? {
        return Err(res.error), steps;
      }
      RT.PutAlone(primary, secondary, u.id, res.value[u.id], true, cacheOk);
      steps := RT.PutSteps(u.id, res.value[u.id], true, cacheOk);
      primary := res.value;
      var updated := PrimaryGet(primary, u.tenant, u.id);
      if updated.Ok? {
        CacheSave(updated.value, cacheOk);
      }
      return Ok(()), steps;
    }

    /** Purging leaves the cache alone. */
    method DeleteExpired(now: int) returns (ghost steps: seq<RT.Step<Session>>)
      requires Valid()
      modifies this`primary
      ensures Valid()
      ensures primary == After(old(primary), Purge(now))
      ensures forall id :: id in primary <==>
        id in old(primary) && !old(primary)[id].status.Expired? && old(primary)[id].expiresAt >= now
      ensures forall id :: id in primary ==> primary[id] == old(primary)[id]
      ensures old(Fresh(secondary, primary)) ==> Fresh(secondary, primary)
      ensures steps == [RT.Drop(old(primary).Keys - primary.Keys)]
      ensures RT.Exec(old(RT.Idle(primary, secondary)), steps) == Some(RT.Idle(primary, secondary))
    {
      ghost var s0 := RT.Idle(primary, secondary);
      primary := After(primary, Purge(now));
      ghost var e: RT.Step<Session> := RT.Drop(s0.primary.Keys - primary.Keys);
      RT.ExecCons(s0, e, []);
      steps := [e];
      assert steps == [e] + [];
      assert s0.primary - (s0.primary.Keys - primary.Keys) == primary;
    }
  }

  // ---------- the use case ----------

  /** `Get` shows an active session past its time as expired, without storing that. */
  function Viewed(s: Session, now: int): Session {
    if s.status.Active? && now > s.expiresAt then s.(status := Expired) else s
  }

  /** Status check of `ExtendTTL` and `Close`, on the stored status. */
  function Guard(s: Session): Result<Session, Error> {
    match s.status
    case Expired => Err(SessionExpired)
    case Closed => Err(SessionClosed)
    case Active => Ok(s)
  }

  function ExtendTTL(rows: Table, tenant: string, id: string, now: int, ttlSeconds: int):
    (Result<Session, Error>, Table)
  {
    match PrimaryGet(rows, tenant, id)
    case Err(e) => (Err(e), rows)
    case Ok(s) =>
      match Guard(s)
      case Err(e) => (Err(e), rows)
      case Ok(_) =>
        var u := Extend(tenant, id, now + ttlSeconds);
        (match Applied(rows, u)
         case Err(e) => Err(e)
         case Ok(_) => Ok(s.(expiresAt := now + ttlSeconds)), After(rows, u))
  }

  function CloseSession(rows: Table, tenant: string, id: string): (Result<(), Error>, Table) {
    match PrimaryGet(rows, tenant, id)
    case Err(e) => (Err(e), rows)
    case Ok(s) =>
      match Guard(s)
      case Err(e) => (Err(e), rows)
      case Ok(_) =>
        var u := Close(tenant, id);
        (match Applied(rows, u) case Err(e) => Err(e) case Ok(_) => Ok(()), After(rows, u))
  }

  /** A session is shown as expired exactly when it is stored as active and its time is over; nothing
      else about it is shown differently. */
  lemma ViewedIs(s: Session, now: int)
    ensures Viewed(s, now).status == if s.status == Active && s.expiresAt < now then Expired else s.status
    ensures Viewed(s, now) == s.(status := Viewed(s, now).status)
  {
  }

  /** Extending and closing, by the row: who is refused with what, and what the row becomes. */
  lemma UseCaseExact(rows: Table, tenant: string, id: string, now: int, ttlSeconds: int)
    ensures var mine := id in rows && rows[id].tenant == tenant;
      var (e, extended) := ExtendTTL(rows, tenant, id, now, ttlSeconds);
      var (c, closed) := CloseSession(rows, tenant, id);
      if !mine then e == Err(NotFound) && c == Err(NotFound) && extended == rows == closed
      else match rows[id].status
        case Expired => e == Err(SessionExpired) && c == Err(SessionExpired) && extended == rows == closed
        case Closed => e == Err(SessionClosed) && c == Err(SessionClosed) && extended == rows == closed
        case Active =>
          var s := rows[id].(expiresAt := now + ttlSeconds);
          e == Ok(s) && extended == rows[id := s] && c == Ok(()) && closed == rows[id := rows[id].(status := Closed)]
  {
  }

  /** A session can be closed once: closing it again reports that it is closed. */
  lemma CloseTwice(rows: Table, tenant: string, id: string)
    ensures var (r, after) := CloseSession(rows, tenant, id);
      (r.Ok? <==> Open(rows, tenant, id)) &&
      (r.Ok? ==> CloseSession(after, tenant, id) == (Err(SessionClosed), after) &&
                 ExtendTTL(after, tenant, id, 0, 0).0 == Err(SessionClosed)) &&
      (r.Err? ==> after == rows)
  {
  }

  /** Since the expired status is never stored, extending succeeds for every open session however
      long ago its time ran out, and brings it back: right after being shown as expired it is
      shown as active again. */
  lemma {:induction false} ExtendRevives(rows: Table, us: seq<Update>, tenant: string, id: string, now: int,
                                         ttlSeconds: int)
    requires rows == map[] && forall k :: 0 <= k < |us| && us[k].Save? ==> us[k].s.status.Active?
    ensures var t := Run(rows, us);
      var (r, after) := ExtendTTL(t, tenant, id, now, ttlSeconds);
      r != Err(SessionExpired) && (r.Ok? <==> Open(t, tenant, id)) &&
      (r.Ok? && ttlSeconds >= 0 ==> id in after && Viewed(after[id], now).status.Active?)
  {
    ExpiredNeverStored(rows, us, id);
  }

  /** A session whose time ran out, then extended: shown as expired, then as active again. */
  lemma ExpiredExtended()
    ensures var s := Session("s1", "acme", "gpt-4", Counts(0, 0, 0, 0, 0, 0), Active, 100);
      var rows := After(map[], Save(s));
      var (r, after) := ExtendTTL(rows, "acme", "s1", 500, 60);
      Viewed(rows["s1"], 500).status.Expired? && r == Ok(s.(expiresAt := 560)) &&
      Viewed(after["s1"], 500) == after["s1"]
  {
  }

  /** A session saved for one tenant is handed to another one, although the primary would not. */
  method ReadByAnother(s: Session, tenant: string) returns (r: Result<Session, Error>)
    requires s.tenant != tenant
    ensures r == Ok(s) && PrimaryGet(map[s.id := s], tenant, s.id) == Err(NotFound)
  {
    var store := new CachedStore();
    var _, _ := store.SaveSession(s, true);
    ghost var steps;
    r, steps := store.Get(tenant, s.id, true, true);
  }
}
