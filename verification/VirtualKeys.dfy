/** Authentication by virtual key: the key table, the in-process index over it, and the lookup
    that goes to the index first. */
module VirtualKeys {
  import opened Wrappers

  datatype VirtualKey = VirtualKey(id: string, tenantId: string, hash: string, expiresAt: Option<int>, enabled: bool)

  /** Rows by key hash, which the table declares unique. */
  type Rows = map<string, VirtualKey>

  ghost predicate IsTable(rows: Rows) {
    forall h :: h in rows ==> rows[h].hash == h
  }

  predicate ValidAt(vk: VirtualKey, now: int) {
    vk.enabled && (vk.expiresAt.Some? ==> now <= vk.expiresAt.value)
  }

  /** `FindByKeyHash`: only enabled rows are found. */
  function FindByHash(rows: Rows, hash: string): Option<VirtualKey> {
    if hash in rows && rows[hash].enabled then Some(rows[hash]) else None
  }

  /** `Delete`: the row stays, disabled. */
  function Revoke(rows: Rows, id: string): Rows {
    map h | h in rows :: if rows[h].id == id then rows[h].(enabled := false) else rows[h]
  }

  datatype Tenant = Tenant(slug: string, authHeader: string)

  datatype Candidate = Candidate(header: string, key: string)

  datatype Outcome = Accepted(tenant: Tenant, vk: VirtualKey) | WrongHeader | Nobody

  /** The first tenant owning the key decides; its header must be the one the key came in. */
  function PickTenant(tenants: seq<Tenant>, c: Candidate, vk: VirtualKey): Outcome {
    if tenants == [] then Nobody
    else if tenants[0].slug != vk.tenantId then PickTenant(tenants[1..], c, vk)
    else if tenants[0].authHeader != c.header then WrongHeader
    else Accepted(tenants[0], vk)
  }

  /** What one candidate leads to, given what the lookup found for it. */
  function Try(c: Candidate, found: Option<VirtualKey>, tenants: seq<Tenant>, now: int): Outcome {
    if c.key == "" || found.None? || !ValidAt(found.value, now) then Nobody
    else PickTenant(tenants, c, found.value)
  }

  /** Authentication straight from the table: the first candidate that leads anywhere decides. */
  function Authentication(cands: seq<Candidate>, tenants: seq<Tenant>, rows: Rows, hash: string -> string, now: int):
    Outcome
  {
    if cands == [] then Nobody
    else
      var o := Try(cands[0], FindByHash(rows, hash(cands[0].key)), tenants, now);
      if o.Nobody? then Authentication(cands[1..], tenants, rows, hash, now) else o
  }

  /** Index and table agree on every indexed key, disabled ones included. */
  ghost predicate Coherent(index: Rows, rows: Rows) {
    forall h :: h in index ==> h in rows && index[h] == rows[h]
  }

  /** A disabled key that the index still holds is refused just like a key that is not found. */
  lemma IndexedTry(index: Rows, rows: Rows, h: string, c: Candidate, tenants: seq<Tenant>, now: int)
    requires Coherent(index, rows) && h in index
    ensures Try(c, Some(index[h]), tenants, now) == Try(c, FindByHash(rows, h), tenants, now)
  {
  }

  /** The gateway's side: the table and its index. */
  class Gateway {
    var rows: Rows
    var byHash: Rows

    constructor (rows: Rows)
      requires IsTable(rows)
      ensures this.rows == rows && byHash == map[]
    {
      this.rows, byHash := rows, map[];
    }

    /** `Refresh`: the index is rebuilt from the listed rows and swapped in. */
    method Refresh(listed: seq<VirtualKey>)
      requires IsTable(rows)
      requires forall i :: 0 <= i < |listed| ==> listed[i].hash in rows && rows[listed[i].hash] == listed[i]
      requires forall h :: h in rows ==> rows[h] in listed
      modifies this`byHash
      ensures byHash == rows
    {
      var next: Rows := map[];
      var i := 0;
      while i < |listed|
        invariant 0 <= i <= |listed|
        invariant forall h :: h in next <==> exists j :: 0 <= j < i && listed[j].hash == h
        invariant Coherent(next, rows)
      {
        next := next[listed[i].hash := listed[i]];
        i := i + 1;
      }
      forall h | h in rows ensures h in next {
        var j :| 0 <= j < |listed| && listed[j] == rows[h];
      }
      byHash := next;
    }

    /** `InvalidateKey`: drops every entry of the key. */
    method InvalidateKey(id: string)
      modifies this`byHash
      ensures byHash == map h | h in old(byHash) && old(byHash)[h].id != id :: old(byHash)[h]
    {
      var todo, kept := byHash.Keys, byHash;
      while todo != {}
        invariant todo <= byHash.Keys && kept.Keys <= byHash.Keys && byHash == old(byHash)
        invariant forall h :: h in kept ==> kept[h] == byHash[h]
        invariant forall h :: h in byHash ==> (h in kept <==> h in todo || byHash[h].id != id)
        decreases todo
      {
        var h :| h in todo;
        if byHash[h].id == id {
          kept := kept - {h};
        }
        todo := todo - {h};
      }
      byHash := kept;
    }

    /** `InvalidateTenant`: drops every key of the tenant. */
    method InvalidateTenant(tenantId: string)
      modifies this`byHash
      ensures byHash == map h | h in old(byHash) && old(byHash)[h].tenantId != tenantId :: old(byHash)[h]
    {
      var todo, kept := byHash.Keys, byHash;
      while todo != {}
        invariant todo <= byHash.Keys && kept.Keys <= byHash.Keys && byHash == old(byHash)
        invariant forall h :: h in kept ==> kept[h] == byHash[h]
        invariant forall h :: h in byHash ==> (h in kept <==> h in todo || byHash[h].tenantId != tenantId)
        decreases todo
      {
        var h :| h in todo;
        if byHash[h].tenantId == tenantId {
          kept := kept - {h};
        }
        todo := todo - {h};
      }
      byHash := kept;
    }

    /** Index first, table on a miss; what the table gives is added to the index. */
    method Lookup(hash: string) returns (vk: Option<VirtualKey>)
      requires IsTable(rows) && Coherent(byHash, rows)
      modifies this`byHash
      ensures Coherent(byHash, rows)
      ensures vk == if hash in old(byHash) then Some(old(byHash)[hash]) else FindByHash(rows, hash)
      ensures hash !in old(byHash) ==> (vk.Some? <==> hash in rows && rows[hash].enabled == true)
      ensures byHash == if vk.Some? then old(byHash)[hash := vk.value] else old(byHash)
    {
      if hash in byHash {
        return Some(byHash[hash]);
      }
      vk := FindByHash(rows, hash);
      if vk.Some? {
        byHash := byHash[hash := vk.value];
      }
    }

    /** Authentication through a coherent index gives the answer of the table alone. */
    method Authenticate(cands: seq<Candidate>, tenants: seq<Tenant>, hash: string -> string, now: int)
      returns (outcome: Outcome)
      requires IsTable(rows) && Coherent(byHash, rows)
      modifies this`byHash
      ensures Coherent(byHash, rows)
      ensures outcome == Authentication(cands, tenants, rows, hash, now)
      ensures outcome.Accepted? ==> exists i :: 0 <= i < |cands| && Accepts(cands[i], outcome, tenants, rows, hash, now)
    {
      AcceptedFields(cands, tenants, rows, hash, now);
      var i := 0;
      while i < |cands|
        invariant 0 <= i <= |cands| && Coherent(byHash, rows)
        invariant Authentication(cands, tenants, rows, hash, now) ==
                  Authentication(cands[i..], tenants, rows, hash, now)
      {
        var cand := cands[i];
        assert cands[i..][0] == cand && cands[i..][1..] == cands[i + 1..];
        i := i + 1;
        if cand.key == "" {
          continue;
        }
        ghost var index := byHash;
        var vk := Lookup(hash(cand.key));
        if hash(cand.key) in index {
          IndexedTry(index, rows, hash(cand.key), cand, tenants, now);
        }
        if vk.None? || !ValidAt(vk.value, now) {
          continue;
        }
        var j := 0;
        while j < |tenants|
          invariant 0 <= j <= |tenants| && Coherent(byHash, rows)
          invariant PickTenant(tenants, cand, vk.value) == PickTenant(tenants[j..], cand, vk.value)
        {
          var t := tenants[j];
          assert tenants[j..][0] == t && tenants[j..][1..] == tenants[j + 1..];
          if t.slug == vk.value.tenantId {
            if t.authHeader != cand.header {
              return WrongHeader;
            }
            return Accepted(t, vk.value);
          }
          j := j + 1;
        }
      }
      return Nobody;
    }
  }

  // ---------- who is accepted, by the fields ----------

  /** The candidate's key is that of an enabled row whose time is not over. */
  predicate Usable(c: Candidate, rows: Rows, hash: string -> string, now: int) {
    c.key != "" && hash(c.key) in rows &&
    var vk := rows[hash(c.key)];
    vk.enabled == true && (vk.expiresAt == None || now <= vk.expiresAt.value)
  }

  /** The outcome is the candidate's row, with a tenant that owns it and uses the candidate's header. */
  predicate Accepts(c: Candidate, o: Outcome, tenants: seq<Tenant>, rows: Rows, hash: string -> string, now: int) {
    Usable(c, rows, hash, now) && o.Accepted? && o.vk == rows[hash(c.key)] &&
    o.tenant in tenants && o.tenant.slug == o.vk.tenantId && o.tenant.authHeader == c.header
  }

  lemma {:induction false} AcceptedFields(cands: seq<Candidate>, tenants: seq<Tenant>, rows: Rows,
                                          hash: string -> string, now: int)
    ensures var o := Authentication(cands, tenants, rows, hash, now);
      o.Accepted? ==> exists i :: 0 <= i < |cands| && Accepts(cands[i], o, tenants, rows, hash, now)
  {
    if cands != [] {
      var o := Authentication(cands, tenants, rows, hash, now);
      var found := FindByHash(rows, hash(cands[0].key));
      if Try(cands[0], found, tenants, now).Nobody? {
        AcceptedFields(cands[1..], tenants, rows, hash, now);
        assert forall i :: 0 <= i < |cands[1..]| ==> cands[1..][i] == cands[i + 1];
      } else {
        PickedOwns(tenants, cands[0], found.value);
        assert o.Accepted? ==> Accepts(cands[0], o, tenants, rows, hash, now);
      }
    }
  }

  /** The first tenant with a slug. */
  predicate FirstWith(tenants: seq<Tenant>, slug: string, j: nat) {
    j < |tenants| && tenants[j].slug == slug && forall k :: 0 <= k < j ==> tenants[k].slug != slug
  }

  /** The candidate is not passed over: its key is usable and some tenant owns it. */
  predicate Decides(c: Candidate, tenants: seq<Tenant>, rows: Rows, hash: string -> string, now: int) {
    Usable(c, rows, hash, now) && exists j :: 0 <= j < |tenants| && tenants[j].slug == rows[hash(c.key)].tenantId
  }

  lemma {:induction false} PickedIs(tenants: seq<Tenant>, c: Candidate, vk: VirtualKey)
    ensures PickTenant(tenants, c, vk).Nobody? <==> forall j :: 0 <= j < |tenants| ==> tenants[j].slug != vk.tenantId
    ensures forall j: nat :: FirstWith(tenants, vk.tenantId, j) ==>
      PickTenant(tenants, c, vk) == if tenants[j].authHeader == c.header then Accepted(tenants[j], vk) else WrongHeader
  {
    if tenants != [] {
      PickedIs(tenants[1..], c, vk);
      assert forall j :: 0 < j < |tenants| ==> tenants[j] == tenants[1..][j - 1];
      forall j: nat | FirstWith(tenants, vk.tenantId, j) && j > 0
        ensures FirstWith(tenants[1..], vk.tenantId, j - 1) && tenants[j] == tenants[1..][j - 1]
      {
      }
    }
  }

  /** The first candidate that is not passed over decides, with the first tenant that owns its key: it
      is accepted if and only if that tenant uses the header it came in. */
  lemma {:induction false} FirstDecides(cands: seq<Candidate>, tenants: seq<Tenant>, rows: Rows,
                                        hash: string -> string, now: int, i: nat, j: nat)
    requires i < |cands| && Decides(cands[i], tenants, rows, hash, now)
    requires forall k :: 0 <= k < i ==> !Decides(cands[k], tenants, rows, hash, now)
    requires FirstWith(tenants, rows[hash(cands[i].key)].tenantId, j)
    ensures Authentication(cands, tenants, rows, hash, now) ==
      if tenants[j].authHeader == cands[i].header then Accepted(tenants[j], rows[hash(cands[i].key)]) else WrongHeader
  {
    var found := FindByHash(rows, hash(cands[0].key));
    if found.Some? {
      PickedIs(tenants, cands[0], found.value);
    }
    if i > 0 {
      assert !Decides(cands[0], tenants, rows, hash, now);
      assert forall k :: 0 <= k < |cands[1..]| ==> cands[1..][k] == cands[k + 1];
      FirstDecides(cands[1..], tenants, rows, hash, now, i - 1, j);
    }
  }

  lemma {:induction false} NobodyDecides(cands: seq<Candidate>, tenants: seq<Tenant>, rows: Rows,
                                         hash: string -> string, now: int)
    requires forall k :: 0 <= k < |cands| ==> !Decides(cands[k], tenants, rows, hash, now)
    ensures Authentication(cands, tenants, rows, hash, now) == Nobody
  {
    if cands != [] {
      var found := FindByHash(rows, hash(cands[0].key));
      if found.Some? {
        PickedIs(tenants, cands[0], found.value);
      }
      assert !Decides(cands[0], tenants, rows, hash, now);
      NobodyDecides(cands[1..], tenants, rows, hash, now);
    }
  }

  /** One candidate is accepted if and only if its key is that of an enabled row whose time is not over,
      and the first tenant that owns the row uses the header it came in. */
  lemma AcceptedExact(c: Candidate, tenants: seq<Tenant>, rows: Rows, hash: string -> string, now: int)
    ensures Authentication([c], tenants, rows, hash, now).Accepted? <==>
      Usable(c, rows, hash, now) &&
      exists j: nat :: FirstWith(tenants, rows[hash(c.key)].tenantId, j) && tenants[j].authHeader == c.header
  {
    if Decides(c, tenants, rows, hash, now) {
      var j := FirstOwner(tenants, rows[hash(c.key)].tenantId);
      FirstDecides([c], tenants, rows, hash, now, 0, j);
      assert forall k: nat :: FirstWith(tenants, rows[hash(c.key)].tenantId, k) ==> k == j;
    } else {
      NobodyDecides([c], tenants, rows, hash, now);
    }
  }

  lemma FirstOwner(tenants: seq<Tenant>, slug: string) returns (j: nat)
    requires exists k :: 0 <= k < |tenants| && tenants[k].slug == slug
    ensures FirstWith(tenants, slug, j)
  {
    j := 0;
    while tenants[j].slug != slug
      invariant j < |tenants| && forall k :: 0 <= k < j ==> tenants[k].slug != slug
      decreases |tenants| - j
    {
      j := j + 1;
    }
  }

  /** Revoking disables the rows of the key, and changes nothing else about them or any other row. */
  lemma RevokeExact(rows: Rows, id: string)
    ensures Revoke(rows, id).Keys == rows.Keys
    ensures forall h :: h in rows ==>
      Revoke(rows, id)[h] ==
      if rows[h].id == id then VirtualKey(id, rows[h].tenantId, rows[h].hash, rows[h].expiresAt, false) else rows[h]
  {
  }

  /** A revoked key is refused by the table at once, whatever else is presented with it. */
  lemma {:induction false} RevokedRefused(cands: seq<Candidate>, tenants: seq<Tenant>, rows: Rows, id: string,
                                          hash: string -> string, now: int)
    ensures var o := Authentication(cands, tenants, Revoke(rows, id), hash, now);
      o.Accepted? ==> o.vk.id != id && ValidAt(o.vk, now) && o.vk.tenantId == o.tenant.slug && o.tenant in tenants
  {
    if cands != [] {
      RevokedRefused(cands[1..], tenants, rows, id, hash, now);
      var found := FindByHash(Revoke(rows, id), hash(cands[0].key));
      if found.Some? {
        PickedOwns(tenants, cands[0], found.value);
      }
    }
  }

  lemma {:induction false} PickedOwns(tenants: seq<Tenant>, c: Candidate, vk: VirtualKey)
    ensures var o := PickTenant(tenants, c, vk);
      o.Accepted? ==>
        o.vk == vk && o.tenant in tenants && o.tenant.slug == vk.tenantId && o.tenant.authHeader == c.header
  {
    if tenants != [] {
      PickedOwns(tenants[1..], c, vk);
    }
  }
}
