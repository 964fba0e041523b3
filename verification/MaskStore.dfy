/** The mask entries behind their cache: rows are inserted once, read, and deleted. */
module MaskStore {
  import opened Wrappers
  import ReadThrough

  datatype MaskEntry = MaskEntry(
    maskId: string, documentId: string, replacements: map<string, string>, reversible: bool)

  datatype Error = NotFound | Conflict

  type Table = map<string, MaskEntry>

  ghost predicate Keyed(rows: Table) {
    forall id :: id in rows ==> rows[id].maskId == id
  }

  function PrimaryGet(rows: Table, id: string): Result<MaskEntry, Error> {
    if id in rows then Ok(rows[id]) else Err(NotFound)
  }

  /** Every cached entry is the row of that id. */
  ghost predicate Agrees(cache: Table, rows: Table) {
    forall id :: id in cache ==> id in rows && cache[id] == rows[id]
  }

  class CachedMaskRepo {
    var primary: Table
    var secondary: Table

    ghost predicate Valid()
      reads this
    {
      Keyed(primary)
    }

    constructor ()
      ensures Valid() && primary == map[] && secondary == map[]
    {
      primary, secondary := map[], map[];
    }

    /** Inserts a row; an id that is taken is a conflict and leaves both stores alone. What the
        method does to the stores is the given list of store commands. */
    method Save(entry: MaskEntry, cacheOk: bool)
      returns (r: Result<(), Error>, ghost steps: seq<ReadThrough.Step<MaskEntry>>)
      requires Valid()
      modifies this
      ensures Valid()
      ensures r.Ok? <==> entry.maskId !in old(primary)
      ensures r.Ok? ==> primary == old(primary)[entry.maskId := entry]
      ensures r.Err? ==> r == Err(Conflict) && primary == old(primary) && secondary == old(secondary)
      ensures steps == if r.Ok? then ReadThrough.PutSteps(entry.maskId, entry, false, cacheOk) else []
      ensures ReadThrough.Exec(old(ReadThrough.Idle(primary, secondary)), steps) ==
              Some(ReadThrough.Idle(primary, secondary))
      ensures old(Agrees(secondary, primary)) ==> Agrees(secondary, primary)
    {
      steps := [];
      if entry.maskId in primary {
        return Err(Conflict), steps;
      }
      ReadThrough.PutAlone(primary, secondary, entry.maskId, entry, false, cacheOk);
      steps := ReadThrough.PutSteps(entry.maskId, entry, false, cacheOk);
      primary := primary[entry.maskId := entry];
      if cacheOk {
        secondary := secondary[entry.maskId := entry];
      }
      return Ok(()), steps;
    }

    /** Any failure of the cache, a miss included, falls back to the primary. */
    method Get(id: string, cacheUp: bool, cacheOk: bool)
      returns (r: Result<MaskEntry, Error>, ghost steps: seq<ReadThrough.Step<MaskEntry>>)
      requires Valid()
      modifies this`secondary
      ensures Valid()
      ensures r == if cacheUp && id in old(secondary) then Ok(old(secondary)[id]) else PrimaryGet(primary, id)
      ensures old(Agrees(secondary, primary)) ==> r == PrimaryGet(primary, id) && Agrees(secondary, primary)
      ensures steps == ReadThrough.GetSteps(id, cacheUp, true, cacheOk, old(ReadThrough.Idle(primary, secondary)))
      ensures ReadThrough.Exec(old(ReadThrough.Idle(primary, secondary)), steps) ==
              Some(ReadThrough.Idle(primary, secondary))
    {
      ReadThrough.GetAlone(primary, secondary, id, cacheUp, true, cacheOk);
      steps := ReadThrough.GetSteps(id, cacheUp, true, cacheOk, ReadThrough.Idle(primary, secondary));
      if cacheUp && id in secondary {
        return Ok(secondary[id]), steps;
      }
      r := PrimaryGet(primary, id);
      if r.Ok? && cacheOk {
        secondary := secondary[r.value.maskId := r.value];
      }
    }

    /** Deleting succeeds whether or not the row exists. The cache stays right exactly when its own
        delete went through or it did not hold the entry. */
    method Delete(id: string, cacheOk: bool) returns (ghost steps: seq<ReadThrough.Step<MaskEntry>>)
      requires Valid()
      modifies this
      ensures Valid()
      ensures primary == old(primary) - {id}
      ensures secondary == if cacheOk then old(secondary) - {id} else old(secondary)
      ensures steps == [ReadThrough.Drop({id})] + if cacheOk then [ReadThrough.Evict(id)] else []
      ensures ReadThrough.Exec(old(ReadThrough.Idle(primary, secondary)), steps) ==
              Some(ReadThrough.Idle(primary, secondary))
      ensures old(Agrees(secondary, primary)) ==>
              (Agrees(secondary, primary) <==> cacheOk || id !in old(secondary))
    {
      ghost var s0 := ReadThrough.Idle(primary, secondary);
      ghost var s1 := ReadThrough.Next(s0, ReadThrough.Drop({id}));
      ghost var undo: seq<ReadThrough.Step<MaskEntry>> := if cacheOk then [ReadThrough.Evict(id)] else [];
      ReadThrough.ExecCons(s0, ReadThrough.Drop({id}), undo);
      if cacheOk {
        ReadThrough.ExecCons(s1, ReadThrough.Evict(id), []);
      }
      primary := primary - {id};
      if cacheOk {
        secondary := secondary - {id};
      }
      steps := [ReadThrough.Drop({id})] + undo;
      assert ReadThrough.Exec(s0, steps) == ReadThrough.Exec(s1, undo);
      assert cacheOk ==> undo == [ReadThrough.Evict(id)] + [];
    }
  }
}
