/** A store about which only the contract is known: it may refuse any call, and a batch may stop part-way.
    The layers that wrap another store are built over this one. */
module AnyStore {
  import opened Spi
  import opened TagQuery
  import opened Mem

  class Store {
    var db: Contents
    var closed: bool
    /** How often something outside has failed so far. */
    ghost var faults: nat

    constructor (db: Contents)
      ensures this.db == db && !closed && faults == 0
    {
      this.db, closed, faults := db, false, 0;
    }

    method Put(key: string, value: Option<Bytes>, tags: seq<Tag>) returns (r: Result<()>)
      modifies `db, `faults
      ensures PutMeets(old(db), key, value, tags, db, r) && Blames(old(faults), r, faults)
      ensures r.Err? && PutError(key, value, tags).None? ==> r.error == Unavailable
    {
      var e := PutError(key, value, tags);
      if e.Some? {
        return Err(e.value);
      }
      if * {
        faults := faults + 1;
        return Err(Unavailable);
      }
      db := db[key := Entry(value.value, tags)];
      if * {
        faults := faults + 1;
        return Err(Unavailable);
      }
      return Ok(());
    }

    method Get(key: string) returns (r: Result<Bytes>)
      modifies `faults
      ensures Blames(old(faults), r, faults)
      ensures r.Ok? ==> key in db && r.value == db[key].value
      ensures r == Err(DataNotFound) ==> key !in db
      ensures r.Err? ==> r.error in {EmptyKey, DataNotFound, Unavailable}
      ensures r == Err(EmptyKey) <==> key == ""
    {
      if key == "" {
        return Err(EmptyKey);
      }
      if * {
        faults := faults + 1;
        return Err(Unavailable);
      }
      return if key in db then Ok(db[key].value) else Err(DataNotFound);
    }

    method GetTags(key: string) returns (r: Result<seq<Tag>>)
      modifies `faults
      ensures Blames(old(faults), r, faults)
      ensures r.Ok? ==> key in db && r.value == db[key].tags
      ensures r == Err(DataNotFound) ==> key !in db
      ensures r.Err? ==> r.error in {EmptyKey, DataNotFound, Unavailable}
      ensures r == Err(EmptyKey) <==> key == ""
    {
      if key == "" {
        return Err(EmptyKey);
      }
      if * {
        faults := faults + 1;
        return Err(Unavailable);
      }
      return if key in db then Ok(db[key].tags) else Err(DataNotFound);
    }

    method Delete(key: string) returns (r: Result<()>)
      modifies `db, `faults
      ensures DeleteMeets(old(db), key, db, r) && Blames(old(faults), r, faults)
      ensures r.Err? && key != "" ==> r.error == Unavailable
    {
      if key == "" {
        return Err(EmptyKey);
      }
      if * {
        faults := faults + 1;
        return Err(Unavailable);
      }
      db := db - {key};
      if * {
        faults := faults + 1;
        return Err(Unavailable);
      }
      return Ok(());
    }

    /** May stop after any number of operations and report an error. */
    method Batch(ops: seq<Operation>) returns (r: Result<()>)
      modifies `db, `faults
      ensures BatchMeets(old(db), ops, db, r) && Blames(old(faults), r, faults)
      ensures r == Err(EmptyBatch) <==> ops == []
      ensures r.Err? ==> r.error in {EmptyBatch, EmptyKey, Unavailable}
      ensures r == Err(EmptyKey) ==> !KeysPresent(ops)
    {
      if ops == [] {
        PrefixNone(db, ops);
        return Err(EmptyBatch);
      }
      for i := 0 to |ops|
        invariant db == ApplyAll(old(db), ops[..i]) && faults == old(faults)
        invariant forall op | op in ops[..i] :: op.key != ""
      {
        if * {
          faults := faults + 1;
          return Err(Unavailable);
        }
        if ops[i].key == "" {
          assert ops[i] in ops;
          return Err(EmptyKey);
        }
        ApplyAllStep(old(db), ops, i);
        db := Apply(db, ops[i]);
      }
      assert ops[..|ops|] == ops;
      if * {
        faults := faults + 1;
        return Err(Unavailable);
      }
      return Ok(());
    }

    method Close() returns (r: Result<()>)
      modifies `closed, `faults
      ensures Blames(old(faults), r, faults)
      ensures r.Err? ==> r.error == Unavailable
      ensures r.Ok? ==> closed
    {
      if * {
        faults := faults + 1;
        return Err(Unavailable);
      }
      closed := true;
      if * {
        faults := faults + 1;
        return Err(Unavailable);
      }
      return Ok(());
    }

    method Query(expression: string) returns (r: Result<Iterator>)
      modifies `faults
      ensures Blames(old(faults), r, faults)
      ensures r.Err? ==> r.error in {BadExpression, Unavailable}
      ensures r == Err(BadExpression) ==> expression == "" || ParseAnd(expression).None?
      ensures r.Ok? ==> expression != "" && ParseAnd(expression).Some?
      ensures r.Ok? ==> fresh(r.value) && r.value.Valid() && r.value.currentIndex == 0
      ensures r.Ok? ==> RowsMeet(db, LastByName(ParseAnd(expression).value), r.value.rows)
    {
      if * {
        faults := faults + 1;
        return Err(Unavailable);
      }
      r := RunQuery(db, expression);
    }
  }
}
