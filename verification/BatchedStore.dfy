/** The write-behind store: writes collect in a buffer that is flushed as one batch, and reads flush first. */
module BatchedStore {
  import opened Spi
  import CachedStore
  import opened StackModel

  function Max(a: int, b: int): int { if a > b then a else b }

  class BatchStore {
    const underlying: CachedStore.CacheStore
    const batchSizeLimit: int
    var currentBatch: seq<Operation>
    /** The map that the operations accepted so far amount to. */
    ghost var contents: Contents

    ghost function Repr(): set<object>
    {
      {this, underlying, underlying.mainStore, underlying.mainStore.underlying, underlying.cacheStore}
    }

    /** The buffer, applied to what is stored below, always gives `contents`.  Only keys that the buffer will
        write again can be out of step in the cache. */
    ghost predicate Valid()
      reads Repr()
    {
      && underlying.Valid() && KeysPresent(currentBatch)
      && (forall op | op in currentBatch :: underlying.Accepts(op.tags))
      && contents == ApplyAll(underlying.mainStore.contents, currentBatch)
      && underlying.dirty <= Keys(currentBatch)
    }

    ghost function Setup(): Setup {
      StackModel.Setup(underlying.mainStore.formatter.deterministic, batchSizeLimit)
    }

    ghost function State(): State
      reads Repr()
    {
      StackModel.State(underlying.mainStore.contents, underlying.cacheStore.db, currentBatch)
    }

    ghost function Faults(): nat
      reads Repr()
    {
      underlying.Faults()
    }

    constructor (underlying: CachedStore.CacheStore, batchSizeLimit: int)
      requires underlying.Valid() && underlying.dirty == {}
      ensures Valid() && contents == underlying.mainStore.contents && currentBatch == []
      ensures this.underlying == underlying && this.batchSizeLimit == batchSizeLimit
    {
      this.underlying, this.batchSizeLimit, currentBatch := underlying, batchSizeLimit, [];
      contents := underlying.mainStore.contents;
    }

    /** The cache holds the key with its tags, or will once the buffer has run. */
    ghost predicate TagsSafe(key: string)
      reads Repr()
    {
      key in Keys(currentBatch) || key !in underlying.filled
    }

    /** What is buffered makes the cache sound again. */
    lemma SoundBehindBuffer()
      requires Valid()
      ensures Sound(State())
    {
      var cache := underlying;
      CachedStore.BatchOnBoth(cache.cacheStore.db, cache.mainStore.contents, cache.dirty, cache.filled, currentBatch);
    }

    /** A failed flush keeps the whole buffer.  Replaying it later gives the result of a single clean run, however
        far the failed attempt got in either store below.  Without faults a flush fails exactly when it is stuck. */
    method Flush() returns (r: Result<()>)
      requires Valid()
      modifies `currentBatch, underlying, underlying.mainStore, underlying.mainStore.underlying`db,
        underlying.mainStore.underlying`faults, underlying.cacheStore`db, underlying.cacheStore`faults
      ensures Valid() && contents == old(contents) && Blames(old(Faults()), r, Faults())
      ensures r.Ok? ==> currentBatch == [] && underlying.mainStore.contents == contents && underlying.dirty == {}
      ensures r.Ok? ==> underlying.cacheStore.db == ApplyAll(old(underlying.cacheStore.db), old(currentBatch))
      ensures old(currentBatch) == [] ==> r.Ok? && State() == old(State())
      ensures r.Err? ==> currentBatch == old(currentBatch) && r.error in {EmptyBatch, FormatFailed, Unavailable}
      ensures r == Err(EmptyBatch) ==> old(Stuck(Setup(), State()))
      ensures old(Stuck(Setup(), State())) ==> r.Err?
      ensures Faults() == old(Faults()) ==> (r.Ok?, State()) == FlushStep(Setup(), old(State()))
      ensures underlying.filled ==
              if r.Ok? then old(underlying.filled) - Keys(old(currentBatch)) else old(underlying.filled)
    {
      hide CachedStore.CacheStore.Valid, ApplyAll, NothingToDo;
      ghost var before, cached := underlying.mainStore.contents, underlying.cacheStore.db;
      ApplyNone(before);
      ApplyNone(cached);
      if |currentBatch| > 0 {
        r := underlying.Batch(currentBatch);
        if r.Err? {
          ghost var n :| 0 <= n <= |currentBatch| &&
                         underlying.mainStore.contents == ApplyAll(before, currentBatch[..n]);
          ReplayAfterPrefix(before, currentBatch, n);
          return;
        }
        currentBatch := [];
        ApplyNone(underlying.mainStore.contents);
        return;
      }
      assert Keys(currentBatch) == {};
      return Ok(());
    }

    /** Closing flushes, and leaves the store open below when the flush fails. */
    method Close() returns (r: Result<()>)
      requires Valid()
      modifies Repr()
      ensures Valid() && contents == old(contents) && Blames(old(Faults()), r, Faults())
      ensures r.Ok? ==> currentBatch == [] && underlying.mainStore.contents == contents && underlying.dirty == {}
      ensures r.Ok? ==> underlying.mainStore.underlying.closed && underlying.cacheStore.closed
      ensures currentBatch != [] ==>
                && underlying.mainStore.underlying.closed == old(underlying.mainStore.underlying.closed)
                && underlying.cacheStore.closed == old(underlying.cacheStore.closed)
      ensures Faults() == old(Faults()) ==> (r.Ok?, State()) == FlushStep(Setup(), old(State()))
    {
      hide CachedStore.CacheStore.Valid, FlushStep, Stuck;
      r := Flush();
      if r.Err? {
        return;
      }
      r := underlying.Close();
    }

    lemma KeysSnoc(op: Operation)
      ensures Keys(currentBatch + [op]) == Keys(currentBatch) + {op.key}
    {
      assert forall x :: x in currentBatch + [op] <==> x in currentBatch || x == op;
    }

    method Append(op: Operation) returns (r: Result<()>)
      requires Valid() && op.key != "" && underlying.Accepts(op.tags)
      modifies Repr()
      ensures Valid() && contents == Apply(old(contents), op) && Blames(old(Faults()), r, Faults())
      ensures r.Err? ==> r.error in {EmptyBatch, FormatFailed, Unavailable}
      ensures |old(currentBatch)| + 1 < batchSizeLimit ==> r.Ok? && State() == Holding(old(State()), [op])
      ensures r.Err? ==> currentBatch == old(currentBatch) + [op]
      ensures r.Ok? && |old(currentBatch)| + 1 >= batchSizeLimit ==> currentBatch == []
      ensures r.Ok? ==> |currentBatch| < Max(1, batchSizeLimit)
      ensures Faults() == old(Faults()) ==> (r.Ok?, State()) == StackModel.Append(Setup(), old(State()), op)
      ensures TagsSafe(op.key) && forall k | old(TagsSafe(k)) :: TagsSafe(k)
    {
      hide CachedStore.CacheStore.Valid, ApplyAll, FlushStep, Stuck;
      KeysSnoc(op);
      ApplyAllSnoc(underlying.mainStore.contents, currentBatch, op);
      currentBatch := currentBatch + [op];
      contents := Apply(contents, op);
      r := Ok(());
      if |currentBatch| >= batchSizeLimit {
        r := Flush();
      }
    }

    /** An accepted write takes effect even when the flush that it triggers fails and an error is reported.  Without
        faults that never happens to a put. */
    method Put(key: string, value: Option<Bytes>, tags: seq<Tag>) returns (r: Result<()>)
      requires Valid() && underlying.Accepts(tags)
      modifies Repr()
      ensures Valid() && Blames(old(Faults()), r, Faults())
      ensures PutError(key, value, tags).Some? ==>
                r == Err(PutError(key, value, tags).value) && contents == old(contents) && State() == old(State())
      ensures PutError(key, value, tags).None? ==> contents == Apply(old(contents), Operation(key, value, tags))
      ensures PutError(key, value, tags).None? && |old(currentBatch)| + 1 < batchSizeLimit ==>
                r.Ok? && State() == Holding(old(State()), [Operation(key, value, tags)])
      ensures PutError(key, value, tags).None? && r.Err? ==>
                currentBatch == old(currentBatch) + [Operation(key, value, tags)]
      ensures r.Ok? && |old(currentBatch)| + 1 >= batchSizeLimit ==> currentBatch == []
      ensures PutError(key, value, tags).None? ==> TagsSafe(key)
      ensures forall k | old(TagsSafe(k)) :: TagsSafe(k)
      ensures Faults() == old(Faults()) ==> (r.Ok? <==> PutError(key, value, tags).None?)
      ensures Faults() == old(Faults()) && r.Ok? ==>
                (r.Ok?, State()) == StackModel.Append(Setup(), old(State()), Operation(key, value, tags))
    {
      hide StackModel.Append;
      var e := PutError(key, value, tags);
      if e.Some? {
        return Err(e.value);
      }
      PutGoesThrough(Setup(), State(), Operation(key, value, tags));
      AppendMeans(Setup(), State(), Operation(key, value, tags));
      r := Append(Operation(key, value, tags));
    }

    /** Without faults a delete fails exactly when it jams the buffer. */
    method Delete(key: string) returns (r: Result<()>)
      requires Valid()
      modifies Repr()
      ensures Valid() && Blames(old(Faults()), r, Faults())
      ensures key == "" ==> r == Err(EmptyKey) && contents == old(contents) && State() == old(State())
      ensures key != "" ==> contents == old(contents) - {key} && TagsSafe(key)
      ensures forall k | old(TagsSafe(k)) :: TagsSafe(k)
      ensures key != "" && |old(currentBatch)| + 1 < batchSizeLimit ==>
                r.Ok? && State() == Holding(old(State()), [Operation(key, None, [])])
      ensures key != "" && r.Err? ==> currentBatch == old(currentBatch) + [Operation(key, None, [])]
      ensures r.Ok? && |old(currentBatch)| + 1 >= batchSizeLimit ==> currentBatch == []
      ensures Faults() == old(Faults()) && key != "" ==>
                && (r.Ok? <==> !Jams(Setup(), old(State()), Operation(key, None, [])))
                && (r.Ok?, State()) == StackModel.Append(Setup(), old(State()), Operation(key, None, []))
    {
      hide StackModel.Append, Jams;
      if key == "" {
        return Err(EmptyKey);
      }
      AppendMeans(Setup(), State(), Operation(key, None, []));
      r := Append(Operation(key, None, []));
    }

    method Batch(ops: seq<Operation>) returns (r: Result<()>)
      requires Valid() && forall op | op in ops :: underlying.Accepts(op.tags)
      modifies Repr()
      ensures Valid() && Blames(old(Faults()), r, Faults())
      ensures ops == [] ==> r == Err(EmptyBatch) && contents == old(contents) && State() == old(State())
      ensures !KeysPresent(ops) ==> r == Err(EmptyKey) && contents == old(contents) && State() == old(State())
      ensures r.Ok? ==> contents == ApplyAll(old(contents), ops) && |currentBatch| < Max(1, batchSizeLimit)
      ensures r.Ok? ==> forall op | op in ops :: TagsSafe(op.key)
      ensures forall k | old(TagsSafe(k)) :: TagsSafe(k)
      ensures r.Err? ==> AppliedPrefix(old(contents), ops, contents)
      ensures ops != [] && KeysPresent(ops) && |old(currentBatch)| + |ops| < batchSizeLimit ==>
                r.Ok? && State() == Holding(old(State()), ops)
      ensures Faults() == old(Faults()) && ops != [] && KeysPresent(ops) ==>
                (r.Ok?, State()) == AppendAll(Setup(), old(State()), ops)
    {
      hide CachedStore.CacheStore.Valid, ApplyAll, StackModel.Append, Holding;
      PrefixNone(contents, ops);
      if |ops| == 0 {
        return Err(EmptyBatch);
      }
      for i := 0 to |ops|
        invariant Valid() && contents == old(contents) && State() == old(State())
        invariant forall op | op in ops[..i] :: op.key != ""
      {
        if ops[i].key == "" {
          assert ops[i] in ops;
          return Err(EmptyKey);
        }
      }
      assert ops[..|ops|] == ops;
      r := AppendEach(ops);
    }

    /** Stops at the first flush that fails, with its operation in the buffer. */
    method AppendEach(ops: seq<Operation>) returns (r: Result<()>)
      requires Valid() && KeysPresent(ops) && forall op | op in ops :: underlying.Accepts(op.tags)
      modifies Repr()
      ensures Valid() && Blames(old(Faults()), r, Faults())
      ensures r.Ok? ==> contents == ApplyAll(old(contents), ops) && forall op | op in ops :: TagsSafe(op.key)
      ensures r.Ok? && ops != [] ==> |currentBatch| < Max(1, batchSizeLimit)
      ensures forall k | old(TagsSafe(k)) :: TagsSafe(k)
      ensures r.Err? ==> AppliedPrefix(old(contents), ops, contents)
      ensures |old(currentBatch)| + |ops| < batchSizeLimit ==> r.Ok? && State() == Holding(old(State()), ops)
      ensures Faults() == old(Faults()) ==> (r.Ok?, State()) == AppendAll(Setup(), old(State()), ops)
    {
      hide CachedStore.CacheStore.Valid, ApplyAll, StackModel.Append, Holding;
      assert ops[..|ops|] == ops && ops[..0] == [];
      ApplyNone(contents);
      HoldingNone(State());
      r := Ok(());
      for i := 0 to |ops|
        invariant Valid() && contents == ApplyAll(old(contents), ops[..i]) && Faults() >= old(Faults())
        invariant i > 0 ==> |currentBatch| < Max(1, batchSizeLimit)
        invariant forall op | op in ops[..i] :: TagsSafe(op.key)
        invariant forall k | old(TagsSafe(k)) :: TagsSafe(k)
        invariant |old(currentBatch)| + |ops| < batchSizeLimit ==> State() == Holding(old(State()), ops[..i])
        invariant Faults() == old(Faults()) ==> (true, State()) == AppendAll(Setup(), old(State()), ops[..i])
      {
        assert ops[i] in ops;
        assert ops[..i + 1] == ops[..i] + [ops[i]];
        ApplyAllStep(old(contents), ops, i);
        AppendAllStep(Setup(), old(State()), ops, i);
        HoldingStep(old(State()), ops, i);
        r := Append(ops[i]);
        if r.Err? {
          if Faults() == old(Faults()) {
            AppendAllStops(Setup(), old(State()), ops, i + 1);
          }
          return;
        }
      }
      r := Ok(());
    }

    /** Answers from the map that the accepted operations amount to, or reports that the flush was refused. */
    method Get(key: string) returns (r: Result<Bytes>)
      requires Valid()
      modifies Repr()
      ensures Valid() && contents == old(contents) && Blames(old(Faults()), r, Faults())
      ensures r.Ok? ==> currentBatch == [] && key != "" && key in contents && r.value == contents[key].value
      ensures r == Err(DataNotFound) ==> key != "" && key !in contents
      ensures r.Err? ==> r.error in {EmptyBatch, EmptyKey, DataNotFound, FormatFailed, Unavailable}
      ensures r == Err(EmptyBatch) ==> old(Stuck(Setup(), State()))
      ensures old(Stuck(Setup(), State())) ==> r.Err? && r.error != DataNotFound
      ensures Faults() == old(Faults()) ==>
                (ValueAnswer(r), State()) == Act(Setup(), old(State()), StackModel.Get(key))
      ensures forall k | k != key && old(TagsSafe(k)) :: TagsSafe(k)
    {
      hide CachedStore.CacheStore.Valid, Stuck;
      var flushed := Flush();
      if flushed.Err? {
        return Err(flushed.error);
      }
      r := underlying.Get(key);
    }

    method GetTags(key: string) returns (r: Result<seq<Tag>>)
      requires Valid()
      modifies Repr()
      ensures Valid() && contents == old(contents) && Blames(old(Faults()), r, Faults())
      ensures r.Ok? ==>
                && currentBatch == [] && key in contents && key != ""
                && r.value == if key in underlying.cacheStore.db && key in underlying.filled then []
                              else contents[key].tags
      ensures r.Err? ==> r.error in {EmptyBatch, EmptyKey, DataNotFound, FormatFailed, Unavailable}
      ensures r == Err(DataNotFound) ==> key != "" && key !in contents
      ensures r == Err(EmptyBatch) ==> old(Stuck(Setup(), State()))
      ensures old(Stuck(Setup(), State())) ==> r.Err? && r.error != DataNotFound
      ensures Faults() == old(Faults()) ==>
                (TagsAnswer(r), State()) == Act(Setup(), old(State()), StackModel.GetTags(key))
      ensures r.Ok? && old(TagsSafe(key)) ==> r.value == contents[key].tags
      ensures forall k | old(TagsSafe(k)) :: TagsSafe(k)
    {
      hide CachedStore.CacheStore.Valid, Stuck;
      var flushed := Flush();
      if flushed.Err? {
        return Err(flushed.error);
      }
      r := underlying.GetTags(key);
    }
  }
}
