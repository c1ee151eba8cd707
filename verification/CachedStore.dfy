/** The caching store: a main store and a cache store, written one after the other.

    Both stores may fail between the two writes.  `dirty` holds the keys for which that happened and that
    were not rewritten since; every other cached key agrees with the main store. */
module CachedStore {
  import opened Spi
  import AnyStore
  import FormattedStore

  /** A cached entry is either an exact copy or, when a read brought it in, a copy without its tags. */
  predicate Agrees(cached: Entry, main: Entry, filled: bool) {
    cached == if filled then Entry(main.value, []) else main
  }

  ghost predicate Coherent(cache: Contents, main: Contents, dirty: set<string>, filled: set<string>) {
    forall k | k in cache && k !in dirty :: k in main && Agrees(cache[k], main[k], k in filled)
  }

  /** Running the same batch on both sides makes the keys it writes agree, whatever they held before. */
  lemma {:induction false} BatchOnBoth(cache: Contents, main: Contents, dirty: set<string>, filled: set<string>,
                                       ops: seq<Operation>)
    requires Coherent(cache, main, dirty, filled)
    ensures Coherent(ApplyAll(cache, ops), ApplyAll(main, ops), dirty - Keys(ops), filled - Keys(ops))
  {
    forall k | k in ApplyAll(cache, ops) && k !in dirty - Keys(ops)
      ensures k in ApplyAll(main, ops) && Agrees(ApplyAll(cache, ops)[k], ApplyAll(main, ops)[k], k in filled - Keys(ops))
    {
      LastWriteWins(cache, ops, k);
      LastWriteWins(main, ops, k);
    }
  }

  /** A batch that stopped part-way on either side spoils at most the keys it names. */
  lemma BatchInterrupted(cache: Contents, main: Contents, cache': Contents, main': Contents,
                         dirty: set<string>, filled: set<string>, ops: seq<Operation>)
    requires Coherent(cache, main, dirty, filled)
    requires AppliedPrefix(cache, ops, cache') && AppliedPrefix(main, ops, main')
    ensures Coherent(cache', main', dirty + Keys(ops), filled)
  {
    var i :| 0 <= i <= |ops| && cache' == ApplyAll(cache, ops[..i]);
    var j :| 0 <= j <= |ops| && main' == ApplyAll(main, ops[..j]);
    assert Keys(ops[..i]) <= Keys(ops) && Keys(ops[..j]) <= Keys(ops);
    forall k | k in cache' && k !in dirty + Keys(ops)
      ensures k in main' && Agrees(cache'[k], main'[k], k in filled)
    {
      LastWriteWins(cache, ops[..i], k);
      LastWriteWins(main, ops[..j], k);
    }
  }

  /** A complaint about the tags is a complaint about the put. */
  lemma TagsFirst(key: string, value: Option<Bytes>, tags: seq<Tag>)
    ensures TagError(tags).Some? ==> PutError(key, value, tags).Some? && !TagError(tags).value.IsFault()
    ensures PutError(key, value, tags).None? ==> value.Some?
  {
  }

  class CacheStore {
    const mainStore: FormattedStore.FormatStore
    const cacheStore: AnyStore.Store
    ghost var dirty: set<string>
    /** The keys whose cached entry was last written by a read. */
    ghost var filled: set<string>

    ghost predicate Valid()
      reads `dirty, `filled, mainStore`next, mainStore`contents, mainStore.underlying`db, cacheStore`db
    {
      && cacheStore != mainStore.underlying && mainStore.Valid()
      && Coherent(cacheStore.db, mainStore.contents, dirty, filled)
    }

    ghost function Faults(): nat
      reads mainStore`faults, mainStore.underlying`faults, cacheStore`faults
    {
      mainStore.Faults() + cacheStore.faults
    }

    /** Formatting with random keys reserves the tags that keys are searched by. */
    predicate Accepts(tags: seq<Tag>) {
      mainStore.formatter.deterministic || mainStore.formatter.ReservedFree(tags)
    }

    constructor (main: FormattedStore.FormatStore, cache: AnyStore.Store)
      requires main.Valid() && cache != main.underlying && cache.db == map[]
      ensures Valid() && dirty == {} && filled == {} && mainStore == main && cacheStore == cache
    {
      mainStore, cacheStore, dirty, filled := main, cache, {}, {};
    }

    /** Closes the main store and then the cache; what they hold stays. */
    method Close() returns (r: Result<()>)
      requires Valid()
      modifies mainStore.underlying`closed, mainStore.underlying`faults, cacheStore`closed, cacheStore`faults
      ensures Blames(old(Faults()), r, Faults())
      ensures r.Err? ==> r.error == Unavailable
      ensures r.Ok? ==> mainStore.underlying.closed && cacheStore.closed
      ensures cacheStore.closed == old(cacheStore.closed) || mainStore.underlying.closed
    {
      r := mainStore.Close();
      if r.Err? {
        return;
      }
      r := cacheStore.Close();
    }

    method Put(key: string, value: Option<Bytes>, tags: seq<Tag>) returns (r: Result<()>)
      requires Valid() && Accepts(tags)
      modifies this, mainStore, mainStore.underlying`db, mainStore.underlying`faults, cacheStore`db, cacheStore`faults
      ensures Valid() && Blames(old(Faults()), r, Faults())
      ensures PutError(key, value, tags).Some? ==>
                && mainStore.contents == old(mainStore.contents) && cacheStore.db == old(cacheStore.db)
                && dirty == old(dirty)
                && r == Err(if TagError(tags).Some? then TagError(tags).value else PutError(key, value, tags).value)
      ensures PutError(key, value, tags).None? && r.Err? ==> r.error.IsFault()
      ensures r.Ok? ==>
                var op := Operation(key, value, tags);
                && mainStore.contents == Apply(old(mainStore.contents), op)
                && cacheStore.db == Apply(old(cacheStore.db), op)
      ensures r.Err? ==> mainStore.contents == old(mainStore.contents)
                         || mainStore.contents == Apply(old(mainStore.contents), Operation(key, value, tags))
      // The main store is written first: nothing gets into the cache that is not in the main store.
      ensures r.Err? ==> cacheStore.db == old(cacheStore.db)
                         || (mainStore.contents == Apply(old(mainStore.contents), Operation(key, value, tags))
                             && cacheStore.db == Apply(old(cacheStore.db), Operation(key, value, tags)))
      ensures dirty <= if r.Ok? then old(dirty) - {key} else old(dirty) + {key}
      ensures filled == if r.Ok? then old(filled) - {key} else old(filled)
    {
      hide FormattedStore.FormatStore.Valid, PutError, TagError, ColonFreeTags;
      TagsFirst(key, value, tags);
      var e := TagError(tags);
      if e.Some? {
        return Err(e.value);
      }
      r := mainStore.Put(key, value, tags);
      if r.Err? {
        dirty := if PutError(key, value, tags).Some? then dirty else dirty + {key};
        return;
      }
      r := cacheStore.Put(key, value, tags);
      if r.Err? {
        dirty := dirty + {key};
        return;
      }
      dirty, filled := dirty - {key}, filled - {key};
    }

    /** Reads the cache first; a miss is answered by the main store and put into the cache without tags. */
    method Get(key: string) returns (r: Result<Bytes>)
      requires Valid()
      modifies `filled, mainStore`next, mainStore`faults, mainStore.underlying`faults, cacheStore`db, cacheStore`faults
      ensures Valid() && Blames(old(Faults()), r, Faults())
      ensures r.Err? ==> r.error in {EmptyKey, DataNotFound, FormatFailed, Unavailable}
      ensures key == "" <==> r == Err(EmptyKey)
      ensures r.Ok? && key !in dirty ==> key in mainStore.contents && r.value == mainStore.contents[key].value
      ensures r == Err(DataNotFound) ==> key !in mainStore.contents && key !in old(cacheStore.db)
      // What the read answers from, and what it leaves in the cache.
      ensures r.Ok? && key in old(cacheStore.db) ==> r.value == old(cacheStore.db)[key].value
      ensures r.Ok? && key !in old(cacheStore.db) ==>
                key in mainStore.contents && r.value == mainStore.contents[key].value
      ensures cacheStore.db == old(cacheStore.db)
              || (key !in old(cacheStore.db) && key in mainStore.contents
                  && cacheStore.db == old(cacheStore.db)[key := Entry(mainStore.contents[key].value, [])])
      ensures r.Ok? ==> key in cacheStore.db
      ensures r.Err? && !r.error.IsFault() ==> cacheStore.db == old(cacheStore.db)
      ensures filled == if cacheStore.db == old(cacheStore.db) then old(filled) else old(filled) + {key}
    {
      hide FormattedStore.FormatStore.Valid;
      r := cacheStore.Get(key);
      if r.Ok? {
        return;
      }
      if r.error != DataNotFound {
        return;
      }
      r := mainStore.Get(key);
      if r.Err? {
        return;
      }
      var fill := cacheStore.Put(key, Some(r.value), []);
      if key in cacheStore.db {
        filled := filled + {key};
      }
      if fill.Err? {
        return Err(fill.error);
      }
    }

    /** Tags of a key that a read brought into the cache come back empty. */
    method GetTags(key: string) returns (r: Result<seq<Tag>>)
      requires Valid()
      modifies mainStore`next, mainStore`faults, mainStore.underlying`faults, cacheStore`faults
      ensures Valid() && Blames(old(Faults()), r, Faults())
      ensures r.Err? ==> r.error in {EmptyKey, DataNotFound, FormatFailed, Unavailable}
      ensures key == "" <==> r == Err(EmptyKey)
      ensures r.Ok? && key !in dirty ==>
                && key in mainStore.contents
                && r.value == if key in cacheStore.db && key in filled then [] else mainStore.contents[key].tags
      ensures r.Ok? && key in cacheStore.db ==> r.value == cacheStore.db[key].tags
      ensures r.Ok? && key !in cacheStore.db ==> key in mainStore.contents && r.value == mainStore.contents[key].tags
      ensures r == Err(DataNotFound) ==> key !in mainStore.contents && key !in cacheStore.db
    {
      hide FormattedStore.FormatStore.Valid;
      r := cacheStore.GetTags(key);
      if r.Ok? {
        return;
      }
      if r.error != DataNotFound {
        return;
      }
      r := mainStore.GetTags(key);
    }

    method Delete(key: string) returns (r: Result<()>)
      requires Valid()
      modifies this, mainStore, mainStore.underlying`db, mainStore.underlying`faults, cacheStore`db, cacheStore`faults
      ensures Valid() && Blames(old(Faults()), r, Faults())
      ensures DeleteMeets(old(mainStore.contents), key, mainStore.contents, r)
      ensures r.Err? && key != "" ==> r.error.IsFault()
      ensures r.Ok? ==> cacheStore.db == old(cacheStore.db) - {key}
      ensures r.Err? ==> cacheStore.db == old(cacheStore.db)
                         || (mainStore.contents == old(mainStore.contents) - {key}
                             && cacheStore.db == old(cacheStore.db) - {key})
      ensures dirty <= if r.Ok? then old(dirty) - {key} else old(dirty) + {key}
      ensures filled == if r.Ok? then old(filled) - {key} else old(filled)
    {
      hide FormattedStore.FormatStore.Valid;
      r := mainStore.Delete(key);
      if r.Err? {
        dirty := dirty + {key};
        return;
      }
      r := cacheStore.Delete(key);
      if r.Err? {
        dirty := dirty + {key};
        return;
      }
      dirty, filled := dirty - {key}, filled - {key};
    }

    /** Without faults a batch succeeds exactly when all keys are there and the main store does not refuse it. */
    method Batch(ops: seq<Operation>) returns (r: Result<()>)
      requires Valid() && forall op | op in ops :: Accepts(op.tags)
      modifies this, mainStore, mainStore.underlying`db, mainStore.underlying`faults, cacheStore`db, cacheStore`faults
      ensures Valid() && Blames(old(Faults()), r, Faults())
      ensures BatchMeets(old(mainStore.contents), ops, mainStore.contents, r)
      ensures r.Err? ==> r.error in {EmptyKey, EmptyBatch, FormatFailed, Unavailable}
      ensures r == Err(EmptyKey) <==> !KeysPresent(ops)
      ensures r == Err(EmptyBatch) ==> mainStore.Refuses(ops, old(mainStore.contents))
      ensures mainStore.Refuses(ops, old(mainStore.contents)) ==>
                r.Err? && mainStore.contents == old(mainStore.contents) && cacheStore.db == old(cacheStore.db)
      ensures r == Err(EmptyKey) ==>
                mainStore.contents == old(mainStore.contents) && cacheStore.db == old(cacheStore.db)
      ensures r.Ok? ==> cacheStore.db == ApplyAll(old(cacheStore.db), ops)
      ensures r.Err? ==> cacheStore.db == old(cacheStore.db)
                         || (mainStore.contents == ApplyAll(old(mainStore.contents), ops)
                             && AppliedPrefix(old(cacheStore.db), ops, cacheStore.db))
      ensures dirty <= if r.Ok? then old(dirty) - Keys(ops) else old(dirty) + Keys(ops)
      ensures filled == if r.Ok? then old(filled) - Keys(ops) else old(filled)
    {
      hide FormattedStore.FormatStore.Valid, Coherent;
      ghost var main, cache := mainStore.contents, cacheStore.db;
      r := mainStore.Batch(ops);
      if r.Err? {
        PrefixNone(cache, ops);
        BatchInterrupted(cache, main, cache, mainStore.contents, dirty, filled, ops);
        dirty := dirty + Keys(ops);
        return;
      }
      PrefixAll(main, ops);
      assert !mainStore.Refuses(ops, main);
      assert ops != [];
      r := cacheStore.Batch(ops);
      if r.Err? {
        BatchInterrupted(cache, main, cacheStore.db, mainStore.contents, dirty, filled, ops);
        dirty := dirty + Keys(ops);
        return;
      }
      BatchOnBoth(cache, main, dirty, filled, ops);
      dirty, filled := dirty - Keys(ops), filled - Keys(ops);
    }
  }
}
