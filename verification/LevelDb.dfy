/** The LevelDB store: entries and, under one reserved key, a hand-made index from tag names to keys.

    Every write to the database is atomic and may fail, and a failed write ends the call.  The states
    a failing call can leave are therefore exactly the states in which a client may have stopped. */
module LevelDb {
  import opened Spi
  import opened TagQuery

  const TAG_MAP_KEY := "TagMap"

  type TagMap = map<string, set<string>>

  /** JSON text of an index; `blank` is the text "{}". */
  datatype Json = Json(encode: TagMap -> Bytes, decode: Bytes -> Option<TagMap>, blank: Bytes) {
    ghost predicate Valid() {
      (forall tm :: decode(encode(tm)) == Some(tm)) && decode(blank) == Some(map[])
    }

    // ----- what the operations do to the database -------------------------------------------------------

    /** The index; an absent one is empty, and None is one that cannot be read. */
    function Index(db: Contents): Option<TagMap> {
      if TAG_MAP_KEY in db then decode(db[TAG_MAP_KEY].value) else Some(map[])
    }

    function WithIndex(db: Contents, tm: TagMap): (r: Contents)
      ensures View(r) == View(db)
    {
      db[TAG_MAP_KEY := Entry(encode(tm), [])]
    }

    function Created(db: Contents): (r: Contents)
      ensures View(r) == View(db)
    {
      if TAG_MAP_KEY in db then db else db[TAG_MAP_KEY := Entry(blank, [])]
    }

    function Indexed(db: Contents, key: string, tags: seq<Tag>): (r: Contents)
      ensures View(r) == View(db)
    {
      if tags == [] || Index(db).None? then db else WithIndex(db, AddAll(Index(db).value, key, tags))
    }

    function Unindexed(db: Contents, key: string): (r: Contents)
      ensures View(r) == View(db)
    {
      if TAG_MAP_KEY !in db || Index(db).None? then db else WithIndex(db, RemoveAll(Index(db).value, key))
    }

    /** The index first, then the entry. */
    function AfterPut(db: Contents, key: string, entry: Entry): Contents {
      Indexed(db, key, entry.tags)[key := entry]
    }

    /** The entry first, then the index. */
    function AfterDelete(db: Contents, key: string): Contents {
      Unindexed(db - {key}, key)
    }

    function After(db: Contents, op: Operation): Contents {
      if op.value.None? then AfterDelete(db, op.key) else AfterPut(db, op.key, Entry(op.value.value, op.tags))
    }

    function AfterAll(db: Contents, ops: seq<Operation>): Contents {
      if ops == [] then db else After(AfterAll(db, ops[..|ops| - 1]), ops[|ops| - 1])
    }

    /** Where a call can stop before it is through. */
    predicate StopsAt(db: Contents, op: Operation, db': Contents) {
      || db' == db
      || (op.value.Some? && op.tags != [] && (db' == Created(db) || db' == Indexed(db, op.key, op.tags)))
      || (op.value.None? && db' == db - {op.key})
    }

    lemma StaysReadable(db: Contents, op: Operation)
      requires Valid() && op.key != TAG_MAP_KEY
      ensures Index(db).Some? ==> Index(After(db, op)).Some?
    {
    }

    // ----- completeness at every stop -----------------------------------------------------------------------

    /** Every stored tagged entry is listed under all its tag names. */
    ghost predicate Complete(db: Contents) {
      && Index(db).Some?
      && forall k, t | k in View(db) && t in View(db)[k].tags :: Lists(Index(db).value, t.name, k)
    }

    lemma CompleteWherever(db: Contents, op: Operation, db': Contents)
      requires Valid() && Complete(db) && op.key != TAG_MAP_KEY
      requires db' == After(db, op) || StopsAt(db, op, db')
      ensures Complete(db')
    {
      hide AddAll, RemoveAll, Lists;
      if op.value.Some? {
        CompleteIndexed(db, op.key, op.tags);
        CompletePut(Indexed(db, op.key, op.tags), op.key, Entry(op.value.value, op.tags));
      } else {
        CompleteDelete(db, op.key);
      }
    }

    lemma CompleteIndexed(db: Contents, key: string, tags: seq<Tag>)
      requires Valid() && Complete(db)
      ensures Complete(Indexed(db, key, tags)) && Complete(Created(db))
      ensures forall t | t in tags :: Lists(Index(Indexed(db, key, tags)).value, t.name, key)
    {
      var tm := Index(db).value;
      forall n, k
        ensures Lists(AddAll(tm, key, tags), n, k) <==> Lists(tm, n, k) || (k == key && Names(tags, n))
      {
        AddAllLists(tm, key, tags, n, k);
      }
    }

    lemma CompletePut(db: Contents, key: string, entry: Entry)
      requires Complete(db) && key != TAG_MAP_KEY
      requires forall t | t in entry.tags :: Lists(Index(db).value, t.name, key)
      ensures Complete(db[key := entry])
    {
      assert View(db[key := entry]) == View(db)[key := entry];
    }

    lemma CompleteDelete(db: Contents, key: string)
      requires Valid() && Complete(db) && key != TAG_MAP_KEY
      ensures Complete(db - {key}) && Complete(AfterDelete(db, key))
    {
      var tm := Index(db).value;
      assert View(db - {key}) == View(db) - {key} && View(AfterDelete(db, key)) == View(db) - {key};
      assert forall n, k :: Lists(RemoveAll(tm, key), n, k) <==> Lists(tm, n, k) && k != key;
    }

    /** However many calls of a run stop part-way, the index stays complete. */
    lemma {:induction false} CompleteOverRuns(ops: seq<Operation>, states: seq<Contents>)
      requires Valid() && |states| == |ops| + 1 && Complete(states[0])
      requires forall i | 0 <= i < |ops| ::
                 && ops[i].key != TAG_MAP_KEY
                 && (states[i + 1] == After(states[i], ops[i]) || StopsAt(states[i], ops[i], states[i + 1]))
      ensures forall i | 0 <= i <= |ops| :: Complete(states[i])
    {
      if ops != [] {
        hide After, StopsAt, Complete;
        var n := |ops| - 1;
        CompleteOverRuns(ops[..n], states[..n + 1]);
        assert Complete(states[..n + 1][n]);
        CompleteWherever(states[n], ops[n], states[n + 1]);
        forall i | 0 <= i <= |ops|
          ensures Complete(states[i])
        {
          if i <= n { assert Complete(states[..n + 1][i]); }
        }
      }
    }

    // ----- exactness over whole runs ----------------------------------------------------------------------------

    /** The state in which a call leaves the database. */
    function Leaves(db: Contents, call: Call): Contents {
      match call.end
      case Completed => After(db, call.op)
      case AtOnce => db
      case IndexMade => Created(db)
      case IndexWritten => Indexed(db, call.op.key, call.op.tags)
      case EntryGone => db - {call.op.key}
    }

    function Run(db: Contents, calls: seq<Call>): Contents {
      if calls == [] then db else Leaves(Run(db, calls[..|calls| - 1]), calls[|calls| - 1])
    }

    /** The ends are the completion of the call and the places where it can stop, and no others. */
    lemma EndsAreStops(db: Contents, op: Operation, db': Contents)
      ensures db' == After(db, op) || StopsAt(db, op, db') <==>
              exists end :: Call(op, end).Possible() && db' == Leaves(db, Call(op, end))
    {
      if db' == After(db, op) { assert Call(op, Completed).Possible() && db' == Leaves(db, Call(op, Completed)); }
      if db' == db { assert Call(op, AtOnce).Possible() && db' == Leaves(db, Call(op, AtOnce)); }
      if op.value.Some? && op.tags != [] {
        assert Call(op, IndexMade).Possible() && Leaves(db, Call(op, IndexMade)) == Created(db);
        assert Call(op, IndexWritten).Possible() && Leaves(db, Call(op, IndexWritten)) == Indexed(db, op.key, op.tags);
      }
      if op.value.None? {
        assert Call(op, EntryGone).Possible() && Leaves(db, Call(op, EntryGone)) == db - {op.key};
      }
    }

    /** The entries are what the calls that got as far made of them, and the index lists exactly what they listed. */
    ghost predicate Exact(db: Contents, calls: seq<Call>) {
      && Index(db).Some? && View(db) == ApplyAll(map[], Effects(calls))
      && forall n, k :: Lists(Index(db).value, n, k) <==> Listed(calls, n, k)
    }

    /** After every run, wherever its calls stopped. */
    lemma {:induction false} RunIsExact(calls: seq<Call>)
      requires Valid() && forall c | c in calls :: c.op.key != TAG_MAP_KEY && c.Possible()
      ensures Exact(Run(map[], calls), calls)
    {
      if calls == [] {
        assert View(map[]) == map[];
      } else {
        var init, c := calls[..|calls| - 1], calls[|calls| - 1];
        assert forall x | x in init :: x in calls;
        RunIsExact(init);
        assert c in calls;
        ExactStep(Run(map[], init), init, c);
        assert calls == init + [c];
      }
    }

    lemma ExactStep(db: Contents, calls: seq<Call>, c: Call)
      requires Valid() && Exact(db, calls) && c.op.key != TAG_MAP_KEY && c.Possible()
      ensures Exact(Leaves(db, c), calls + [c])
    {
      hide Json.Leaves, Json.Index, Lists, Listed;
      EffectsStep(calls, c);
      ViewLeaves(db, c);
      forall n, k
        ensures Index(Leaves(db, c)).Some?
        ensures Lists(Index(Leaves(db, c)).value, n, k) <==> Listed(calls + [c], n, k)
      {
        ListsLeaves(db, c, n, k);
        ListedStep(calls, c, n, k);
      }
      ListsLeaves(db, c, "", "");
    }

    /** What a call makes of the index. */
    lemma ListsLeaves(db: Contents, c: Call, n: string, k: string)
      requires Valid() && Index(db).Some? && c.op.key != TAG_MAP_KEY && c.Possible()
      ensures Index(Leaves(db, c)).Some?
      ensures Lists(Index(Leaves(db, c)).value, n, k) <==>
              if c.op.key != k then Lists(Index(db).value, n, k)
              else if c.op.value.None? then Lists(Index(db).value, n, k) && c.end != Completed
              else Lists(Index(db).value, n, k) || Enters(c, n)
    {
      hide AddAll, RemoveAll;
      AddAllLists(Index(db).value, c.op.key, c.op.tags, n, k);
      RemoveAllLists(Index(db).value, c.op.key, n, k);
    }

    lemma ViewLeaves(db: Contents, c: Call)
      requires c.op.key != TAG_MAP_KEY && c.Possible()
      ensures View(Leaves(db, c)) == if c.TookEffect() then Apply(View(db), c.op) else View(db)
    {
      if c.op.value.Some? {
        var mid, entry := Indexed(db, c.op.key, c.op.tags), Entry(c.op.value.value, c.op.tags);
        assert View(mid[c.op.key := entry]) == View(mid)[c.op.key := entry];
      } else {
        assert View(db - {c.op.key}) == View(db) - {c.op.key};
      }
    }

    lemma ExactIsComplete(db: Contents, calls: seq<Call>)
      requires Exact(db, calls) && forall c | c in calls :: c.Possible()
      ensures Complete(db)
    {
      forall k, t | k in View(db) && t in View(db)[k].tags
        ensures Lists(Index(db).value, t.name, k)
      {
        StoredIsListed(calls, k, t);
      }
    }
  }

  // ----- calls and their ends ---------------------------------------------------------------------------------------

  /** How far a call got: through, nowhere, to a new index, to the updated index, or to the deleted entry. */
  datatype End = Completed | AtOnce | IndexMade | IndexWritten | EntryGone

  datatype Call = Call(op: Operation, end: End) {
    predicate Possible() {
      && (end in {IndexMade, IndexWritten} ==> op.value.Some? && op.tags != [])
      && (end == EntryGone ==> op.value.None?)
    }

    /** The entry was written or deleted. */
    predicate TookEffect() { end in {Completed, EntryGone} }
  }

  function Effects(calls: seq<Call>): seq<Operation> {
    if calls == [] then []
    else
      var last := calls[|calls| - 1];
      Effects(calls[..|calls| - 1]) + if last.TookEffect() then [last.op] else []
  }

  lemma EffectsStep(calls: seq<Call>, c: Call)
    ensures ApplyAll(map[], Effects(calls + [c])) ==
            var m := ApplyAll(map[], Effects(calls)); if c.TookEffect() then Apply(m, c.op) else m
  {
    assert (calls + [c])[..|calls|] == calls;
    ApplyAllSnoc(map[], Effects(calls), c.op);
    assert Effects(calls) + [] == Effects(calls);
  }

  /** What clients see: everything but the index. */
  function View(db: Contents): Contents {
    db - {TAG_MAP_KEY}
  }

  predicate Lists(tm: TagMap, n: string, k: string) {
    n in tm && k in tm[n]
  }

  predicate Names(tags: seq<Tag>, n: string) {
    exists t | t in tags :: t.name == n
  }

  function AddAll(tm: TagMap, key: string, tags: seq<Tag>): TagMap {
    if tags == [] then tm
    else
      var before, n := AddAll(tm, key, tags[..|tags| - 1]), tags[|tags| - 1].name;
      before[n := (if n in before then before[n] else {}) + {key}]
  }

  function RemoveAll(tm: TagMap, key: string): TagMap {
    map n | n in tm :: tm[n] - {key}
  }

  lemma {:induction false} AddAllLists(tm: TagMap, key: string, tags: seq<Tag>, n: string, k: string)
    ensures Lists(AddAll(tm, key, tags), n, k) <==> Lists(tm, n, k) || (k == key && Names(tags, n))
    ensures n in AddAll(tm, key, tags) <==> n in tm || Names(tags, n)
  {
    if tags != [] {
      var init, last := tags[..|tags| - 1], tags[|tags| - 1];
      AddAllLists(tm, key, init, n, k);
      assert tags == init + [last];
      assert forall t :: t in tags <==> t in init || t == last;
    }
  }

  lemma RemoveAllLists(tm: TagMap, key: string, n: string, k: string)
    ensures Lists(RemoveAll(tm, key), n, k) <==> Lists(tm, n, k) && k != key
    ensures n in RemoveAll(tm, key) <==> n in tm
  {
  }

  // ----- what is listed -------------------------------------------------------------------------------------------

  /** Since the last completed delete of `k`, some put of it with a tag named `n` got to the index. */
  predicate Listed(calls: seq<Call>, n: string, k: string) {
    if calls == [] then false
    else
      var c, before := calls[|calls| - 1], Listed(calls[..|calls| - 1], n, k);
      if c.op.key != k then before
      else if c.op.value.None? then before && c.end != Completed
      else before || Enters(c, n)
  }

  /** The call is a put that got its key into the index under the name. */
  predicate Enters(c: Call, n: string) {
    c.op.value.Some? && c.end in {Completed, IndexWritten} && Names(c.op.tags, n)
  }

  lemma ListedStep(calls: seq<Call>, c: Call, n: string, k: string)
    ensures Listed(calls + [c], n, k) <==>
            if c.op.key != k then Listed(calls, n, k)
            else if c.op.value.None? then Listed(calls, n, k) && c.end != Completed
            else Listed(calls, n, k) || Enters(c, n)
  {
    assert (calls + [c])[..|calls|] == calls;
  }

  /** A put of `k` that listed it under `n`, with no completed delete of `k` after it. */
  predicate ListedAt(calls: seq<Call>, n: string, k: string, i: int) {
    && 0 <= i < |calls| && calls[i].op.key == k && Enters(calls[i], n)
    && forall j | i < j < |calls| && calls[j].op.key == k && calls[j].op.value.None? :: calls[j].end != Completed
  }

  lemma {:induction false} ListedMeans(calls: seq<Call>, n: string, k: string)
    ensures Listed(calls, n, k) <==> exists i :: ListedAt(calls, n, k, i)
  {
    if calls != [] {
      var init, last := calls[..|calls| - 1], |calls| - 1;
      ListedMeans(init, n, k);
      if Listed(calls, n, k) {
        if calls[last].op.key == k && Enters(calls[last], n) {
          assert ListedAt(calls, n, k, last);
        } else {
          var i :| ListedAt(init, n, k, i);
          ListedExtends(calls, n, k, i);
        }
      }
      if i :| ListedAt(calls, n, k, i) && i < last {
        ListedExtends(calls, n, k, i);
      }
    }
  }

  lemma ListedExtends(calls: seq<Call>, n: string, k: string, i: int)
    requires 0 <= i < |calls| - 1
    ensures var last := calls[|calls| - 1];
            ListedAt(calls, n, k, i) <==>
            ListedAt(calls[..|calls| - 1], n, k, i)
            && !(last.op.key == k && last.op.value.None? && last.end == Completed)
  {
    var init := calls[..|calls| - 1];
    assert init[i] == calls[i];
    assert forall j | i < j < |init| :: init[j] == calls[j];
  }

  lemma {:induction false} StoredIsListed(calls: seq<Call>, k: string, t: Tag)
    requires forall c | c in calls :: c.Possible()
    requires k in ApplyAll(map[], Effects(calls)) && t in ApplyAll(map[], Effects(calls))[k].tags
    ensures Listed(calls, t.name, k)
  {
    if calls != [] {
      var init, last := calls[..|calls| - 1], calls[|calls| - 1];
      assert calls == init + [last];
      EffectsStep(init, last);
      assert forall c | c in init :: c in calls;
      assert last in calls;
      if !(last.op.key == k && last.TookEffect()) {
        StoredIsListed(init, k, t);
      }
    }
  }

  /** A key that is listed under the name and has no entry. */
  predicate Dangles(calls: seq<Call>, n: string, k: string) {
    Listed(calls, n, k) && k !in ApplyAll(map[], Effects(calls))
  }

  /** Calls that all complete leave none. */
  lemma {:induction false} CompletedDangleNever(calls: seq<Call>, n: string, k: string)
    requires forall c | c in calls :: c.end == Completed
    ensures !Dangles(calls, n, k)
  {
    if calls != [] {
      var init, last := calls[..|calls| - 1], calls[|calls| - 1];
      assert calls == init + [last];
      EffectsStep(init, last);
      assert forall c | c in init :: c in calls;
      assert last in calls;
      CompletedDangleNever(init, n, k);
    }
  }

  /** A delete that stops after the entry leaves one, and so does a put that stops before it. */
  lemma StopsDangle(key: string, name: string, v: Bytes)
    ensures var put := Operation(key, Some(v), [Tag(name, "")]);
            && Dangles([Call(put, Completed), Call(Operation(key, None, []), EntryGone)], name, key)
            && Dangles([Call(put, IndexWritten)], name, key)
  {
    var put := Operation(key, Some(v), [Tag(name, "")]);
    var first, second := Call(put, Completed), Call(Operation(key, None, []), EntryGone);
    assert Tag(name, "") in put.tags;
    assert [first, second] == [first] + [second] && [first] == [] + [first];
    assert [Call(put, IndexWritten)] == [] + [Call(put, IndexWritten)];
    EffectsStep([first], second);
    EffectsStep([], first);
    EffectsStep([], Call(put, IndexWritten));
    assert [first, second][..1] == [first];
    assert Listed([first], name, key);
  }

  // ----- what queries may promise ---------------------------------------------------------------------------------

  /** The keys a query looks at: those listed under the name; with a value, those whose entry has that tag. */
  function Selected(tm: TagMap, db: Contents, c: Criterion): set<string> {
    if c.name !in tm then {}
    else if c.value == "" then tm[c.name]
    else set k | k in tm[c.name] && k in db && Matches(db[k].tags, c)
  }

  /** A query with a value has to look at every listed key.  It can, exactly when none of them dangles; ... */
  lemma ValueQueriesWork(j: Json, db: Contents, calls: seq<Call>, n: string)
    requires j.Exact(db, calls)
    ensures (forall k :: Lists(j.Index(db).value, n, k) ==> k in View(db)) <==> forall k :: !Dangles(calls, n, k)
  {
    hide Lists, Listed;
    forall k
      ensures Dangles(calls, n, k) <==> Lists(j.Index(db).value, n, k) && k !in View(db)
    {
    }
  }

  /** ... and it selects exactly the entries that have the tag. */
  lemma ValueQueriesExact(j: Json, db: Contents, calls: seq<Call>, c: Criterion)
    requires j.Exact(db, calls) && c.value != "" && forall x | x in calls :: x.op.key != TAG_MAP_KEY && x.Possible()
    ensures Selected(j.Index(db).value, db, c) == set k | k in View(db) && Matches(View(db)[k].tags, c)
  {
    j.ExactIsComplete(db, calls);
    var tm := j.Index(db).value;
    forall k | k in View(db) && Matches(View(db)[k].tags, c)
      ensures k in Selected(tm, db, c)
    {
      var t :| t in View(db)[k].tags && TagMatches(t, c);
      assert Lists(tm, c.name, k);
    }
    forall k | k in Selected(tm, db, c)
      ensures k in View(db)
    {
      assert Lists(tm, c.name, k);
      ListedCalled(calls, c.name, k);
    }
  }

  lemma {:induction false} ListedCalled(calls: seq<Call>, n: string, k: string)
    requires Listed(calls, n, k)
    ensures exists c | c in calls :: c.op.key == k
  {
    var init, last := calls[..|calls| - 1], calls[|calls| - 1];
    assert last in calls;
    if last.op.key != k {
      ListedCalled(init, n, k);
      var c :| c in init && c.op.key == k;
      assert c in calls;
    }
  }

  /** A query for a name alone misses no stored key that has the tag.  It is exact just when every listed key is still
      stored with a tag of that name: none dangles, and none lost the tag by being written over. */
  lemma NameQueriesCover(j: Json, db: Contents, calls: seq<Call>, c: Criterion)
    requires j.Exact(db, calls) && c.value == "" && forall x | x in calls :: x.Possible()
    ensures var selected, tagged := Selected(j.Index(db).value, db, c), set k | k in View(db) && Matches(View(db)[k].tags, c);
            && tagged <= selected
            && (selected <= View(db).Keys <==> forall k :: !Dangles(calls, c.name, k))
            && (selected == tagged <==>
                  forall k | Listed(calls, c.name, k) :: k in View(db) && Names(View(db)[k].tags, c.name))
  {
    j.ExactIsComplete(db, calls);
    var tm := j.Index(db).value;
    var selected, tagged := Selected(tm, db, c), set k | k in View(db) && Matches(View(db)[k].tags, c);
    forall k
      ensures k in selected <==> Listed(calls, c.name, k)
    {
      assert Lists(tm, c.name, k) <==> k in selected;
    }
    forall k | k in View(db)
      ensures k in tagged <==> Names(View(db)[k].tags, c.name)
    {
      if Names(View(db)[k].tags, c.name) {
        var t :| t in View(db)[k].tags && t.name == c.name;
        assert TagMatches(t, c);
      }
      if k in tagged {
        var t :| t in View(db)[k].tags && TagMatches(t, c);
        assert t.name == c.name;
      }
    }
    forall k | k in tagged
      ensures k in selected
    {
      var t :| t in View(db)[k].tags && t.name == c.name;
      assert Lists(tm, t.name, k);
    }
    forall k
      ensures Dangles(calls, c.name, k) <==> k in selected && k !in View(db)
    {
    }
  }

  /** Writing a key over without its tag leaves it listed. */
  lemma ForgottenTagStaysListed(key: string, name: string, v: Bytes)
    ensures var first, second := Call(Operation(key, Some(v), [Tag(name, "")]), Completed),
                                 Call(Operation(key, Some(v), []), Completed);
            && Listed([first, second], name, key)
            && ApplyAll(map[], Effects([first, second])) == map[key := Entry(v, [])]
  {
    var first, second := Call(Operation(key, Some(v), [Tag(name, "")]), Completed),
                         Call(Operation(key, Some(v), []), Completed);
    assert [first, second] == [first] + [second] && [first] == [] + [first];
    EffectsStep([first], second);
    EffectsStep([], first);
    assert Tag(name, "") in first.op.tags;
    assert [first, second][..1] == [first] && Listed([first], name, key);
  }

  // ----- runs seen by clients ----------------------------------------------------------------------------------------

  /** To a client, a completed operation does what it does to the plain map, and a stopped one that or nothing. */
  lemma ViewStep(j: Json, db: Contents, op: Operation)
    requires op.key != TAG_MAP_KEY
    ensures View(j.After(db, op)) == Apply(View(db), op)
    ensures forall db' :: j.StopsAt(db, op, db') ==> View(db') == View(db) || View(db') == Apply(View(db), op)
  {
    if op.value.None? {
      assert View(db - {op.key}) == View(db) - {op.key};
    } else {
      var mid := j.Indexed(db, op.key, op.tags);
      var entry := Entry(op.value.value, op.tags);
      assert View(mid[op.key := entry]) == View(mid)[op.key := entry];
    }
  }

  lemma {:induction false} ViewRun(j: Json, db: Contents, ops: seq<Operation>)
    requires forall op | op in ops :: op.key != TAG_MAP_KEY
    ensures View(j.AfterAll(db, ops)) == ApplyAll(View(db), ops)
  {
    if ops != [] {
      var init, op := ops[..|ops| - 1], ops[|ops| - 1];
      assert forall o | o in init :: o in ops;
      ViewRun(j, db, init);
      assert op in ops;
      ViewStep(j, j.AfterAll(db, init), op);
    }
  }

  /** The first complaint about an operation of a batch, taken by itself. */
  function OperationError(op: Operation): (e: Option<Error>)
    ensures e.None? <==> op.key != "" && (op.value.Some? ==> ColonFreeTags(op.tags))
  {
    if op.value.Some? then PutError(op.key, op.value, op.tags) else if op.key == "" then Some(EmptyKey) else None
  }

  /** The calls of a batch that went through; what tags a delete carries does not matter. */
  function AllThrough(ops: seq<Operation>): seq<Call> {
    if ops == [] then []
    else AllThrough(ops[..|ops| - 1]) + [Call(Essence(ops[|ops| - 1]), Completed)]
  }

  function Essence(op: Operation): Operation {
    if op.value.None? then Operation(op.key, None, []) else op
  }

  lemma AcceptableKeys(ops: seq<Operation>)
    requires forall op | op in ops :: OperationError(op).None?
    ensures KeysPresent(ops)
  {
  }

  class LevelStore {
    const json: Json
    var db: Contents
    /** How often the database has failed so far. */
    ghost var faults: nat
    /** The accepted calls so far, each with how far it got. */
    ghost var calls: seq<Call>

    /** Entries and index are exactly what the calls account for. */
    ghost predicate Valid()
      reads `db, `calls
    {
      && json.Valid() && json.Exact(db, calls)
      && forall c | c in calls :: c.op.key != "" && c.op.key != TAG_MAP_KEY && c.Possible()
    }

    constructor (json: Json)
      requires json.Valid()
      ensures Valid() && db == map[] && calls == [] && this.json == json
    {
      this.json, db, faults, calls := json, map[], 0, [];
      new;
      json.RunIsExact([]);
    }

    /** The one atomic write. */
    method Write(key: string, entry: Entry) returns (r: Result<()>)
      modifies `db, `faults
      ensures r.Ok? ==> db == old(db)[key := entry]
      ensures r.Err? ==> db == old(db) && r.error == Unavailable
      ensures Blames(old(faults), r, faults)
    {
      if * {
        faults := faults + 1;
        return Err(Unavailable);
      }
      db := db[key := entry];
      return Ok(());
    }

    /** The one read. */
    method GetDBEntry(key: string) returns (r: Result<Entry>)
      modifies `faults
      ensures Blames(old(faults), r, faults)
      ensures r.Err? ==> r.error in {EmptyKey, DataNotFound, Unavailable}
      ensures r == Err(EmptyKey) <==> key == ""
      ensures r.Ok? ==> key in db && r.value == db[key]
      ensures r == Err(DataNotFound) ==> key !in db
    {
      if key == "" {
        return Err(EmptyKey);
      }
      if * {
        faults := faults + 1;
        return Err(Unavailable);
      }
      return if key in db then Ok(db[key]) else Err(DataNotFound);
    }

    method Get(key: string) returns (r: Result<Bytes>)
      modifies `faults
      ensures Blames(old(faults), r, faults)
      ensures r.Err? ==> r.error in {EmptyKey, DataNotFound, Unavailable}
      ensures r == Err(EmptyKey) <==> key == ""
      ensures r.Ok? ==> key in db && r.value == db[key].value
      ensures r == Err(DataNotFound) ==> key !in db
    {
      var e := GetDBEntry(key);
      return if e.Ok? then Ok(e.value.value) else Err(e.error);
    }

    method GetTags(key: string) returns (r: Result<seq<Tag>>)
      modifies `faults
      ensures Blames(old(faults), r, faults)
      ensures r.Err? ==> r.error in {EmptyKey, DataNotFound, Unavailable}
      ensures r == Err(EmptyKey) <==> key == ""
      ensures r.Ok? ==> key in db && r.value == db[key].tags
      ensures r == Err(DataNotFound) ==> key !in db
    {
      var e := GetDBEntry(key);
      return if e.Ok? then Ok(e.value.tags) else Err(e.error);
    }

    /** The call is accounted for, as completed exactly if it succeeded. */
    ghost predicate Accounts(before: seq<Call>, op: Operation, r: Result<()>)
      reads `calls
    {
      exists end :: calls == before + [Call(op, end)] && (r.Ok? <==> end == Completed)
    }

    /** Adds a call to the account. */
    ghost method Account(start: Contents, call: Call)
      requires json.Valid() && json.Exact(start, calls) && db == json.Leaves(start, call)
      requires forall c | c in calls :: c.op.key != "" && c.op.key != TAG_MAP_KEY && c.Possible()
      requires call.op.key != "" && call.op.key != TAG_MAP_KEY && call.Possible()
      modifies `calls
      ensures Valid() && calls == old(calls) + [call]
    {
      json.ExactStep(start, calls, call);
      calls := calls + [call];
    }

    /** Writing the index is a put without tags, so the recursion ends there. */
    method Put(key: string, value: Option<Bytes>, tags: seq<Tag>) returns (r: Result<()>)
      requires json.Valid()
      modifies this
      ensures PutError(key, value, tags).Some? ==>
                r == Err(PutError(key, value, tags).value) && db == old(db) && calls == old(calls)
      ensures r.Ok? ==> db == json.AfterPut(old(db), key, Entry(value.value, tags))
      ensures r.Ok? && tags != [] ==> json.Index(old(db)).Some?
      ensures r.Ok? && tags == [] ==> db == old(db)[key := Entry(value.value, [])]
      ensures Blames(old(faults), r, faults)
      ensures r.Err? && PutError(key, value, tags).None? ==> r.error in {BadTagMap, Unavailable}
      ensures r == Err(BadTagMap) ==> tags != [] && json.Index(old(db)).None?
      ensures r.Err? ==> json.StopsAt(old(db), Operation(key, value, tags), db)
      ensures key != TAG_MAP_KEY ==> PutMeets(View(old(db)), key, value, tags, View(db), r)
      ensures key == TAG_MAP_KEY ==> calls == old(calls)
      ensures old(Valid()) && key != TAG_MAP_KEY ==> Valid()
      ensures old(Valid()) && key != TAG_MAP_KEY && PutError(key, value, tags).None? ==>
                Accounts(old(calls), Operation(key, value, tags), r)
      decreases if tags == [] then 0 else 3
    {
      hide Json.Exact, Json.Index, Listed;
      var e := PutError(key, value, tags);
      if e.Some? {
        return Err(e.value);
      }
      ghost var valid, start, op := Valid(), db, Operation(key, value, tags);
      if key != TAG_MAP_KEY {
        ViewStep(json, db, op);
      }
      if |tags| > 0 {
        var updated := UpdateTagMap(key, tags);
        if updated.Err? {
          if valid && key != TAG_MAP_KEY {
            Account(start, Call(op, if db == start then AtOnce else IndexMade));
          }
          return Err(updated.error);
        }
      }
      r := Write(key, Entry(value.value, tags));
      if valid && key != TAG_MAP_KEY {
        Account(start, Call(op, if r.Ok? then Completed else if tags == [] then AtOnce else IndexWritten));
      }
    }

    method UpdateTagMap(key: string, tags: seq<Tag>) returns (r: Result<()>)
      requires json.Valid() && tags != []
      modifies this
      ensures calls == old(calls)
      ensures r.Ok? ==> json.Index(old(db)).Some? && db == json.Indexed(old(db), key, tags)
      ensures r.Err? ==> db == old(db) || db == json.Created(old(db))
      ensures Blames(old(faults), r, faults)
      ensures r.Err? ==> r.error in {BadTagMap, Unavailable}
      ensures r == Err(BadTagMap) ==> json.Index(old(db)).None?
      decreases 2
    {
      var found := GetTagMap(true);
      if found.Err? {
        return Err(found.error);
      }
      var tagMap := found.value;
      for i := 0 to |tags|
        invariant tagMap == AddAll(found.value, key, tags[..i])
        invariant db == json.Created(old(db)) && faults >= old(faults) && calls == old(calls)
      {
        assert tags[..i + 1][..i] == tags[..i];
        var n := tags[i].name;
        if n !in tagMap {
          tagMap := tagMap[n := {}];
        }
        tagMap := tagMap[n := tagMap[n] + {key}];
      }
      assert tags[..|tags|] == tags;
      r := Put(TAG_MAP_KEY, Some(json.encode(tagMap)), []);
    }

    /** Reads the index, and on request creates it when it is missing. */
    method GetTagMap(createIfDoesNotExist: bool) returns (r: Result<TagMap>)
      requires json.Valid()
      modifies this
      ensures calls == old(calls)
      ensures r.Ok? ==> json.Index(old(db)) == Some(r.value)
      ensures r.Ok? ==> db == if createIfDoesNotExist then json.Created(old(db)) else old(db)
      ensures r.Ok? ==> TAG_MAP_KEY in db
      ensures r.Err? ==> db == old(db)
      ensures r == Err(DataNotFound) ==> !createIfDoesNotExist && TAG_MAP_KEY !in db
      ensures r == Err(BadTagMap) ==> json.Index(old(db)).None?
      ensures r.Err? ==> r.error in {DataNotFound, BadTagMap, Unavailable}
      ensures Blames(old(faults), r, faults)
      decreases 1
    {
      var bytes := Get(TAG_MAP_KEY);
      if bytes.Err? {
        if !createIfDoesNotExist || bytes.error != DataNotFound {
          return Err(bytes.error);
        }
        var created := Put(TAG_MAP_KEY, Some(json.blank), []);
        if created.Err? {
          return Err(created.error);
        }
        bytes := Ok(json.blank);
      }
      var tagMap := json.decode(bytes.value);
      if tagMap.None? {
        return Err(BadTagMap);
      }
      return Ok(tagMap.value);
    }

    method Delete(key: string) returns (r: Result<()>)
      requires json.Valid()
      modifies this
      ensures key == "" ==> r == Err(EmptyKey) && db == old(db) && calls == old(calls)
      ensures r.Ok? ==> db == json.AfterDelete(old(db), key)
      ensures r.Ok? && TAG_MAP_KEY !in old(db) ==> db == old(db) - {key}
      ensures Blames(old(faults), r, faults)
      ensures r.Err? && key != "" ==> r.error in {BadTagMap, Unavailable}
      ensures r == Err(BadTagMap) ==> json.Index(old(db)).None?
      ensures r.Err? ==> json.StopsAt(old(db), Operation(key, None, []), db)
      ensures key != TAG_MAP_KEY ==> DeleteMeets(View(old(db)), key, View(db), r)
      ensures old(Valid()) && key != TAG_MAP_KEY ==> Valid()
      ensures old(Valid()) && key != TAG_MAP_KEY && key != "" ==> Accounts(old(calls), Operation(key, None, []), r)
    {
      hide Json.Exact, Listed;
      if key == "" {
        return Err(EmptyKey);
      }
      ghost var valid, start, op := Valid(), db, Operation(key, None, []);
      if key != TAG_MAP_KEY {
        ViewStep(json, db, op);
      }
      if * {
        faults := faults + 1;
        if valid && key != TAG_MAP_KEY {
          Account(start, Call(op, AtOnce));
        }
        return Err(Unavailable);
      }
      db := db - {key};
      r := RemoveFromTagMap(key);
      if valid && key != TAG_MAP_KEY {
        Account(start, Call(op, if r.Ok? then Completed else EntryGone));
      }
    }

    method RemoveFromTagMap(key: string) returns (r: Result<()>)
      requires json.Valid()
      modifies this
      ensures calls == old(calls)
      ensures r.Ok? ==> db == json.Unindexed(old(db), key)
      ensures r.Err? ==> db == old(db)
      ensures Blames(old(faults), r, faults)
      ensures r.Err? ==> r.error in {BadTagMap, Unavailable}
      ensures r == Err(BadTagMap) ==> json.Index(old(db)).None?
    {
      var found := GetTagMap(false);
      if found.Err? {
        return if found.error == DataNotFound then Ok(()) else Err(found.error);
      }
      var tagMap := found.value;
      var todo := tagMap.Keys;
      while todo != {}
        invariant tagMap.Keys == found.value.Keys && todo <= tagMap.Keys
        invariant db == old(db) && faults >= old(faults) && calls == old(calls)
        invariant forall n | n in tagMap :: tagMap[n] == if n in todo then found.value[n] else found.value[n] - {key}
        decreases todo
      {
        var n :| n in todo;
        todo := todo - {n};
        tagMap := tagMap[n := tagMap[n] - {key}];
      }
      assert tagMap == RemoveAll(found.value, key);
      r := Put(TAG_MAP_KEY, Some(json.encode(tagMap)), []);
    }

    /** One operation of a batch. */
    method Execute(op: Operation) returns (r: Result<()>)
      requires json.Valid()
      modifies this
      ensures r.Ok? ==> db == json.After(old(db), op) && OperationError(op).None?
      ensures r.Err? ==> json.StopsAt(old(db), op, db)
      ensures Blames(old(faults), r, faults)
      ensures r.Err? && !r.error.IsFault() ==> OperationError(op).Some? || json.Index(old(db)).None?
      ensures op.key != TAG_MAP_KEY && json.Index(old(db)).Some? && r.Ok? ==> json.Index(db).Some?
      ensures old(Valid()) && op.key != TAG_MAP_KEY ==>
                Valid() && (r.Ok? ==> calls == old(calls) + [Call(Essence(op), Completed)])
    {
      hide Json.AfterPut, Json.AfterDelete, Json.StopsAt, Json.Index, Json.Exact, Valid;
      ghost var from := db;
      if op.value.None? {
        r := Delete(op.key);
        DeleteStops(json, from, op, db);
      } else {
        r := Put(op.key, op.value, op.tags);
      }
      if r.Ok? && op.key != TAG_MAP_KEY {
        json.StaysReadable(from, op);
      }
    }

    /** Operation by operation; stops at the first that fails. */
    method Batch(ops: seq<Operation>) returns (r: Result<()>)
      requires json.Valid()
      modifies this
      ensures ops == [] ==> r == Err(EmptyBatch) && db == old(db)
      ensures r.Ok? ==> db == json.AfterAll(old(db), ops)
      ensures r.Err? && ops != [] ==>
                exists n :: 0 <= n < |ops| && json.StopsAt(json.AfterAll(old(db), ops[..n]), ops[n], db)
      ensures (forall op | op in ops :: op.key != TAG_MAP_KEY) ==> BatchMeets(View(old(db)), ops, View(db), r)
      ensures Blames(old(faults), r, faults)
      // With a readable index and without faults, a batch succeeds exactly when each operation is acceptable by itself.
      ensures r.Ok? ==> ops != [] && forall op | op in ops :: OperationError(op).None?
      ensures r.Err? && !r.error.IsFault() && json.Index(old(db)).Some?
              && (forall op | op in ops :: op.key != TAG_MAP_KEY) ==>
                ops == [] || exists op | op in ops :: OperationError(op).Some?
      ensures old(Valid()) && (forall op | op in ops :: op.key != TAG_MAP_KEY) ==>
                Valid() && (r.Ok? ==> calls == old(calls) + AllThrough(ops))
    {
      hide Json.After, Json.StopsAt, Json.Index, Valid, OperationError, View, Essence;
      if |ops| == 0 {
        PrefixNone(View(db), ops);
        return Err(EmptyBatch);
      }
      ghost var start, plain, valid, before := db, forall op | op in ops :: op.key != TAG_MAP_KEY, Valid(), calls;
      assert ops[..0] == [] && before + [] == before;
      for i := 0 to |ops|
        invariant db == json.AfterAll(start, ops[..i]) && faults >= old(faults)
        invariant forall op | op in ops[..i] :: OperationError(op).None?
        invariant json.Index(start).Some? && plain ==> json.Index(db).Some?
        invariant valid && plain ==> Valid() && calls == before + AllThrough(ops[..i])
      {
        var op := ops[i];
        assert op in ops && ops[..i + 1][..i] == ops[..i];
        r := Execute(op);
        if r.Err? {
          StoppedRun(json, start, ops, i, db);
          return;
        }
      }
      assert ops[..|ops|] == ops;
      AcceptableKeys(ops);
      if plain {
        ViewRun(json, start, ops);
      }
      r := Ok(());
    }

    /** The tags of an operation without a value do not matter. */
    lemma DeleteStops(j: Json, before: Contents, op: Operation, db': Contents)
      requires op.value.None?
      ensures j.StopsAt(before, Operation(op.key, None, []), db') <==> j.StopsAt(before, op, db')
    {
    }

    lemma StoppedRun(j: Json, start: Contents, ops: seq<Operation>, i: nat, db': Contents)
      requires i < |ops| && j.StopsAt(j.AfterAll(start, ops[..i]), ops[i], db')
      ensures (forall op | op in ops :: op.key != TAG_MAP_KEY) ==> AppliedPrefix(View(start), ops, View(db'))
    {
      if forall op | op in ops :: op.key != TAG_MAP_KEY {
        assert forall op | op in ops[..i] :: op in ops;
        ViewRun(j, start, ops[..i]);
        ViewStep(j, j.AfterAll(start, ops[..i]), ops[i]);
        ApplyAllStep(View(start), ops, i);
        assert View(db') == ApplyAll(View(start), ops[..i]) || View(db') == ApplyAll(View(start), ops[..i + 1]);
      }
    }

    /** Selects keys through the index, with a value only those whose entry has the tag. */
    method GetDatabaseKeysMatchingQuery(c: Criterion) returns (r: Result<seq<string>>)
      requires json.Valid()
      modifies this
      ensures db == old(db) && calls == old(calls) && Blames(old(faults), r, faults)
      ensures r.Err? ==> r.error in {BadTagMap, DataNotFound, EmptyKey, Unavailable}
      ensures r == Err(BadTagMap) ==> json.Index(db).None?
      ensures r.Ok? ==> json.Index(db).Some?
      ensures r.Ok? ==> forall i, j | 0 <= i < j < |r.value| :: r.value[i] != r.value[j]
      ensures r.Ok? ==> (set k | k in r.value) == Selected(json.Index(db).value, db, c)
      ensures r.Ok? && c.value != "" ==> forall k :: Lists(json.Index(db).value, c.name, k) ==> k != "" && k in db
      ensures r == Err(DataNotFound) ==>
                json.Index(db).Some? && c.value != "" && exists k :: Lists(json.Index(db).value, c.name, k) && k !in db
      ensures r == Err(EmptyKey) ==> json.Index(db).Some? && c.value != "" && Lists(json.Index(db).value, c.name, "")
    {
      var found := GetTagMap(false);
      if found.Err? {
        return if found.error == DataNotFound then Ok([]) else Err(found.error);
      }
      if c.name !in found.value {
        return Ok([]);
      }
      var keys := [];
      var todo := found.value[c.name];
      while todo != {}
        invariant todo <= found.value[c.name] && db == old(db) && faults >= old(faults) && calls == old(calls)
        invariant forall i, j | 0 <= i < j < |keys| :: keys[i] != keys[j]
        invariant forall k :: k in keys <==> k in found.value[c.name] && k !in todo
                                             && (c.value == "" || (k in db && Matches(db[k].tags, c)))
        invariant c.value != "" ==> forall k | k in found.value[c.name] && k !in todo :: k != "" && k in db
        decreases todo
      {
        var k :| k in todo;
        if c.value == "" {
          keys := keys + [k];
        } else {
          var tags := GetTags(k);
          if tags.Err? {
            assert Lists(found.value, c.name, k);
            return Err(tags.error);
          }
          if Matches(tags.value, c) {
            keys := keys + [k];
          }
        }
        todo := todo - {k};
      }
      return Ok(keys);
    }

    /** What a query finds, told by the calls alone.  Without faults, a query with a value fails exactly when some key
        dangles under the name, and otherwise finds exactly the entries with the tag; a query for a name alone finds
        exactly the listed keys. */
    method Query(expression: string) returns (r: Result<seq<string>>)
      requires Valid()
      modifies this
      ensures Valid() && db == old(db) && calls == old(calls) && Blames(old(faults), r, faults)
      ensures r == Err(BadExpression) <==> expression == "" || ParseCriterion(expression).None?
      ensures r.Err? ==> r.error in {BadExpression, DataNotFound, Unavailable}
      ensures r == Err(DataNotFound) ==>
                var c := ParseCriterion(expression).value; c.value != "" && exists k :: Dangles(calls, c.name, k)
      ensures r.Ok? && ParseCriterion(expression).value.value != "" ==>
                var c := ParseCriterion(expression).value;
                && (forall k :: !Dangles(calls, c.name, k))
                && forall k :: k in r.value <==> k in View(db) && Matches(View(db)[k].tags, c)
      ensures r.Ok? && ParseCriterion(expression).value.value == "" ==>
                forall k :: k in r.value <==> Listed(calls, ParseCriterion(expression).value.name, k)
      ensures r.Ok? ==> forall i, j | 0 <= i < j < |r.value| :: r.value[i] != r.value[j]
    {
      hide Listed, Dangles, Matches, View;
      if expression == "" || ParseCriterion(expression).None? {
        return Err(BadExpression);
      }
      var c := ParseCriterion(expression).value;
      QueryMeans(c);
      r := GetDatabaseKeysMatchingQuery(c);
    }

    lemma QueryMeans(c: Criterion)
      requires Valid()
      ensures var tm := json.Index(db).value;
              && !Lists(tm, c.name, "")
              && (forall k :: Lists(tm, c.name, k) && k !in db <==> Dangles(calls, c.name, k))
              && (c.value != "" ==>
                    forall k :: k in Selected(tm, db, c) <==> k in View(db) && Matches(View(db)[k].tags, c))
              && (c.value == "" ==> forall k :: k in Selected(tm, db, c) <==> Listed(calls, c.name, k))
    {
      hide Listed, Matches;
      var tm := json.Index(db).value;
      forall k
        ensures Lists(tm, c.name, k) ==> k != TAG_MAP_KEY && k != ""
      {
        if Listed(calls, c.name, k) {
          ListedCalled(calls, c.name, k);
        }
      }
      if c.value != "" {
        ValueQueriesExact(json, db, calls, c);
      } else {
        assert forall k :: k in Selected(tm, db, c) <==> Lists(tm, c.name, k);
      }
    }
  }
}
