/** The in-memory store: a map, a conjunctive query answered by counting, and a snapshot iterator. */
module Mem {
  import opened Spi
  import opened TagQuery

  type Row = (string, Entry)

  /** `rows` lists exactly the entries of `db` that match, each under its key and once. */
  ghost predicate RowsMeet(db: Contents, wanted: map<string, string>, rows: seq<Row>) {
    && (forall i, j | 0 <= i < j < |rows| :: rows[i].0 != rows[j].0)
    && (forall i | 0 <= i < |rows| :: rows[i].0 in db && rows[i].1 == db[rows[i].0]
                                      && MatchesAll(rows[i].1.tags, wanted))
    && (forall k | k in db && MatchesAll(db[k].tags, wanted) :: exists i :: 0 <= i < |rows| && rows[i].0 == k)
  }

  // ----- iterator ------------------------------------------------------------------------------

  class Iterator {
    var currentIndex: nat
    var currentKey: string
    var currentEntry: Entry
    var keys: seq<string>
    var dbEntries: seq<Entry>
    /** The snapshot that the iterator was made from. */
    ghost const rows: seq<Row>

    ghost predicate Valid()
      reads this
    {
      && |keys| == |rows| && currentIndex <= |rows|
      && (forall i | 0 <= i < |rows| :: keys[i] == rows[i].0)
      && (dbEntries != [] ==>
            |dbEntries| == |rows| && forall i | 0 <= i < |rows| :: dbEntries[i] == rows[i].1)
      && (dbEntries == [] ==> currentIndex == |rows|)
      && (currentIndex > 0 && dbEntries != [] ==> rows[currentIndex - 1] == (currentKey, currentEntry))
    }

    constructor (keys: seq<string>, dbEntries: seq<Entry>)
      requires |keys| == |dbEntries|
      ensures Valid() && currentIndex == 0
      ensures rows == seq(|keys|, i requires 0 <= i < |keys| => (keys[i], dbEntries[i]))
    {
      this.keys, this.dbEntries := keys, dbEntries;
      currentIndex, currentKey, currentEntry := 0, "", Entry([], []);
      rows := seq(|keys|, i requires 0 <= i < |keys| => (keys[i], dbEntries[i]));
    }

    /** Moves to the next row; reports false exactly when the rows are used up, and keeps doing so. */
    method Next() returns (more: bool)
      requires Valid()
      modifies this
      ensures Valid()
      ensures more <==> old(currentIndex) < |rows|
      ensures currentIndex == old(currentIndex) + (if more then 1 else 0)
      ensures more <==> dbEntries != []
    {
      if |dbEntries| == currentIndex || |dbEntries| == 0 {
        dbEntries := [];
        return false;
      }
      currentKey, currentEntry := keys[currentIndex], dbEntries[currentIndex];
      currentIndex := currentIndex + 1;
      return true;
    }

    method Key() returns (r: Result<string>)
      requires Valid()
      ensures dbEntries == [] ==> r == Err(IteratorExhausted)
      ensures dbEntries != [] && currentIndex > 0 ==> r == Ok(rows[currentIndex - 1].0)
    {
      if |dbEntries| == 0 {
        return Err(IteratorExhausted);
      }
      return Ok(currentKey);
    }

    method Value() returns (r: Result<Bytes>)
      requires Valid()
      ensures dbEntries == [] ==> r == Err(IteratorExhausted)
      ensures dbEntries != [] && currentIndex > 0 ==> r == Ok(rows[currentIndex - 1].1.value)
    {
      if |dbEntries| == 0 {
        return Err(IteratorExhausted);
      }
      return Ok(currentEntry.value);
    }

    method Tags() returns (r: Result<seq<Tag>>)
      requires Valid()
      ensures dbEntries == [] ==> r == Err(IteratorExhausted)
      ensures dbEntries != [] && currentIndex > 0 ==> r == Ok(rows[currentIndex - 1].1.tags)
    {
      if |dbEntries| == 0 {
        return Err(IteratorExhausted);
      }
      return Ok(currentEntry.tags);
    }
  }

  /** Reading an iterator to its end yields every row once, in order, and leaves it exhausted. */
  method ReadAll(it: Iterator) returns (read: seq<(string, Bytes)>)
    requires it.Valid() && it.currentIndex == 0
    modifies it
    ensures it.Valid() && it.dbEntries == [] && it.currentIndex == |it.rows|
    ensures |read| == |it.rows|
    ensures forall i | 0 <= i < |read| :: read[i] == (it.rows[i].0, it.rows[i].1.value)
  {
    read := [];
    while true
      invariant it.Valid() && |read| == it.currentIndex
      invariant forall i | 0 <= i < |read| :: read[i] == (it.rows[i].0, it.rows[i].1.value)
      decreases |it.rows| - it.currentIndex
    {
      var more := it.Next();
      if !more {
        break;
      }
      var key := it.Key();
      var value := it.Value();
      read := read + [(key.value, value.value)];
    }
  }

  // ----- query ---------------------------------------------------------------------------------

  datatype QueryResult = QueryResult(keys: seq<string>, dbEntries: seq<Entry>)

  predicate Distinct(keys: seq<string>) {
    forall i, j | 0 <= i < j < |keys| :: keys[i] != keys[j]
  }

  ghost predicate Answers(db: Contents, c: Criterion, r: QueryResult) {
    && |r.keys| == |r.dbEntries| && Distinct(r.keys)
    && (forall k :: k in r.keys <==> k in db && Matches(db[k].tags, c))
    && (forall i | 0 <= i < |r.keys| :: r.dbEntries[i] == db[r.keys[i]])
  }

  /** Some stored entries, each under its key and once. */
  ghost predicate Stands(db: Contents, r: QueryResult) {
    && |r.keys| == |r.dbEntries| && Distinct(r.keys)
    && forall i | 0 <= i < |r.keys| :: r.keys[i] in db && r.dbEntries[i] == db[r.keys[i]]
  }

  lemma AnswersStand(db: Contents, wanted: map<string, string>, results: map<string, QueryResult>)
    requires ResultsMeet(db, wanted, results)
    ensures forall n | n in results :: Stands(db, results[n])
  {
    forall n, i | n in results && 0 <= i < |results[n].keys|
      ensures results[n].keys[i] in db
    {
      assert results[n].keys[i] in results[n].keys;
    }
  }

  method GetMatchingKeysAndEntries(db: Contents, name: string, value: string) returns (r: QueryResult)
    ensures Answers(db, Criterion(name, value), r)
  {
    var keys, dbEntries := [], [];
    var todo := db.Keys;
    while todo != {}
      invariant todo <= db.Keys
      invariant |keys| == |dbEntries| && Distinct(keys)
      invariant forall k :: k in keys <==> k in db && k !in todo && Matches(db[k].tags, Criterion(name, value))
      invariant forall i | 0 <= i < |keys| :: dbEntries[i] == db[keys[i]]
      decreases todo
    {
      var key :| key in todo;
      todo := todo - {key};
      var tags := db[key].tags;
      var i := 0;
      while i < |tags| && !TagMatches(tags[i], Criterion(name, value))
        invariant 0 <= i <= |tags|
        invariant forall j | 0 <= j < i :: !TagMatches(tags[j], Criterion(name, value))
      {
        i := i + 1;
      }
      if i < |tags| {
        assert tags[i] in tags;
        keys, dbEntries := keys + [key], dbEntries + [db[key]];
      }
    }
    return QueryResult(keys, dbEntries);
  }

  ghost function Hits(results: map<string, QueryResult>, names: set<string>, k: string): set<string> {
    set n | n in names && n in results && k in results[n].keys
  }

  function Count(keyMap: map<string, nat>, k: string): nat {
    if k in keyMap then keyMap[k] else 0
  }

  lemma HitsStep(results: map<string, QueryResult>, done: set<string>, n: string)
    requires n in results && n !in done
    ensures forall k :: |Hits(results, done + {n}, k)| == |Hits(results, done, k)| + if k in results[n].keys then 1 else 0
  {
    forall k
      ensures |Hits(results, done + {n}, k)| == |Hits(results, done, k)| + if k in results[n].keys then 1 else 0
    {
      if k in results[n].keys {
        assert Hits(results, done + {n}, k) == Hits(results, done, k) + {n};
      } else {
        assert Hits(results, done + {n}, k) == Hits(results, done, k);
      }
    }
  }

  lemma CountsAreFull(results: map<string, QueryResult>)
    ensures forall k :: |Hits(results, results.Keys, k)| == |results| <==> forall n | n in results :: k in results[n].keys
  {
    forall k {
      CountIsFull(results, k);
    }
  }

  /** A key is in every one of the results exactly when it was counted once for each of them. */
  lemma CountIsFull(results: map<string, QueryResult>, k: string)
    ensures |Hits(results, results.Keys, k)| == |results| <==> forall n | n in results :: k in results[n].keys
  {
    var hits := Hits(results, results.Keys, k);
    assert hits <= results.Keys;
    assert |results.Keys - hits| == |results| - |hits|;
    if |hits| == |results| {
      assert results.Keys - hits == {};
      assert hits == results.Keys;
    }
    if forall n | n in results :: k in results[n].keys {
      assert hits == results.Keys;
    }
  }

  /** The inner counting loop: one more for each key of one result. */
  method CountKeys(ghost db: Contents, keyMap: map<string, nat>, valueMap: map<string, Entry>, r: QueryResult)
    returns (keyMap': map<string, nat>, valueMap': map<string, Entry>)
    requires Stands(db, r)
    requires forall k | k in keyMap :: k in valueMap && k in db && valueMap[k] == db[k]
    ensures forall k :: Count(keyMap', k) == Count(keyMap, k) + if k in r.keys then 1 else 0
    ensures forall k | k in keyMap' :: k in valueMap' && k in db && valueMap'[k] == db[k]
  {
    keyMap', valueMap' := keyMap, valueMap;
    for i := 0 to |r.keys|
      invariant forall k :: Count(keyMap', k) == Count(keyMap, k) + if k in r.keys[..i] then 1 else 0
      invariant forall k | k in keyMap' :: k in valueMap' && k in db && valueMap'[k] == db[k]
    {
      var k := r.keys[i];
      assert r.keys[..i + 1] == r.keys[..i] + [k];
      assert k !in r.keys[..i];
      keyMap' := keyMap'[k := Count(keyMap', k) + 1];
      valueMap' := valueMap'[k := r.dbEntries[i]];
    }
    assert r.keys[..|r.keys|] == r.keys;
  }

  lemma NothingCounted(results: map<string, QueryResult>)
    ensures forall k :: Count(map[], k) == |Hits(results, {}, k)|
  {
    assert forall k :: Hits(results, {}, k) == {};
  }

  /** Keeps the keys that occur in every result: a key is kept iff it was counted once per result. */
  method CommonEntries(ghost db: Contents, results: map<string, QueryResult>) returns (r: QueryResult)
    requires results != map[]
    requires forall n | n in results :: Stands(db, results[n])
    ensures Stands(db, r)
    ensures forall k :: k in r.keys <==> forall n | n in results :: k in results[n].keys
  {
    hide Count, Hits, Stands;
    var keyMap: map<string, nat>, valueMap: map<string, Entry> := map[], map[];
    NothingCounted(results);
    var todo := results.Keys;
    ghost var done: set<string> := {};
    while todo != {}
      invariant todo + done == results.Keys && todo !! done
      invariant forall k :: Count(keyMap, k) == |Hits(results, done, k)|
      invariant forall k | k in keyMap :: k in valueMap && k in db && valueMap[k] == db[k]
      decreases todo
    {
      var n :| n in todo;
      keyMap, valueMap := CountKeys(db, keyMap, valueMap, results[n]);
      HitsStep(results, done, n);
      todo, done := todo - {n}, done + {n};
    }
    assert done == results.Keys && |results| > 0;
    r := SelectCounted(db, keyMap, valueMap, |results|);
    CountsAreFull(results);
  }

  method SelectCounted(ghost db: Contents, keyMap: map<string, nat>, valueMap: map<string, Entry>, numTags: nat)
    returns (r: QueryResult)
    requires numTags > 0
    requires forall k | k in keyMap :: k in valueMap && k in db && valueMap[k] == db[k]
    ensures Stands(db, r)
    ensures forall k :: k in r.keys <==> Count(keyMap, k) == numTags
  {
    var keys, values := [], [];
    var todo := keyMap.Keys;
    while todo != {}
      invariant todo <= keyMap.Keys
      invariant |keys| == |values| && Distinct(keys)
      invariant forall k :: k in keys <==> k in keyMap && k !in todo && keyMap[k] == numTags
      invariant forall i | 0 <= i < |keys| :: keys[i] in db && values[i] == db[keys[i]]
      decreases todo
    {
      var k :| k in todo;
      todo := todo - {k};
      if keyMap[k] == numTags {
        keys, values := keys + [k], values + [valueMap[k]];
      }
    }
    return QueryResult(keys, values);
  }

  /** Evaluates each criterion; a later criterion replaces the result of an earlier one with its name. */
  method GatherResults(db: Contents, expression: string) returns (r: Result<map<string, QueryResult>>)
    ensures r.Ok? <==> ParseAnd(expression).Some?
    ensures r.Err? ==> r.error == BadExpression
    ensures r.Ok? ==> ResultsMeet(db, LastByName(ParseAnd(expression).value), r.value) && r.value != map[]
  {
    var parts := Split(expression, "&&");
    var results: map<string, QueryResult> := map[];
    ghost var criteria: seq<Criterion> := [];
    for i := 0 to |parts|
      invariant ParseEach(parts[..i]) == Some(criteria)
      invariant ResultsMeet(db, LastByName(criteria), results)
      invariant i > 0 ==> results != map[]
    {
      ParseEachStep(parts, i);
      var split := Split(parts[i], ":");
      if |split| != 1 && |split| != 2 {
        assert parts[i] in parts;
        return Err(BadExpression);
      }
      var c := Criterion(split[0], if |split| == 2 then split[1] else "");
      var matching := GetMatchingKeysAndEntries(db, c.name, c.value);
      LastByNameSnoc(criteria, c);
      AddResult(db, LastByName(criteria), results, c, matching);
      criteria := criteria + [c];
      results := results[c.name := matching];
    }
    assert parts[..|parts|] == parts;
    return Ok(results);
  }

  ghost predicate ResultsMeet(db: Contents, wanted: map<string, string>, results: map<string, QueryResult>) {
    && results.Keys == wanted.Keys
    && forall n | n in results :: Answers(db, Criterion(n, wanted[n]), results[n])
  }

  lemma AddResult(db: Contents, wanted: map<string, string>, results: map<string, QueryResult>,
                  c: Criterion, r: QueryResult)
    requires ResultsMeet(db, wanted, results) && Answers(db, c, r)
    ensures ResultsMeet(db, wanted[c.name := c.value], results[c.name := r])
    ensures results[c.name := r] != map[]
  {
    assert c.name in results[c.name := r];
  }

  lemma CommonRows(db: Contents, wanted: map<string, string>, results: map<string, QueryResult>,
                   common: QueryResult, rows: seq<Row>)
    requires ResultsMeet(db, wanted, results) && results != map[]
    requires Stands(db, common)
    requires forall k :: k in common.keys <==> forall n | n in results :: k in results[n].keys
    requires |rows| == |common.keys|
    requires forall i | 0 <= i < |rows| :: rows[i] == (common.keys[i], common.dbEntries[i])
    ensures RowsMeet(db, wanted, rows)
  {
    hide Matches;
    forall i | 0 <= i < |rows|
      ensures MatchesAll(rows[i].1.tags, wanted)
    {
      assert common.keys[i] in common.keys;
      forall n | n in wanted
        ensures Matches(rows[i].1.tags, Criterion(n, wanted[n]))
      {
        assert common.keys[i] in results[n].keys;
      }
    }
    forall k | k in db && MatchesAll(db[k].tags, wanted)
      ensures exists i :: 0 <= i < |rows| && rows[i].0 == k
    {
      assert k in common.keys;
      var i :| 0 <= i < |common.keys| && common.keys[i] == k;
      assert rows[i].0 == k;
    }
  }

  /** Runs an AND query over a snapshot of a store. */
  method RunQuery(db: Contents, expression: string) returns (r: Result<Iterator>)
    ensures r.Ok? <==> expression != "" && ParseAnd(expression).Some?
    ensures r.Err? ==> r.error == BadExpression
    ensures r.Ok? ==> fresh(r.value) && r.value.Valid() && r.value.currentIndex == 0
    ensures r.Ok? ==> RowsMeet(db, LastByName(ParseAnd(expression).value), r.value.rows)
  {
    if expression == "" {
      return Err(BadExpression);
    }
    var results := GatherResults(db, expression);
    if results.Err? {
      return Err(results.error);
    }
    AnswersStand(db, LastByName(ParseAnd(expression).value), results.value);
    var common := CommonEntries(db, results.value);
    var it := new Iterator(common.keys, common.dbEntries);
    CommonRows(db, LastByName(ParseAnd(expression).value), results.value, common, it.rows);
    return Ok(it);
  }

  // ----- store -----------------------------------------------------------------------------------

  class MemStore {
    var db: Contents

    constructor ()
      ensures db == map[]
    {
      db := map[];
    }

    method Put(key: string, value: Option<Bytes>, tags: seq<Tag>) returns (r: Result<()>)
      modifies this
      ensures PutMeets(old(db), key, value, tags, db, r)
      ensures r.Ok? <==> PutError(key, value, tags).None?
    {
      var e := PutError(key, value, tags);
      if e.Some? {
        return Err(e.value);
      }
      db := db[key := Entry(value.value, tags)];
      return Ok(());
    }

    method Get(key: string) returns (r: Result<Bytes>)
      ensures r == if key == "" then Err(EmptyKey) else if key in db then Ok(db[key].value) else Err(DataNotFound)
    {
      if key == "" {
        return Err(EmptyKey);
      }
      return if key in db then Ok(db[key].value) else Err(DataNotFound);
    }

    method Delete(key: string) returns (r: Result<()>)
      modifies this
      ensures DeleteMeets(old(db), key, db, r)
      ensures r.Ok? <==> key != ""
    {
      if key == "" {
        return Err(EmptyKey);
      }
      db := db - {key};
      return Ok(());
    }

    /** All keys are checked before the first operation runs, so a rejected batch changes nothing. */
    method Batch(ops: seq<Operation>) returns (r: Result<()>)
      modifies this
      ensures BatchMeets(old(db), ops, db, r)
      ensures r.Ok? <==> ops != [] && KeysPresent(ops)
      ensures r.Err? ==> db == old(db)
    {
      PrefixNone(db, ops);
      if |ops| == 0 {
        return Err(EmptyBatch);
      }
      for i := 0 to |ops|
        invariant forall op | op in ops[..i] :: op.key != ""
        invariant db == old(db)
      {
        if ops[i].key == "" {
          assert ops[i] in ops;
          return Err(EmptyKey);
        }
      }
      assert ops[..|ops|] == ops;
      for i := 0 to |ops|
        invariant db == ApplyAll(old(db), ops[..i])
      {
        ApplyAllStep(old(db), ops, i);
        if ops[i].value.None? {
          db := db - {ops[i].key};
        } else {
          db := db[ops[i].key := Entry(ops[i].value.value, ops[i].tags)];
        }
      }
      return Ok(());
    }

    method Query(expression: string) returns (r: Result<Iterator>)
      ensures r.Ok? <==> expression != "" && ParseAnd(expression).Some?
      ensures r.Ok? ==> fresh(r.value) && r.value.Valid() && r.value.currentIndex == 0
      ensures r.Ok? ==> RowsMeet(db, LastByName(ParseAnd(expression).value), r.value.rows)
    {
      r := RunQuery(db, expression);
    }
  }
}
