/** Wallet contents and the mapping of contents to collections, side by side in one store. */
module Contents {
  import opened Spi
  import opened TagQuery
  import Mem
  import AnyStore

  datatype ContentType = Collection | Credential | DIDResolutionResponse | Metadata | Connection | Key {
    function Name(): string {
      match this
      case Collection => "collection"
      case Credential => "credential"
      case DIDResolutionResponse => "didResolutionResponse"
      case Metadata => "metadata"
      case Connection => "connection"
      case Key => "key"
    }
  }

  const COLLECTION_MAPPING := "collectionmapping"

  // ----- keys ---------------------------------------------------------------------------------------------

  function ContentKey(ct: ContentType, key: string): string {
    ct.Name() + ("_" + key)
  }

  function MappingKey(ct: ContentType, key: string): string {
    COLLECTION_MAPPING + ("_" + (ct.Name() + ("_" + key)))
  }

  /** strings.Replace(s, old, "", 1): drops the first occurrence, wherever it is. */
  function DropFirst(s: string, sub: string): string
    requires sub != ""
  {
    var at := IndexOf(s, sub);
    if at.None? then s else s[..at.value] + s[at.value + |sub|..]
  }

  function RemoveKeyPrefix(ct: ContentType, key: string): string {
    DropFirst(key, ct.Name() + "_")
  }

  function RemoveMappingKeyPrefix(ct: ContentType, key: string): string {
    DropFirst(key, COLLECTION_MAPPING + ("_" + (ct.Name() + "_")))
  }

  lemma DropPrefix(prefix: string, rest: string)
    requires prefix != ""
    ensures DropFirst(prefix + rest, prefix) == rest
  {
    assert OccursAt(prefix + rest, prefix, 0);
    assert IndexOf(prefix + rest, prefix) == Some(0);
  }

  lemma RemoversExact(ct: ContentType, key: string)
    ensures RemoveKeyPrefix(ct, ContentKey(ct, key)) == key
    ensures RemoveMappingKeyPrefix(ct, MappingKey(ct, key)) == key
  {
    var p1, p2 := ct.Name() + "_", COLLECTION_MAPPING + ("_" + (ct.Name() + "_"));
    assert ContentKey(ct, key) == p1 + key;
    assert MappingKey(ct, key) == p2 + key;
    DropPrefix(p1, key);
    DropPrefix(p2, key);
  }

  /** Text before the first underscore and text after it are determined by the whole. */
  lemma FirstUnderscore(a: string, b: string, x: string, y: string)
    requires '_' !in a && '_' !in b && a + ("_" + x) == b + ("_" + y)
    ensures a == b && x == y
  {
    var l, r := a + ("_" + x), b + ("_" + y);
    assert l[|a|] == '_' && r[|b|] == '_';
    assert forall i | 0 <= i < |a| :: l[i] == a[i] && l[i] != '_';
    assert forall i | 0 <= i < |b| :: r[i] == b[i] && r[i] != '_';
    assert |a| == |b|;
    assert l[..|a|] == a && r[..|b|] == b;
    assert l[|a| + 1..] == x && r[|b| + 1..] == y;
  }

  lemma NamesPlain(ct: ContentType)
    ensures '_' !in ct.Name() && ':' !in ct.Name() && '&' !in ct.Name() && ct.Name() != COLLECTION_MAPPING
    ensures '_' !in COLLECTION_MAPPING && ct.Name() != ""
  {
    NameLettered(ct);
    assert COLLECTION_MAPPING[1] == 'o' && |COLLECTION_MAPPING| == 17 && Lettered(COLLECTION_MAPPING);
    hide ContentType.Name;
    var name := ct.Name();
    assert forall c | c in name :: exists i :: 0 <= i < |name| && name[i] == c;
  }

  lemma NameLettered(ct: ContentType)
    ensures Lettered(ct.Name()) && ct.Name() != "" && |ct.Name()| != 17
  {
  }

  predicate Lettered(s: string) {
    forall i | 0 <= i < |s| :: 'A' <= s[i] <= 'Z' || 'a' <= s[i] <= 'z'
  }

  lemma NamesDistinct(a: ContentType, b: ContentType)
    requires a.Name() == b.Name()
    ensures a == b
  {
    assert a.Name()[1] == b.Name()[1] && |a.Name()| == |b.Name()|;
    if |a.Name()| == 10 {
      assert a.Name()[3] == b.Name()[3];
    }
  }

  /** No two items share a key, neither within a kind nor across the two kinds. */
  lemma KeysApart(ct1: ContentType, key1: string, ct2: ContentType, key2: string)
    ensures ContentKey(ct1, key1) == ContentKey(ct2, key2) ==> ct1 == ct2 && key1 == key2
    ensures MappingKey(ct1, key1) == MappingKey(ct2, key2) ==> ct1 == ct2 && key1 == key2
    ensures ContentKey(ct1, key1) != MappingKey(ct2, key2)
  {
    NamesPlain(ct1);
    NamesPlain(ct2);
    hide ContentType.Name;
    if ContentKey(ct1, key1) == ContentKey(ct2, key2) {
      FirstUnderscore(ct1.Name(), ct2.Name(), key1, key2);
      NamesDistinct(ct1, ct2);
    }
    if MappingKey(ct1, key1) == MappingKey(ct2, key2) {
      FirstUnderscore(COLLECTION_MAPPING, COLLECTION_MAPPING, ct1.Name() + ("_" + key1), ct2.Name() + ("_" + key2));
      FirstUnderscore(ct1.Name(), ct2.Name(), key1, key2);
      NamesDistinct(ct1, ct2);
    }
    DifferentHead(ct1, key1, ct2, key2);
  }

  lemma DifferentHead(ct1: ContentType, key1: string, ct2: ContentType, key2: string)
    ensures ContentKey(ct1, key1) != MappingKey(ct2, key2)
  {
    NamesPlain(ct1);
    hide ContentType.Name;
    if ContentKey(ct1, key1) == MappingKey(ct2, key2) {
      FirstUnderscore(ct1.Name(), COLLECTION_MAPPING, key1, ct2.Name() + ("_" + key2));
    }
  }

  // ----- the store ------------------------------------------------------------------------------------------

  /** The coding of collection identifiers as tag names. */
  datatype Base64 = Base64(encode: string -> string, decode: string -> string) {
    ghost predicate Valid() {
      && (forall s :: decode(encode(s)) == s && ':' !in encode(s) && '&' !in encode(s))
      && encode("") == ""
      && (forall s, ct: ContentType :: encode(s) != ct.Name())
    }
  }

  /** `StoreFailed` says that the store below failed, and nothing about the call. */
  datatype Failure = Locked | CollectionNotFound | AlreadyExists | NotFound | Rejected | StoreFailed

  datatype Outcome<+T> = Done(value: T) | Failed(failure: Failure)

  type Item = (ContentType, string)

  /** The stored entries are exactly those of the contents and those of the mapping. */
  ghost predicate Stores(b64: Base64, db: Spi.Contents, items: map<Item, Bytes>, mapping: map<Item, string>) {
    && (forall ct, key :: ContentKey(ct, key) in db <==> (ct, key) in items)
    && (forall ct, key :: MappingKey(ct, key) in db <==> (ct, key) in mapping)
    && (forall ct, key | (ct, key) in items ::
          db[ContentKey(ct, key)] == Entry(items[(ct, key)], [Tag(ct.Name(), "")]))
    && (forall ct, key | (ct, key) in mapping ::
          mapping[(ct, key)] != "" && db[MappingKey(ct, key)] == MappingEntry(b64, ct, mapping[(ct, key)]))
    && (forall k | k in db :: IsContentKey(k) || IsMappingKey(k))
  }

  function MappingEntry(b64: Base64, ct: ContentType, collection: string): Entry {
    Entry(TextBytes(ct.Name()), [Tag(b64.encode(collection), "")])
  }

  ghost predicate IsContentKey(k: string) {
    exists ct, key :: k == ContentKey(ct, key)
  }

  ghost predicate IsMappingKey(k: string) {
    exists ct, key :: k == MappingKey(ct, key)
  }

  lemma KeysApartFrom(ct: ContentType, key: string)
    ensures forall ct', key' :: ContentKey(ct', key') == ContentKey(ct, key) ==> (ct', key') == (ct, key)
    ensures forall ct', key' :: MappingKey(ct', key') == MappingKey(ct, key) ==> (ct', key') == (ct, key)
    ensures forall ct', key' :: ContentKey(ct', key') != MappingKey(ct, key)
    ensures forall ct', key' :: MappingKey(ct', key') != ContentKey(ct, key)
  {
    hide ContentKey, MappingKey;
    forall ct', key'
      ensures ContentKey(ct', key') == ContentKey(ct, key) ==> (ct', key') == (ct, key)
      ensures ContentKey(ct', key') != MappingKey(ct, key)
    {
      KeysApart(ct', key', ct, key);
    }
    forall ct', key'
      ensures MappingKey(ct', key') == MappingKey(ct, key) ==> (ct', key') == (ct, key)
      ensures MappingKey(ct', key') != ContentKey(ct, key)
    {
      KeysApart(ct', key', ct, key);
      KeysApart(ct, key, ct', key');
    }
  }

  lemma PutItem(b64: Base64, db: Spi.Contents, items: map<Item, Bytes>, mapping: map<Item, string>,
                ct: ContentType, key: string, content: Bytes)
    requires Stores(b64, db, items, mapping)
    ensures Stores(b64, db[ContentKey(ct, key) := Entry(content, [Tag(ct.Name(), "")])],
                   items[(ct, key) := content], mapping)
  {
    KeysApartFrom(ct, key);
    assert IsContentKey(ContentKey(ct, key));
    hide ContentType.Name, ContentKey, MappingKey, IsContentKey, IsMappingKey;
  }

  lemma PutMapping(b64: Base64, db: Spi.Contents, items: map<Item, Bytes>, mapping: map<Item, string>,
                   ct: ContentType, key: string, collection: string)
    requires Stores(b64, db, items, mapping) && collection != ""
    ensures Stores(b64, db[MappingKey(ct, key) := MappingEntry(b64, ct, collection)],
                   items, mapping[(ct, key) := collection])
  {
    KeysApartFrom(ct, key);
    assert IsMappingKey(MappingKey(ct, key));
    hide ContentType.Name, ContentKey, MappingKey, IsContentKey, IsMappingKey;
  }

  lemma RemoveOne(b64: Base64, db: Spi.Contents, items: map<Item, Bytes>, mapping: map<Item, string>,
                  ct: ContentType, key: string)
    requires Stores(b64, db, items, mapping)
    ensures Stores(b64, db - {MappingKey(ct, key)}, items, mapping - {(ct, key)})
    ensures Stores(b64, db - {ContentKey(ct, key)}, items - {(ct, key)}, mapping)
  {
    KeysApartFrom(ct, key);
    hide ContentType.Name, ContentKey, MappingKey, IsContentKey, IsMappingKey;
  }

  lemma NameBytesDistinct(a: ContentType, b: ContentType)
    requires TextBytes(a.Name()) == TextBytes(b.Name())
    ensures a == b
  {
    var x, y := TextBytes(a.Name()), TextBytes(b.Name());
    assert x[1] == y[1] && |a.Name()| == |b.Name()|;
    if |a.Name()| == 10 {
      assert x[3] == y[3];
    }
  }

  lemma NameMatches(tags: seq<Tag>, name: string, only: Tag)
    requires tags == [only]
    ensures MatchesAll(tags, map[name := ""]) <==> only.name == name
  {
    assert only in tags;
    var wanted: map<string, string> := map[name := ""];
    assert name in wanted && wanted[name] == "";
    assert forall t | t in tags :: t == only;
    assert MatchesAll(tags, wanted) <==> Matches(tags, Criterion(name, ""));
  }

  /** A query for a content type finds the contents of that type and nothing else. */
  lemma TypeQueryFinds(b64: Base64, db: Spi.Contents, items: map<Item, Bytes>, mapping: map<Item, string>,
                       ct: ContentType, k: string)
    requires b64.Valid() && Stores(b64, db, items, mapping) && k in db
    ensures MatchesAll(db[k].tags, map[ct.Name() := ""]) <==> exists key :: (ct, key) in items && k == ContentKey(ct, key)
  {
    if IsContentKey(k) {
      var ct', key' :| k == ContentKey(ct', key');
      assert (ct', key') in items;
      NameMatches(db[k].tags, ct.Name(), Tag(ct'.Name(), ""));
      if ct.Name() == ct'.Name() {
        NamesDistinct(ct, ct');
      }
      KeysApartFrom(ct', key');
    } else {
      var ct', key' :| k == MappingKey(ct', key');
      assert (ct', key') in mapping;
      NameMatches(db[k].tags, ct.Name(), Tag(b64.encode(mapping[(ct', key')]), ""));
      KeysApartFrom(ct', key');
    }
  }

  /** A query for a collection finds the mappings that name it and nothing else. */
  lemma CollectionQueryFinds(b64: Base64, db: Spi.Contents, items: map<Item, Bytes>, mapping: map<Item, string>,
                             collection: string, k: string)
    requires b64.Valid() && Stores(b64, db, items, mapping) && k in db
    ensures MatchesAll(db[k].tags, map[b64.encode(collection) := ""]) <==>
            exists ct, key :: (ct, key) in mapping && mapping[(ct, key)] == collection && k == MappingKey(ct, key)
  {
    if IsContentKey(k) {
      var ct', key' :| k == ContentKey(ct', key');
      assert (ct', key') in items;
      NameMatches(db[k].tags, b64.encode(collection), Tag(ct'.Name(), ""));
      KeysApartFrom(ct', key');
    } else {
      var ct', key' :| k == MappingKey(ct', key');
      assert (ct', key') in mapping;
      var named := mapping[(ct', key')];
      NameMatches(db[k].tags, b64.encode(collection), Tag(b64.encode(named), ""));
      assert b64.decode(b64.encode(named)) == named && b64.decode(b64.encode(collection)) == collection;
      KeysApartFrom(ct', key');
    }
  }

  class ContentStore {
    const store: AnyStore.Store
    const b64: Base64
    /** The saved contents, and the latest collection of each. */
    ghost var items: map<Item, Bytes>
    ghost var mapping: map<Item, string>

    ghost predicate Valid()
      reads `items, `mapping, store`db
    {
      b64.Valid() && Stores(b64, store.db, items, mapping)
    }

    /** A failure is blamed on the store only when something did fail there. */
    ghost predicate Blamed<T>(before: nat, r: Outcome<T>)
      reads store`faults
    {
      before <= store.faults && (r == Failed(StoreFailed) ==> before < store.faults)
    }

    /** Every mapping points to an existing content. */
    ghost predicate Intact()
      reads this
    {
      mapping.Keys <= items.Keys
    }

    constructor (store: AnyStore.Store, b64: Base64)
      requires b64.Valid() && store.db == map[]
      ensures Valid() && items == map[] && mapping == map[] && this.store == store
    {
      this.store, this.b64, items, mapping := store, b64, map[], map[];
    }

    /** The collection has to exist. */
    method MapCollection(open: bool, key: string, collectionID: string, ct: ContentType) returns (r: Outcome<()>)
      requires Valid()
      modifies this`mapping, store`db, store`faults
      ensures Valid() && Blamed(old(store.faults), r)
      ensures r == Failed(StoreFailed) || r == if collectionID == "" then Done(()) else if !open then Failed(Locked)
                else if (Collection, collectionID) in items then Done(()) else Failed(CollectionNotFound)
      ensures r == Failed(StoreFailed) ==> collectionID != "" && open
      ensures mapping == old(mapping)
              || (collectionID != "" && open && (Collection, collectionID) in items
                  && mapping == old(mapping)[(ct, key) := collectionID])
      ensures r.Done? && collectionID != "" ==> mapping == old(mapping)[(ct, key) := collectionID]
    {
      hide ContentType.Name, ContentKey, MappingKey, IsContentKey, IsMappingKey;
      if collectionID == "" {
        return Done(());
      }
      if !open {
        return Failed(Locked);
      }
      KeysNonempty(Collection, collectionID);
      var found := store.Get(ContentKey(Collection, collectionID));
      if found.Err? {
        return Failed(if found.error == DataNotFound then CollectionNotFound else StoreFailed);
      }
      PutMapping(b64, store.db, items, mapping, ct, key, collectionID);
      KeysNonempty(ct, key);
      var tags := [Tag(b64.encode(collectionID), "")];
      assert ColonFreeTags(tags);
      ghost var before := store.db;
      var put := store.Put(MappingKey(ct, key), Some(TextBytes(ct.Name())), tags);
      mapping := if put.Ok? || store.db != before then mapping[(ct, key) := collectionID] else mapping;
      return if put.Ok? then Done(()) else Failed(StoreFailed);
    }

    lemma KeysNonempty(ct: ContentType, key: string)
      ensures ContentKey(ct, key) != "" && MappingKey(ct, key) != ""
      ensures ColonFreeTags([Tag(ct.Name(), "")])
    {
      NamesPlain(ct);
    }

    method SafeSave(open: bool, ct: ContentType, key: string, content: Bytes) returns (r: Outcome<()>)
      requires Valid()
      modifies this`items, store`db, store`faults
      ensures Valid() && Blamed(old(store.faults), r)
      ensures r == Failed(StoreFailed) || r == if !open then Failed(Locked)
                else if (ct, key) in old(items) then Failed(AlreadyExists) else Done(())
      ensures r == Failed(StoreFailed) ==> open
      ensures items == old(items) || (open && (ct, key) !in old(items) && items == old(items)[(ct, key) := content])
      ensures r.Done? ==> items == old(items)[(ct, key) := content]
    {
      hide ContentType.Name, ContentKey, MappingKey, IsContentKey, IsMappingKey;
      if !open {
        return Failed(Locked);
      }
      KeysNonempty(ct, key);
      var found := store.Get(ContentKey(ct, key));
      if found.Ok? {
        return Failed(AlreadyExists);
      }
      if found.error != DataNotFound {
        return Failed(StoreFailed);
      }
      PutItem(b64, store.db, items, mapping, ct, key, content);
      ghost var before := store.db;
      var put := store.Put(ContentKey(ct, key), Some(content), [Tag(ct.Name(), "")]);
      items := if put.Ok? || store.db != before then items[(ct, key) := content] else items;
      return if put.Ok? then Done(()) else Failed(StoreFailed);
    }

    /** Saving maps first and stores second, and asks for the wallet to be open each time.  A rejected duplicate has
        still been mapped anew.  Unless the store fails, the mapping can be left without its content in just one way: the
        wallet was closed, or the session ran out, between the two steps of the first save of a content. */
    method Save(firstOpen: bool, secondOpen: bool, imported: bool, ct: ContentType, key: string, content: Bytes,
                collectionID: string)
      returns (r: Outcome<()>)
      requires Valid()
      modifies this, store`db, store`faults
      ensures Valid() && Blamed(old(store.faults), r)
      ensures ct == Key ==> r == if imported then Done(()) else Failed(Rejected)
      ensures ct == Key ==> items == old(items) && mapping == old(mapping)
      ensures var mapped := ct != Key && collectionID != "" && firstOpen && (Collection, collectionID) in old(items);
              var after := if mapped then old(mapping)[(ct, key) := collectionID] else old(mapping);
              && mapping in {old(mapping), after}
              && items in {old(items), old(items)[(ct, key) := content]}
              // What was saved is kept, and a content is stored only behind its mapping.
              && ((ct, key) in old(items) ==> items == old(items))
              && (items != old(items) ==> mapping == after)
              && (r != Failed(StoreFailed) ==>
                    && mapping == after
                    && (ct != Key ==>
                          && (r.Done? <==> (collectionID == "" || mapped) && secondOpen && (ct, key) !in old(items))
                          && items == if r.Done? then old(items)[(ct, key) := content] else old(items))
                    && (old(Intact()) ==> (Intact() <==> !(mapped && !secondOpen && (ct, key) !in old(items)))))
    {
      hide Stores;
      if ct == Key {
        // Keys go to the key manager, which may refuse them, and never into the store.
        return if imported then Done(()) else Failed(Rejected);
      }
      r := MapCollection(firstOpen, key, collectionID, ct);
      if r.Failed? {
        return;
      }
      r := SafeSave(secondOpen, ct, key, content);
      assert (ct, key) in mapping || (ct, key) !in mapping;
    }

    /** The mapping goes first, so that nothing is ever left pointing at a removed content, wherever the store fails. */
    method Remove(open: bool, key: string, ct: ContentType) returns (r: Outcome<()>)
      requires Valid()
      modifies this, store`db, store`faults
      ensures Valid() && Blamed(old(store.faults), r) && (old(Intact()) ==> Intact())
      ensures r == Failed(StoreFailed) || r == if open then Done(()) else Failed(Locked)
      ensures !open ==> r == Failed(Locked) && items == old(items) && mapping == old(mapping)
      ensures r.Done? ==> items == old(items) - {(ct, key)} && mapping == old(mapping) - {(ct, key)}
      ensures items in {old(items), old(items) - {(ct, key)}} && mapping in {old(mapping), old(mapping) - {(ct, key)}}
    {
      hide ContentType.Name, ContentKey, MappingKey, Stores;
      if !open {
        return Failed(Locked);
      }
      KeysNonempty(ct, key);
      RemoveOne(b64, store.db, items, mapping, ct, key);
      ghost var before := store.db;
      var first := store.Delete(MappingKey(ct, key));
      mapping := if first.Ok? || store.db != before then mapping - {(ct, key)} else mapping;
      if first.Err? {
        return Failed(StoreFailed);
      }
      RemoveOne(b64, store.db, items, mapping, ct, key);
      before := store.db;
      var second := store.Delete(ContentKey(ct, key));
      items := if second.Ok? || store.db != before then items - {(ct, key)} else items;
      return if second.Ok? then Done(()) else Failed(StoreFailed);
    }

    method Fetch(key: string, ct: ContentType) returns (r: Outcome<Bytes>)
      requires Valid()
      modifies store`faults
      ensures store.faults >= old(store.faults) && (r == Failed(StoreFailed) ==> store.faults > old(store.faults))
      ensures r.Failed? ==> r.failure in {NotFound, StoreFailed}
      ensures r.Done? ==> (ct, key) in items && r.value == items[(ct, key)]
      ensures r == Failed(NotFound) ==> (ct, key) !in items
    {
      hide ContentType.Name, ContentKey, Stores;
      StoredItem(ct, key);
      var val := store.Get(ContentKey(ct, key));
      if val.Err? {
        return Failed(if val.error == DataNotFound then NotFound else StoreFailed);
      }
      return Done(val.value);
    }

    /** Reads one content by its key. */
    method Get(open: bool, key: string, ct: ContentType) returns (r: Outcome<Bytes>)
      requires Valid()
      modifies store`faults
      ensures Blamed(old(store.faults), r)
      ensures r == Failed(StoreFailed) || r == if !open then Failed(Locked)
                else if (ct, key) in items then Done(items[(ct, key)]) else Failed(NotFound)
      ensures r == Failed(StoreFailed) ==> open
    {
      hide Stores;
      if !open {
        return Failed(Locked);
      }
      r := Fetch(key, ct);
    }

    /** Looks up a tag name and reads the iterator to its end. */
    method FindAll(name: string) returns (r: Outcome<seq<(string, Bytes)>>, ghost found: seq<Mem.Row>)
      requires name != "" && ':' !in name && '&' !in name
      modifies store`faults
      ensures store.faults >= old(store.faults)
      ensures r.Failed? ==> r.failure == StoreFailed && store.faults > old(store.faults)
      ensures r.Done? ==> |r.value| == |found| && Mem.RowsMeet(store.db, map[name := ""], found)
      ensures r.Done? ==> forall i | 0 <= i < |found| :: r.value[i] == (found[i].0, found[i].1.value)
      ensures r.Done? ==>
                forall i | 0 <= i < |found| :: r.value[i].0 in store.db && r.value[i].1 == store.db[r.value[i].0].value
    {
      ParseNameOnly(name);
      var query := store.Query(name);
      if query.Err? {
        return Failed(StoreFailed), [];
      }
      found := query.value.rows;
      var rows := Mem.ReadAll(query.value);
      return Done(rows), found;
    }

    /** The contents of a type, under their own keys. */
    method GetAll(open: bool, ct: ContentType) returns (r: Outcome<map<string, Bytes>>)
      requires Valid()
      modifies store`faults
      ensures store.faults >= old(store.faults) && (r == Failed(StoreFailed) ==> store.faults > old(store.faults))
      ensures r.Failed? ==> r.failure == if open then StoreFailed else Locked
      ensures r.Done? ==> open && forall key :: key in r.value <==> (ct, key) in items
      ensures r.Done? ==> forall key | key in r.value :: r.value[key] == items[(ct, key)]
    {
      hide *;
      if !open {
        return Failed(Locked);
      }
      NamesPlain(ct);
      var query, found := FindAll(ct.Name());
      if query.Failed? {
        return Failed(query.failure);
      }
      var rows := query.value;
      ghost var keys := TypeRows(ct, found);
      var result: map<string, Bytes> := map[];
      for n := 0 to |rows|
        invariant forall key :: key in result <==> key in keys[..n]
        invariant forall key | key in result :: result[key] == items[(ct, key)]
        invariant store.faults >= old(store.faults)
      {
        RemoversExact(ct, keys[n]);
        assert keys[..n + 1] == keys[..n] + [keys[n]];
        result := result[RemoveKeyPrefix(ct, rows[n].0) := rows[n].1];
      }
      assert keys[..|keys|] == keys;
      return Done(result);
    }

    /** The rows of a type query are the contents of the type, in some order. */
    lemma TypeRows(ct: ContentType, rows: seq<Mem.Row>) returns (keys: seq<string>)
      requires Valid() && Mem.RowsMeet(store.db, map[ct.Name() := ""], rows)
      ensures |keys| == |rows| && forall key :: key in keys <==> (ct, key) in items
      ensures forall i | 0 <= i < |rows| :: (ct, keys[i]) in items
      ensures forall i | 0 <= i < |rows| :: rows[i].0 == ContentKey(ct, keys[i])
      ensures forall i | 0 <= i < |rows| :: rows[i].1.value == items[(ct, keys[i])]
    {
      hide ContentType.Name, ContentKey, MappingKey;
      keys := [];
      for n := 0 to |rows|
        invariant |keys| == n
        invariant forall i | 0 <= i < n :: (ct, keys[i]) in items && rows[i].0 == ContentKey(ct, keys[i])
      {
        TypeQueryFinds(b64, store.db, items, mapping, ct, rows[n].0);
        var key :| (ct, key) in items && rows[n].0 == ContentKey(ct, key);
        keys := keys + [key];
      }
      forall key | (ct, key) in items
        ensures key in keys
      {
        TypeQueryFinds(b64, store.db, items, mapping, ct, ContentKey(ct, key));
        var i :| 0 <= i < |rows| && rows[i].0 == ContentKey(ct, key);
        KeysApart(ct, key, ct, keys[i]);
        assert keys[i] == key;
      }
    }

    // ----- by collection -----------------------------------------------------------------------------------------

    /** The mapping names the collection for this content. */
    ghost predicate Mapped(ct: ContentType, key: string, collection: string)
      reads this
    {
      (ct, key) in mapping && mapping[(ct, key)] == collection
    }

    lemma CollectionRows(collection: string, rows: seq<Mem.Row>) returns (ids: seq<Item>)
      requires Valid() && Mem.RowsMeet(store.db, map[b64.encode(collection) := ""], rows)
      ensures |ids| == |rows|
      ensures forall ct, key :: (ct, key) in ids <==> Mapped(ct, key, collection)
      ensures forall i | 0 <= i < |rows| :: rows[i].0 == MappingKey(ids[i].0, ids[i].1)
      ensures forall i | 0 <= i < |rows| :: rows[i].1.value == TextBytes(ids[i].0.Name())
    {
      hide ContentType.Name, ContentKey, MappingKey, Base64.Valid, TextBytes, MatchesAll;
      ids := [];
      for n := 0 to |rows|
        invariant |ids| == n
        invariant forall i | 0 <= i < n ::
                    Mapped(ids[i].0, ids[i].1, collection) && rows[i].0 == MappingKey(ids[i].0, ids[i].1)
      {
        CollectionQueryFinds(b64, store.db, items, mapping, collection, rows[n].0);
        var ct, key :| (ct, key) in mapping && mapping[(ct, key)] == collection && rows[n].0 == MappingKey(ct, key);
        ids := ids + [(ct, key)];
      }
      forall ct, key | Mapped(ct, key, collection)
        ensures (ct, key) in ids
      {
        CollectionQueryFinds(b64, store.db, items, mapping, collection, MappingKey(ct, key));
        var i :| 0 <= i < |rows| && rows[i].0 == MappingKey(ct, key);
        KeysApart(ct, key, ids[i].0, ids[i].1);
        assert ids[i] == (ct, key);
      }
    }

    /** The contents of a type whose latest mapping names the collection.  Unless the store fails, it fails only on a
        mapping without a content, so never while all mappings are intact. */
    method GetAllByCollection(open: bool, collectionID: string, ct: ContentType) returns (r: Outcome<map<string, Bytes>>)
      requires Valid()
      modifies store`faults
      ensures store.faults >= old(store.faults) && (r == Failed(StoreFailed) ==> store.faults > old(store.faults))
      ensures !open ==> r == Failed(Locked)
      ensures open && collectionID == "" ==> r == Failed(Rejected)
      ensures open && collectionID != "" && r != Failed(StoreFailed) ==>
                (r.Done? <==> forall key | Mapped(ct, key, collectionID) :: (ct, key) in items)
      ensures open && collectionID != "" && r.Failed? ==> r.failure in {NotFound, StoreFailed}
      ensures open && collectionID != "" && Intact() && r != Failed(StoreFailed) ==> r.Done?
      ensures r.Done? ==> forall key :: key in r.value <==> Mapped(ct, key, collectionID)
      ensures r.Done? ==> forall key | key in r.value :: (ct, key) in items && r.value[key] == items[(ct, key)]
    {
      hide *;
      if !open {
        return Failed(Locked);
      }
      EncodingBlank(collectionID);
      if b64.encode(collectionID) == "" {
        return Failed(Rejected);
      }
      var query, found := FindAll(b64.encode(collectionID));
      if query.Failed? {
        return Failed(query.failure);
      }
      var rows := query.value;
      ghost var ids := CollectionRows(collectionID, found);
      var result: map<string, Bytes> := map[];
      for n := 0 to |rows|
        invariant forall key :: key in result <==> (ct, key) in ids[..n]
        invariant forall key | key in result :: (ct, key) in items && result[key] == items[(ct, key)]
        invariant store.faults >= old(store.faults)
      {
        assert ids[..n + 1] == ids[..n] + [ids[n]];
        if rows[n].1 == TextBytes(ct.Name()) {
          NameBytesDistinct(ct, ids[n].0);
          ghost var key := ids[n].1;
          assert ids[n] == (ct, key) && ids[n] in ids;
          RemoversExact(ct, key);
          var contentKey := RemoveMappingKeyPrefix(ct, rows[n].0);
          var contentVal := Fetch(contentKey, ct);
          if contentVal.Failed? {
            assert Mapped(ct, key, collectionID);
            IntactMapped(ct, key, collectionID);
            return Failed(contentVal.failure);
          }
          result := result[contentKey := contentVal.value];
        }
      }
      assert ids[..|ids|] == ids;
      return Done(result);
    }

    lemma IntactMapped(ct: ContentType, key: string, collection: string)
      requires Mapped(ct, key, collection)
      ensures Intact() ==> (ct, key) in items
    {
    }

    lemma EncodingBlank(s: string)
      requires Valid()
      ensures b64.encode(s) == "" <==> s == ""
      ensures ':' !in b64.encode(s) && '&' !in b64.encode(s)
    {
      assert b64.decode(b64.encode(s)) == s && b64.decode(b64.encode("")) == "";
    }

    lemma StoredItem(ct: ContentType, key: string)
      requires Valid()
      ensures ContentKey(ct, key) != "" && (ContentKey(ct, key) in store.db <==> (ct, key) in items)
      ensures (ct, key) in items ==> store.db[ContentKey(ct, key)].value == items[(ct, key)]
    {
      KeysNonempty(ct, key);
    }
  }

  /** The wallet is locked between the two steps of saving a credential into a collection: with a store that never fails,
      the mapping is left without its content, and reading the collection fails from then on. */
  method SaveInterrupted(b64: Base64, collectionID: string, key: string, collection: Bytes, credential: Bytes)
    returns (cs: ContentStore, r: Outcome<map<string, Bytes>>)
    requires b64.Valid() && collectionID != ""
    ensures cs.Valid()
    ensures cs.store.faults == 0 ==>
              && !cs.Intact() && r == Failed(NotFound)
              && cs.Mapped(Credential, key, collectionID) && (Credential, key) !in cs.items
  {
    hide Stores, Base64.Valid;
    var store := new AnyStore.Store(map[]);
    cs := new ContentStore(store, b64);
    var first := cs.Save(true, true, true, Collection, collectionID, collection, "");
    var second := cs.Save(true, false, true, Credential, key, credential, collectionID);
    r := cs.GetAllByCollection(true, collectionID, Credential);
  }
}
