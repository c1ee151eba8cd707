/** The store kept in an encrypted data vault under random document identifiers.

    A key is found again by a vault query for its key tag, whose name is blank.  A batch runs either operation by
    operation over the standard endpoints, or as one list of vault operations that is made up beforehand. */
module EdvStore {
  import opened Spi
  import opened TagQuery
  import opened Rehome
  import opened EdvFormatter

  type Documents = map<string, Document>

  datatype VaultOperation = Upsert(doc: Document) | Remove(id: string)

  function ApplyVault(docs: Documents, op: VaultOperation): Documents {
    match op
    case Upsert(doc) => docs[doc.id := doc]
    case Remove(id) => docs - {id}
  }

  function ApplyVaultAll(docs: Documents, ops: seq<VaultOperation>): Documents {
    if ops == [] then docs
    else ApplyVault(ApplyVaultAll(docs, ops[..|ops| - 1]), ops[|ops| - 1])
  }

  /** The server.  Any request may fail, with or without having been carried out, and a batch part-way. */
  class Vault {
    var docs: Documents
    /** How often something outside has failed so far. */
    ghost var faults: nat

    constructor ()
      ensures docs == map[]
    {
      docs, faults := map[], 0;
    }

    method Create(doc: Document) returns (r: Result<()>)
      modifies this
      ensures Blames(old(faults), r, faults)
      ensures doc.id in old(docs) ==> r.Err? && docs == old(docs)
      ensures r == Err(Conflict) ==> doc.id in old(docs)
      ensures r.Ok? ==> docs == old(docs)[doc.id := doc]
      ensures r.Err? ==> r.error in {Conflict, Unavailable} && (docs == old(docs) || docs == old(docs)[doc.id := doc])
    {
      if * {
        faults := faults + 1;
        return Err(Unavailable);
      }
      if doc.id in docs {
        return Err(Conflict);
      }
      docs := docs[doc.id := doc];
      if * {
        faults := faults + 1;
        return Err(Unavailable);
      }
      return Ok(());
    }

    method Update(id: string, doc: Document) returns (r: Result<()>)
      modifies this
      ensures Blames(old(faults), r, faults)
      ensures id !in old(docs) ==> r.Err? && docs == old(docs)
      ensures r == Err(Conflict) ==> id !in old(docs)
      ensures r.Ok? ==> docs == old(docs)[id := doc]
      ensures r.Err? ==> r.error in {Conflict, Unavailable} && (docs == old(docs) || docs == old(docs)[id := doc])
    {
      if * {
        faults := faults + 1;
        return Err(Unavailable);
      }
      if id !in docs {
        return Err(Conflict);
      }
      docs := docs[id := doc];
      if * {
        faults := faults + 1;
        return Err(Unavailable);
      }
      return Ok(());
    }

    method Read(id: string) returns (r: Result<Document>)
      modifies `faults
      ensures Blames(old(faults), r, faults)
      ensures r.Ok? ==> id in docs && r.value == docs[id]
      ensures r.Err? ==> r.error in {DataNotFound, Unavailable}
      ensures r == Err(DataNotFound) ==> id !in docs
    {
      if * {
        faults := faults + 1;
        return Err(Unavailable);
      }
      return if id in docs then Ok(docs[id]) else Err(DataNotFound);
    }

    method Delete(id: string) returns (r: Result<()>)
      modifies this
      ensures Blames(old(faults), r, faults)
      ensures id !in old(docs) ==> r.Err? && docs == old(docs)
      ensures r.Ok? ==> docs == old(docs) - {id}
      ensures r.Err? ==> r.error in {DataNotFound, Unavailable} && (docs == old(docs) || docs == old(docs) - {id})
      ensures r == Err(DataNotFound) ==> id !in old(docs)
    {
      if * {
        faults := faults + 1;
        return Err(Unavailable);
      }
      if id !in docs {
        return Err(DataNotFound);
      }
      docs := docs - {id};
      if * {
        faults := faults + 1;
        return Err(Unavailable);
      }
      return Ok(());
    }

    /** The identifiers of the matching documents, in any order. */
    method Query(q: Query) returns (r: Result<seq<string>>)
      modifies `faults
      ensures Blames(old(faults), r, faults)
      ensures r.Err? ==> r.error == Unavailable
      ensures r.Ok? ==> forall i, j | 0 <= i < j < |r.value| :: r.value[i] != r.value[j]
      ensures r.Ok? ==> forall id :: id in r.value <==> id in docs && QueryMatches(docs[id].attributes, q)
    {
      if * {
        faults := faults + 1;
        return Err(Unavailable);
      }
      var ids := [];
      var todo := docs.Keys;
      while todo != {}
        invariant todo <= docs.Keys
        invariant forall i, j | 0 <= i < j < |ids| :: ids[i] != ids[j]
        invariant forall id :: id in ids <==> id in docs && id !in todo && QueryMatches(docs[id].attributes, q)
        decreases todo
      {
        var id :| id in todo;
        todo := todo - {id};
        if QueryMatches(docs[id].attributes, q) {
          ids := ids + [id];
        }
      }
      return Ok(ids);
    }

    /** The extension that sends back whole documents instead of their identifiers. */
    method QueryDocuments(q: Query) returns (r: Result<seq<Document>>, ghost ids: seq<string>)
      modifies `faults
      ensures Blames(old(faults), r, faults)
      ensures r.Err? ==> r.error == Unavailable
      ensures r.Ok? ==> forall i, j | 0 <= i < j < |ids| :: ids[i] != ids[j]
      ensures r.Ok? ==> forall id :: id in ids <==> id in docs && QueryMatches(docs[id].attributes, q)
      ensures r.Ok? ==> |r.value| == |ids| && forall i | 0 <= i < |ids| :: ids[i] in docs && r.value[i] == docs[ids[i]]
    {
      var found := Query(q);
      if found.Err? {
        return Err(found.error), [];
      }
      assert forall i | 0 <= i < |found.value| :: found.value[i] in found.value;
      var documents := seq(|found.value|, i requires 0 <= i < |found.value| && found.value[i] in docs reads this =>
                             docs[found.value[i]]);
      return Ok(documents), found.value;
    }

    /** An empty batch changes nothing. */
    method Batch(ops: seq<VaultOperation>) returns (r: Result<()>)
      modifies this
      ensures Blames(old(faults), r, faults)
      ensures r.Ok? ==> docs == ApplyVaultAll(old(docs), ops)
      ensures r.Err? ==> r.error == Unavailable
      ensures r.Err? ==> exists n :: 0 <= n <= |ops| && docs == ApplyVaultAll(old(docs), ops[..n])
    {
      assert docs == ApplyVaultAll(docs, ops[..0]);
      for i := 0 to |ops|
        invariant docs == ApplyVaultAll(old(docs), ops[..i]) && faults == old(faults)
      {
        if * {
          faults := faults + 1;
          return Err(Unavailable);
        }
        assert ops[..i + 1][..i] == ops[..i];
        docs := ApplyVault(docs, ops[i]);
      }
      assert ops[..|ops|] == ops;
      if * {
        faults := faults + 1;
        return Err(Unavailable);
      }
      return Ok(());
    }
  }

  // ----- documents and the map they stand for --------------------------------------------------------

  function KeyTag(key: string): Tag { Tag("", key) }

  /** User tags may not be the tag under which some key's document is searched. */
  predicate ReservedFree(tags: seq<Tag>) {
    forall t | t in tags :: t.name != "" || t.value == ""
  }

  /** An entry as its document keeps it: sealed with its key, or with a blank one. */
  datatype Kept = Kept(entry: Entry, blank: bool)

  type Keeping = map<string, Kept>

  function Plain(kept: Keeping): Contents {
    map k | k in kept :: kept[k].entry
  }

  /** The document's key, entry and sealing. */
  function RowOf(doc: Document): Row<Kept> {
    var tags := doc.content.tags;
    var blank := doc.content.key == "";
    if tags == [] then Row("", Kept(Entry(doc.content.value, []), blank))
    else Row(tags[|tags| - 1].value, Kept(Entry(doc.content.value, tags[..|tags| - 1]), blank))
  }

  function RowsOf(docs: Documents): Rows<Kept> {
    map id | id in docs :: RowOf(docs[id])
  }

  /** A document carries its own identifier, its tags in hashed form, and its key as the last tag. */
  predicate Sealed(f: Formatter, id: string, doc: Document) {
    var row := RowOf(doc);
    && doc.id == id && id != "" && row.key != "" && ReservedFree(row.entry.entry.tags)
    && doc.content.tags == row.entry.entry.tags + [KeyTag(row.key)]
    && doc.attributes == f.FormattedTags(doc.content.tags)
    && (doc.content.key == row.key || doc.content.key == "")
  }

  ghost predicate AllSealed(f: Formatter, docs: Documents) {
    forall id | id in docs :: Sealed(f, id, docs[id])
  }

  ghost predicate Houses(f: Formatter, docs: Documents, kept: Keeping) {
    AllSealed(f, docs) && Represents(RowsOf(docs), kept)
  }

  lemma PlainAt(kept: Keeping, key: string)
    ensures key in Plain(kept) <==> key in kept
    ensures key in kept ==> Plain(kept)[key] == kept[key].entry
  {
  }

  lemma RowValue(doc: Document)
    ensures RowOf(doc).entry.entry.value == doc.content.value
  {
  }

  lemma SealedRow(f: Formatter, doc: Document, key: string, value: Bytes, tags: seq<Tag>)
    requires key != "" && doc.id != "" && ReservedFree(tags) && (doc.content.key == key || doc.content.key == "")
    requires doc.content.value == value && doc.content.tags == tags + [KeyTag(key)]
    requires doc.attributes == f.FormattedTags(doc.content.tags)
    ensures Sealed(f, doc.id, doc) && RowOf(doc) == Row(key, Kept(Entry(value, tags), doc.content.key == ""))
  {
    assert (tags + [KeyTag(key)])[..|tags|] == tags;
  }

  function KeyQuery(f: Formatter, key: string): Query {
    var t := f.FormatTag(KeyTag(key));
    Query([map[t.name := t.value]], "")
  }

  /** Searching for a key finds a document exactly when the document carries that key's tag: as the tag that was
      appended for its own key, or because a user tag looks like one. */
  lemma KeyQueryHits(f: Formatter, doc: Document, own: string, tags: seq<Tag>, key: string)
    requires f.mac.Valid() && key != "" && doc.content.tags == tags + [KeyTag(own)]
    requires doc.attributes == f.FormattedTags(doc.content.tags)
    ensures QueryMatches(doc.attributes, KeyQuery(f, key)) <==> own == key || KeyTag(key) in tags
  {
    var c, t, all := Criterion("", key), f.FormatTag(KeyTag(key)), tags + [KeyTag(own)];
    var q := KeyQuery(f, key);
    f.CriterionPreserved(all, c);
    assert Matches(all, c) <==> own == key || KeyTag(key) in tags by {
      assert forall x :: x in all <==> x in tags || x == KeyTag(own);
      assert TagMatches(KeyTag(key), c);
    }
    assert t.name in q.equals[0] && q.equals[0] == map[t.name := t.value];
    assert MatchesAll(doc.attributes, q.equals[0]) <==> Matches(doc.attributes, Criterion(t.name, t.value));
    assert QueryMatches(doc.attributes, q) <==> MatchesAll(doc.attributes, q.equals[0]);
  }

  lemma KeyQueryIsExact(f: Formatter, id: string, doc: Document, key: string)
    requires f.mac.Valid() && key != "" && Sealed(f, id, doc)
    ensures QueryMatches(doc.attributes, KeyQuery(f, key)) <==> RowOf(doc).key == key
  {
    var row := RowOf(doc);
    hide QueryMatches, KeyQuery;
    KeyQueryHits(f, doc, row.key, row.entry.entry.tags, key);
  }

  lemma RowsOfUpdate(docs: Documents, id: string, doc: Document)
    ensures RowsOf(docs[id := doc]) == RowsOf(docs)[id := RowOf(doc)]
    ensures RowsOf(docs - {id}) == RowsOf(docs) - {id}
  {
  }

  lemma HousePut(f: Formatter, docs: Documents, kept: Keeping, id: string, doc: Document)
    requires Houses(f, docs, kept) && Sealed(f, id, doc)
    requires if id in docs then RowOf(docs[id]).key == RowOf(doc).key else RowOf(doc).key !in kept
    ensures Houses(f, docs[id := doc], kept[RowOf(doc).key := RowOf(doc).entry])
  {
    hide Sealed, RowOf;
    RowsOfUpdate(docs, id, doc);
    assert id in docs ==> RowsOf(docs)[id] == RowOf(docs[id]);
    SetRow(RowsOf(docs), kept, id, RowOf(doc));
  }

  lemma HouseDelete(f: Formatter, docs: Documents, kept: Keeping, id: string)
    requires Houses(f, docs, kept) && id in docs
    ensures Houses(f, docs - {id}, kept - {RowOf(docs[id]).key})
  {
    hide Sealed, RowOf;
    RowsOfUpdate(docs, id, docs[id]);
    DropRow(RowsOf(docs), kept, id);
  }

  lemma HousedHome(f: Formatter, docs: Documents, kept: Keeping, key: string, id: string)
    requires Houses(f, docs, kept) && Home(RowsOf(docs), key, id)
    ensures key in kept <==> id != ""
    ensures id != "" ==> id in docs && docs[id].id == id && RowOf(docs[id]) == Row(key, kept[key])
  {
    HomeOfAbsent(RowsOf(docs), kept, key, id);
  }

  /** Each key has at most one document. */
  lemma OneDocumentPerKey(f: Formatter, docs: Documents, kept: Keeping, key: string, ids: seq<string>)
    requires f.mac.Valid() && Houses(f, docs, kept) && key != ""
    requires forall i, j | 0 <= i < j < |ids| :: ids[i] != ids[j]
    requires forall id :: id in ids <==> id in docs && QueryMatches(docs[id].attributes, KeyQuery(f, key))
    ensures |ids| <= 1 && (|ids| == 1 ==> ids[0] != "")
    ensures Home(RowsOf(docs), key, if |ids| == 0 then "" else ids[0])
  {
    hide Sealed, RowOf, QueryMatches, KeyQuery;
    assert |ids| >= 2 ==> ids[0] in ids && ids[1] in ids && ids[0] != ids[1];
    var rows := RowsOf(docs);
    forall id | id in docs
      ensures id in ids <==> rows[id].key == key
    {
      KeyQueryIsExact(f, id, docs[id], key);
    }
    if |ids| >= 1 {
      assert ids[0] in ids && Sealed(f, ids[0], docs[ids[0]]);
      NotBlank(f, docs, ids[0]);
    }
  }

  lemma NotBlank(f: Formatter, docs: Documents, id: string)
    requires id in docs && Sealed(f, id, docs[id])
    ensures id != ""
  {
  }

  // ----- what a write makes of what is kept --------------------------------------------------------------

  /** Over the standard endpoints every document is sealed with its key. */
  function ApplySlow(kept: Keeping, op: Operation): Keeping {
    if op.value.None? then kept - {op.key} else kept[op.key := Kept(Entry(op.value.value, op.tags), false)]
  }

  /** Over the batch endpoint a new document is sealed with a blank key. */
  function ApplyFast(kept: Keeping, op: Operation): Keeping {
    if op.value.None? then kept - {op.key} else kept[op.key := Kept(Entry(op.value.value, op.tags), op.key !in kept)]
  }

  function ApplyFastAll(kept: Keeping, ops: seq<Operation>): Keeping {
    if ops == [] then kept else ApplyFast(ApplyFastAll(kept, ops[..|ops| - 1]), ops[|ops| - 1])
  }

  function ApplySlowAll(kept: Keeping, ops: seq<Operation>): Keeping {
    if ops == [] then kept else ApplySlow(ApplySlowAll(kept, ops[..|ops| - 1]), ops[|ops| - 1])
  }

  /** Either way, the entries are those of the plain map. */
  lemma {:induction false} PlainAfter(kept: Keeping, ops: seq<Operation>)
    ensures Plain(ApplyFastAll(kept, ops)) == ApplyAll(Plain(kept), ops)
    ensures Plain(ApplySlowAll(kept, ops)) == ApplyAll(Plain(kept), ops)
  {
    hide Plain, Apply, ApplyFast, ApplySlow;
    if ops != [] {
      var init, last := ops[..|ops| - 1], ops[|ops| - 1];
      PlainAfter(kept, init);
      PlainStep(ApplyFastAll(kept, init), last);
      PlainStep(ApplySlowAll(kept, init), last);
    }
  }

  lemma PlainStep(kept: Keeping, op: Operation)
    ensures Plain(ApplyFast(kept, op)) == Plain(ApplySlow(kept, op)) == Apply(Plain(kept), op)
  {
  }

  lemma AllStep(kept: Keeping, ops: seq<Operation>, i: nat)
    requires i < |ops|
    ensures ApplyFastAll(kept, ops[..i + 1]) == ApplyFast(ApplyFastAll(kept, ops[..i]), ops[i])
    ensures ApplySlowAll(kept, ops[..i + 1]) == ApplySlow(ApplySlowAll(kept, ops[..i]), ops[i])
    ensures ApplyFastAll(kept, ops[..0]) == kept && ApplySlowAll(kept, ops[..0]) == kept
  {
    assert ops[..i + 1][..i] == ops[..i];
  }

  /** The operation with index `i` is the last one on the key, and puts it. */
  predicate LastPut(ops: seq<Operation>, i: int, key: string) {
    && 0 <= i < |ops| && ops[i].key == key && ops[i].value.Some?
    && forall j | i < j < |ops| :: ops[j].key != key
  }

  /** The last operation on the key puts it when it is not there. */
  ghost predicate PutAnew(m: Contents, ops: seq<Operation>, key: string) {
    exists i :: LastPut(ops, i, key) && key !in ApplyAll(m, ops[..i])
  }

  lemma PutAnewStep(m: Contents, ops: seq<Operation>, key: string)
    requires ops != []
    ensures var n := |ops| - 1;
            PutAnew(m, ops, key) <==>
            if ops[n].key == key then ops[n].value.Some? && key !in ApplyAll(m, ops[..n]) else PutAnew(m, ops[..n], key)
  {
    hide ApplyAll;
    var n := |ops| - 1;
    assert forall i | 0 <= i < n :: ops[..n][..i] == ops[..i];
    if ops[n].key == key {
      assert ops[n].value.Some? ==> LastPut(ops, n, key);
    } else {
      assert forall i | 0 <= i < n :: LastPut(ops, i, key) <==> LastPut(ops[..n], i, key);
    }
  }

  /** After a fast batch a key is sealed blank exactly when its last operation put it while it was not there, or no
      operation named it and it was sealed blank before. */
  lemma {:induction false} BlankAfterFast(kept: Keeping, ops: seq<Operation>, key: string)
    ensures var after := ApplyFastAll(kept, ops);
            key in after ==> (after[key].blank <==>
              if key in Keys(ops) then PutAnew(Plain(kept), ops, key) else key in kept && kept[key].blank)
  {
    hide Plain, PutAnew;
    if ops != [] {
      var n := |ops| - 1;
      var init, last := ops[..n], ops[n];
      PlainAt(ApplyFastAll(kept, init), key);
      BlankAfterFast(kept, init, key);
      PlainAfter(kept, init);
      PutAnewStep(Plain(kept), ops, key);
      KeysOfAll(ops, key);
    }
  }

  lemma KeysOfAll(ops: seq<Operation>, key: string)
    requires ops != []
    ensures key in Keys(ops) <==> key in Keys(ops[..|ops| - 1]) || ops[|ops| - 1].key == key
  {
    assert ops == ops[..|ops| - 1] + [ops[|ops| - 1]];
  }

  // ----- lists of vault operations -------------------------------------------------------------------------

  function RowOperationOf(vop: VaultOperation): RowOperation<Kept> {
    match vop
    case Upsert(doc) => Place(doc.id, RowOf(doc))
    case Remove(id) => Clear(id)
  }

  ghost predicate Carries(f: Formatter, vops: seq<VaultOperation>, ops: seq<RowOperation<Kept>>) {
    && |vops| == |ops|
    && forall i | 0 <= i < |vops| ::
         ops[i] == RowOperationOf(vops[i]) && (vops[i].Upsert? ==> Sealed(f, vops[i].doc.id, vops[i].doc))
  }

  lemma {:induction false} RunsOnRows(f: Formatter, docs: Documents, vops: seq<VaultOperation>,
                                      ops: seq<RowOperation<Kept>>, n: nat)
    requires AllSealed(f, docs) && Carries(f, vops, ops) && n <= |ops|
    ensures AllSealed(f, ApplyVaultAll(docs, vops[..n]))
    ensures RowsOf(ApplyVaultAll(docs, vops[..n])) == ApplyRows(RowsOf(docs), ops[..n])
    decreases n
  {
    if n == 0 {
      assert vops[..0] == [] && ops[..0] == [];
    } else {
      RunsOnRows(f, docs, vops, ops, n - 1);
      assert vops[..n][..n - 1] == vops[..n - 1] && ops[..n][..n - 1] == ops[..n - 1];
      StepOnRows(f, ApplyVaultAll(docs, vops[..n - 1]), vops[n - 1]);
    }
  }

  lemma StepOnRows(f: Formatter, docs: Documents, vop: VaultOperation)
    requires AllSealed(f, docs) && (vop.Upsert? ==> Sealed(f, vop.doc.id, vop.doc))
    ensures AllSealed(f, ApplyVault(docs, vop))
    ensures RowsOf(ApplyVault(docs, vop)) == ApplyRow(RowsOf(docs), RowOperationOf(vop))
  {
    hide Sealed, RowOf;
    match vop
    case Upsert(doc) => RowsOfUpdate(docs, doc.id, doc);
    case Remove(id) =>
  }

  // ----- the store ---------------------------------------------------------------------------------------

  class RestStore {
    const formatter: Formatter
    const vault: Vault
    const ids: IdSupply
    const returnFullDocumentsOnQuery: bool
    const batchEndpointExtensionEnabled: bool
    var next: nat
    /** What this store stands for, with the sealing of each document. */
    ghost var kept: Keeping
    /** How often drawing an identifier has failed so far. */
    ghost var faults: nat

    ghost predicate Valid()
      reads `next, `kept, vault`docs
    {
      && formatter.mac.Valid() && ids.Valid()
      && Houses(formatter, vault.docs, kept) && ids.Unused(vault.docs.Keys, next)
    }

    ghost function Contents(): Contents
      reads `kept
    {
      Plain(kept)
    }

    ghost function Faults(): nat
      reads `faults, vault`faults
    {
      faults + vault.faults
    }

    constructor (formatter: Formatter, vault: Vault, ids: IdSupply, fullDocuments: bool, batchEndpoint: bool)
      requires formatter.mac.Valid() && ids.Valid() && vault.docs == map[]
      ensures Valid() && kept == map[] && this.vault == vault
    {
      this.formatter, this.vault, this.ids := formatter, vault, ids;
      returnFullDocumentsOnQuery, batchEndpointExtensionEnabled := fullDocuments, batchEndpoint;
      next, kept, faults := 0, map[], 0;
    }

    // ----- search ------------------------------------------------------------------------------------------

    method GetDocumentIDViaKeyTagQuery(key: string) returns (r: Result<string>)
      requires Valid() && key != ""
      modifies vault`faults
      ensures Blames(old(Faults()), r, Faults())
      ensures r.Err? ==> r.error in {DataNotFound, Unavailable}
      ensures r.Ok? ==> r.value != "" && Home(RowsOf(vault.docs), key, r.value)
      ensures r == Err(DataNotFound) ==> Home(RowsOf(vault.docs), key, "")
    {
      hide Houses, KeyQuery, QueryMatches;
      var found := vault.Query(KeyQuery(formatter, key));
      if found.Err? {
        return Err(found.error);
      }
      OneDocumentPerKey(formatter, vault.docs, kept, key, found.value);
      if |found.value| == 0 {
        return Err(DataNotFound);
      } else if |found.value| > 1 {
        return Err(MultipleResults);
      }
      return Ok(found.value[0]);
    }

    method GetEncryptedDocumentStoredUnderRandomID(key: string) returns (r: Result<Document>)
      requires Valid() && key != ""
      modifies vault`faults
      ensures Blames(old(Faults()), r, Faults())
      ensures r.Err? ==> r.error in {DataNotFound, Unavailable}
      ensures r.Ok? ==>
                && key in kept && RowOf(r.value) == Row(key, kept[key])
                && r.value.id in vault.docs && vault.docs[r.value.id] == r.value
      ensures r == Err(DataNotFound) ==> key !in kept
    {
      hide Houses, KeyQuery, QueryMatches, RowOf;
      if returnFullDocumentsOnQuery {
        ghost var found;
        var documents;
        documents, found := vault.QueryDocuments(KeyQuery(formatter, key));
        if documents.Err? {
          return Err(documents.error);
        }
        OneDocumentPerKey(formatter, vault.docs, kept, key, found);
        HousedHome(formatter, vault.docs, kept, key, if |found| == 0 then "" else found[0]);
        if |documents.value| == 0 {
          return Err(DataNotFound);
        } else if |documents.value| > 1 {
          return Err(MultipleResults);
        }
        return Ok(documents.value[0]);
      }
      var id := GetDocumentIDViaKeyTagQuery(key);
      if id.Err? {
        if id.error == DataNotFound {
          HousedHome(formatter, vault.docs, kept, key, "");
        }
        return Err(id.error);
      }
      HousedHome(formatter, vault.docs, kept, key, id.value);
      r := vault.Read(id.value);
    }

    /** Without faults a read succeeds exactly when the key is stored. */
    method Get(key: string) returns (r: Result<Bytes>)
      requires Valid()
      modifies vault`faults
      ensures Blames(old(Faults()), r, Faults())
      ensures r.Ok? ==> key in Contents() && r.value == Contents()[key].value
      ensures r == Err(DataNotFound) ==> key !in Contents()
      ensures r == Err(EmptyKey) <==> key == ""
      ensures r.Err? ==> r.error in {EmptyKey, DataNotFound, Unavailable}
    {
      hide Valid, RowOf;
      PlainAt(kept, key);
      if key == "" {
        return Err(EmptyKey);
      }
      var doc := GetEncryptedDocumentStoredUnderRandomID(key);
      if doc.Err? {
        return Err(doc.error);
      }
      RowValue(doc.value);
      return Ok(doc.value.content.value);
    }

    method GetTags(key: string) returns (r: Result<seq<Tag>>)
      requires Valid()
      modifies vault`faults
      ensures Blames(old(Faults()), r, Faults())
      ensures r.Ok? ==> key in Contents() && r.value == Contents()[key].tags
      ensures r == Err(DataNotFound) ==> key !in Contents()
      ensures r == Err(EmptyKey) <==> key == ""
      ensures r.Err? ==> r.error in {EmptyKey, DataNotFound, Unavailable}
    {
      hide RowOf;
      if key == "" {
        return Err(EmptyKey);
      }
      var doc := GetEncryptedDocumentStoredUnderRandomID(key);
      if doc.Err? {
        return Err(doc.error);
      }
      PlainAt(kept, key);
      var tags := FilterOutKeyTag(doc.value.content.tags, KeyTag(key));
      SealedTags(formatter, doc.value, key, kept[key]);
      return Ok(tags);
    }

    lemma SealedTags(f: Formatter, doc: Document, key: string, k: Kept)
      requires Sealed(f, doc.id, doc) && RowOf(doc) == Row(key, k)
      ensures Filtered(doc.content.tags, KeyTag(key)) == k.entry.tags
    {
      FilteredKeepsOthers(k.entry.tags, KeyTag(key));
      assert (k.entry.tags + [KeyTag(key)])[..|k.entry.tags|] == k.entry.tags;
    }

    // ----- single operations ---------------------------------------------------------------------------------

    method GenerateRandomDocumentID() returns (r: Result<string>)
      requires ids.Valid()
      modifies `next, `faults
      ensures next == old(next) + 1 && Blames(old(faults), r, faults)
      ensures r.Ok? ==> r.value == ids.at(old(next))
      ensures r.Err? ==> r.error == FormatFailed
    {
      next := next + 1;
      if * {
        faults := faults + 1;
        return Err(FormatFailed);
      }
      return Ok(ids.at(next - 1));
    }

    /** The encrypted document for one entry. */
    function FormatValue(sealedKey: string, id: string, value: Bytes, tags: seq<Tag>): Document {
      Document(id, formatter.FormattedTags(tags), Content(sealedKey, value, tags))
    }

    /** Puts under the identifier found in the existing document, or creates a document with a new one; either way the
        document is sealed with its key.  Only faults can make it fail. */
    method PutUsingRandomDocumentID(key: string, value: Bytes, tags: seq<Tag>)
      returns (r: Result<()>, ghost applied: bool)
      requires Valid() && key != "" && ReservedFree(tags)
      modifies this, vault
      ensures Valid() && Blames(old(Faults()), r, Faults())
      ensures kept == if applied then old(kept)[key := Kept(Entry(value, tags), false)] else old(kept)
      ensures r.Ok? ==> applied
      ensures r.Err? ==> r.error in {FormatFailed, Unavailable}
    {
      hide Houses, KeyQuery, QueryMatches, RowOf, Sealed;
      applied := false;
      var all := tags + [KeyTag(key)];
      var existing := GetEncryptedDocumentStoredUnderRandomID(key);
      if existing.Err? && existing.error != DataNotFound {
        return Err(existing.error), false;
      }
      ghost var before := vault.docs;
      var doc;
      if existing.Err? {
        var id := GenerateRandomDocumentID();
        if id.Err? {
          return Err(id.error), false;
        }
        doc := FormatValue(key, id.value, value, all);
        r := vault.Create(doc);
      } else {
        doc := FormatValue(key, existing.value.id, value, all);
        NotBlankAt(existing.value.id);
        r := vault.Update(existing.value.id, doc);
      }
      SealedRow(formatter, doc, key, value, tags);
      HousePut(formatter, before, kept, doc.id, doc);
      applied := r.Ok? || vault.docs != before;
      kept := if applied then kept[key := Kept(Entry(value, tags), false)] else kept;
    }

    lemma NotBlankAt(id: string)
      requires Valid() && id in vault.docs
      ensures id != ""
    {
    }

    method Put(key: string, value: Option<Bytes>, tags: seq<Tag>) returns (r: Result<()>)
      requires Valid() && ReservedFree(tags)
      modifies this, vault
      ensures Valid() && Blames(old(Faults()), r, Faults())
      ensures PutMeets(old(Contents()), key, value, tags, Contents(), r)
      ensures r.Err? && PutError(key, value, tags).None? ==> r.error.IsFault()
      ensures r.Ok? ==> kept == ApplySlow(old(kept), Operation(key, value, tags))
      ensures r.Err? ==> kept == old(kept) || kept == ApplySlow(old(kept), Operation(key, value, tags))
    {
      hide Valid, Plain;
      if value.Some? {
        PlainStep(kept, Operation(key, value, tags));
      }
      var e := PutError(key, value, tags);
      if e.Some? {
        return Err(e.value);
      }
      ghost var applied;
      r, applied := PutUsingRandomDocumentID(key, value.value, tags);
    }

    method DeleteDocumentStoredUnderRandomID(key: string) returns (r: Result<()>, ghost applied: bool)
      requires Valid() && key != ""
      modifies this, vault
      ensures Valid() && Blames(old(Faults()), r, Faults())
      ensures kept == if applied then old(kept) - {key} else old(kept)
      ensures r.Ok? ==> applied
      ensures r.Err? ==> r.error == Unavailable
    {
      hide Houses, KeyQuery, QueryMatches, RowOf, Sealed;
      var id := GetDocumentIDViaKeyTagQuery(key);
      if id.Err? {
        if id.error == DataNotFound {
          HousedHome(formatter, vault.docs, kept, key, "");
          assert kept - {key} == kept;
          return Ok(()), true;
        }
        return Err(id.error), false;
      }
      ghost var before := vault.docs;
      HousedHome(formatter, before, kept, key, id.value);
      HouseDelete(formatter, before, kept, id.value);
      r := vault.Delete(id.value);
      applied := r.Ok? || vault.docs != before;
      kept := if applied then kept - {key} else kept;
    }

    method Delete(key: string) returns (r: Result<()>)
      requires Valid()
      modifies this, vault
      ensures Valid() && Blames(old(Faults()), r, Faults())
      ensures DeleteMeets(old(Contents()), key, Contents(), r)
      ensures r.Err? && key != "" ==> r.error.IsFault()
      ensures kept == old(kept) || kept == old(kept) - {key}
    {
      hide Valid, Plain;
      PlainStep(kept, Operation(key, None, []));
      if key == "" {
        return Err(EmptyKey);
      }
      ghost var applied;
      r, applied := DeleteDocumentStoredUnderRandomID(key);
    }

    // ----- batch, operation by operation ------------------------------------------------------------------------

    /** Only faults can make it fail; it then stops after some operation. */
    method SlowBatchUsingStandardEndpoints(ops: seq<Operation>) returns (r: Result<()>)
      requires Valid() && KeysPresent(ops) && forall op | op in ops :: ReservedFree(op.tags)
      modifies this, vault
      ensures Valid() && Blames(old(Faults()), r, Faults())
      ensures r.Err? ==> r.error in {FormatFailed, Unavailable}
      ensures r.Ok? ==> kept == ApplySlowAll(old(kept), ops)
      ensures exists n :: 0 <= n <= |ops| && kept == ApplySlowAll(old(kept), ops[..n])
    {
      hide Valid, ApplySlowAll, ReservedFree;
      ghost var k := kept;
      assert kept == ApplySlowAll(k, ops[..0]) by {
        NoneRun(k, ops);
      }
      for i := 0 to |ops|
        invariant Valid() && kept == ApplySlowAll(k, ops[..i]) && Faults() >= old(Faults())
      {
        var op := ops[i];
        assert op in ops;
        AllStep(k, ops, i);
        ghost var applied;
        if op.value.None? {
          r, applied := DeleteDocumentStoredUnderRandomID(op.key);
        } else {
          r, applied := PutUsingRandomDocumentID(op.key, op.value.value, op.tags);
        }
        if r.Err? {
          assert kept == ApplySlowAll(k, ops[..if applied then i + 1 else i]);
          return;
        }
      }
      assert ops[..|ops|] == ops;
      r := Ok(());
    }

    lemma NoneRun(k: Keeping, ops: seq<Operation>)
      ensures ApplySlowAll(k, ops[..0]) == k
    {
    }

    // ----- batch as one list of vault operations ----------------------------------------------------------------

    ghost predicate Translating(resolved: map<string, string>, out: Output<Kept>)
      reads `next, vault`docs
    {
      Translated(ids, next, RowsOf(vault.docs), resolved, out)
    }

    method DetermineDocumentIDToUseForOperation(resolved: map<string, string>, key: string, ghost out: Output<Kept>)
      returns (r: Result<string>)
      requires Valid() && key != "" && Translating(resolved, out)
      modifies vault`faults
      ensures Blames(old(Faults()), r, Faults())
      ensures r.Err? ==> r.error == Unavailable
      ensures r.Ok? ==> (key in out.Last() <==> r.value != "")
      ensures r.Ok? && r.value != "" ==>
                && r.value in out.Now(RowsOf(vault.docs)) && out.Now(RowsOf(vault.docs))[r.value] == Row(key, out.Last()[key])
                && ids.Unused({r.value}, next)
    {
      hide Houses, RowsOf, Translated, Home, ApplyRows;
      var id := "";
      if key in resolved {
        id := resolved[key];
      }
      if id == "" && key !in resolved {
        var found := GetDocumentIDViaKeyTagQuery(key);
        if found.Err? && found.error != DataNotFound {
          return found;
        }
        id := if found.Err? then "" else found.value;
      }
      TranslatedHome(ids, next, RowsOf(vault.docs), resolved, out, key, id);
      return Ok(id);
    }

    /** None says that there is nothing to delete. */
    method CreateVaultDeleteOperation(resolved: map<string, string>, op: Operation, ghost out: Output<Kept>)
      returns (r: Result<(Option<VaultOperation>, map<string, string>)>)
      requires Valid() && op.key != "" && Translating(resolved, out)
      modifies vault`faults
      ensures Blames(old(Faults()), r, Faults())
      ensures r.Err? ==> r.error == Unavailable
      ensures r.Ok? ==> var (vop, resolved') := r.value;
                        && (vop.Some? <==> op.key in out.Last()) && (vop.Some? ==> vop.value.Remove?)
                        && Translating(resolved', if vop.None? then out.Skip()
                                                  else out.Emit(RowOperationOf(vop.value), out.Last() - {op.key}))
    {
      hide Houses, RowsOf, Translated, ApplyRows;
      var id := DetermineDocumentIDToUseForOperation(resolved, op.key, out);
      if id.Err? {
        return Err(id.error);
      }
      if id.value == "" {
        TranslatedSkip(ids, next, RowsOf(vault.docs), resolved, out);
        return Ok((None, resolved));
      }
      TranslatedDelete(ids, next, RowsOf(vault.docs), resolved, out, op.key, id.value);
      return Ok((Some(Remove(id.value)), resolved[op.key := ""]));
    }

    /** A key without a document gets a new identifier, and a document sealed with a blank key. */
    method CreateVaultUpsertOperation(resolved: map<string, string>, op: Operation, ghost out: Output<Kept>)
      returns (r: Result<(VaultOperation, map<string, string>)>)
      requires Valid() && op.key != "" && op.value.Some? && ReservedFree(op.tags) && Translating(resolved, out)
      modifies `next, `faults, vault`faults
      ensures Valid() && Blames(old(Faults()), r, Faults())
      ensures r.Err? ==> r.error in {FormatFailed, Unavailable}
      ensures r.Ok? ==> var (vop, resolved') := r.value;
                        && vop.Upsert? && Sealed(formatter, vop.doc.id, vop.doc)
                        && vop.doc.content.key == (if op.key in out.Last() then op.key else "")
                        && Translating(resolved', out.Emit(RowOperationOf(vop), ApplyFast(out.Last(), op)))
    {
      hide Houses, RowsOf, RowOf, Sealed, Translated, ApplyRows;
      var id := DetermineDocumentIDToUseForOperation(resolved, op.key, out);
      if id.Err? {
        return Err(id.error);
      }
      ghost var n := next;
      var all := op.tags + [KeyTag(op.key)];
      var doc;
      if id.value == "" {
        var newID := GenerateRandomDocumentID();
        if newID.Err? {
          return Err(newID.error);
        }
        NewIdentifier(n, resolved, out);
        doc := FormatValue("", newID.value, op.value.value, all);
      } else {
        doc := FormatValue(op.key, id.value, op.value.value, all);
      }
      SealedRow(formatter, doc, op.key, op.value.value, op.tags);
      TranslatedPut(ids, n, RowsOf(vault.docs), resolved, out, doc.id, RowOf(doc), next);
      return Ok((Upsert(doc), resolved[op.key := doc.id]));
    }

    /** The identifier drawn at `n` is new. */
    lemma NewIdentifier(n: nat, resolved: map<string, string>, out: Output<Kept>)
      requires ids.Valid() && next == n + 1 && Translated(ids, n, RowsOf(vault.docs), resolved, out)
      ensures ids.at(n) != "" && ids.at(n) !in out.Now(RowsOf(vault.docs)) && ids.Unused({ids.at(n)}, next)
    {
      AppliedIds(RowsOf(vault.docs), out.ops);
      assert ids.indexOf(ids.at(n)) == n;
    }

    /** One operation of the batch; a dropped delete leaves the list as it is. */
    method TranslateOne(resolved: map<string, string>, vops: seq<VaultOperation>, ghost out: Output<Kept>, op: Operation)
      returns (r: Result<(map<string, string>, seq<VaultOperation>)>, ghost out': Output<Kept>)
      requires Valid() && op.key != "" && ReservedFree(op.tags)
      requires Translating(resolved, out) && Carries(formatter, vops, out.ops)
      modifies `next, `faults, vault`faults
      ensures Valid() && Blames(old(Faults()), r, Faults())
      ensures r.Err? ==> r.error in {FormatFailed, Unavailable}
      ensures r.Ok? ==> var (resolved', vops') := r.value;
                        && Translating(resolved', out') && Carries(formatter, vops', out'.ops)
                        && out'.states == out.states + [ApplyFast(out.Last(), op)]
    {
      hide Houses, RowsOf, RowOf, Sealed, Translated, ApplyRows;
      var vop, resolved';
      if op.value.None? {
        var del := CreateVaultDeleteOperation(resolved, op, out);
        if del.Err? {
          return Err(del.error), out;
        }
        if del.value.0.None? {
          assert out.Last() - {op.key} == out.Last();
          return Ok((del.value.1, vops)), out.Skip();
        }
        vop, resolved' := del.value.0.value, del.value.1;
      } else {
        var put := CreateVaultUpsertOperation(resolved, op, out);
        if put.Err? {
          return Err(put.error), out;
        }
        vop, resolved' := put.value.0, put.value.1;
      }
      out' := out.Emit(RowOperationOf(vop), ApplyFast(out.Last(), op));
      return Ok((resolved', vops + [vop])), out';
    }

    /** Only searching and drawing identifiers can fail. */
    method CreateVaultOperationsUsingNonDeterministicIDs(ops: seq<Operation>)
      returns (r: Result<seq<VaultOperation>>, ghost resolved: map<string, string>, ghost out: Output<Kept>)
      requires Valid() && KeysPresent(ops) && forall op | op in ops :: ReservedFree(op.tags)
      modifies `next, `faults, vault`faults
      ensures Valid() && Blames(old(Faults()), r, Faults())
      ensures r.Err? ==> r.error in {FormatFailed, Unavailable}
      ensures r.Ok? ==> Translating(resolved, out) && Carries(formatter, r.value, out.ops)
      ensures r.Ok? ==>
                |out.states| == |ops| + 1 && forall i | 0 <= i <= |ops| :: out.states[i] == ApplyFastAll(kept, ops[..i])
    {
      hide Houses, RowOf, RowsOf, Sealed, Translated, ReservedFree, ApplyFastAll, ApplyRows;
      StartTranslating(ops);
      var vops: seq<VaultOperation>, table: map<string, string> := [], map[];
      out, resolved := Nothing(kept), table;
      for i := 0 to |ops|
        invariant Valid() && Faults() >= old(Faults())
        invariant Translating(table, out) && Carries(formatter, vops, out.ops)
        invariant |out.states| == i + 1 && forall j | 0 <= j <= i :: out.states[j] == ApplyFastAll(kept, ops[..j])
      {
        assert ops[i] in ops;
        AllStep(kept, ops, i);
        var step;
        step, out := TranslateOne(table, vops, out, ops[i]);
        if step.Err? {
          return Err(step.error), table, out;
        }
        table, vops := step.value.0, step.value.1;
      }
      return Ok(vops), table, out;
    }

    lemma StartTranslating(ops: seq<Operation>)
      requires Valid()
      ensures Translating(map[], Nothing(kept))
      ensures ApplyFastAll(kept, ops[..0]) == kept
    {
      assert RowsOf(vault.docs).Keys == vault.docs.Keys;
      hide RowsOf, AllSealed, Represents, Translated;
      TranslatedNothing(ids, next, RowsOf(vault.docs), kept);
    }

    /** Only faults can make it fail; it then stops after some operation.  A list that comes out empty is no error. */
    method FastBatchUsingBatchExtension(ops: seq<Operation>) returns (r: Result<()>)
      requires Valid() && KeysPresent(ops) && forall op | op in ops :: ReservedFree(op.tags)
      modifies this, vault
      ensures Valid() && Blames(old(Faults()), r, Faults())
      ensures r.Err? ==> r.error in {FormatFailed, Unavailable}
      ensures r.Ok? ==> kept == ApplyFastAll(old(kept), ops)
      ensures exists n :: 0 <= n <= |ops| && kept == ApplyFastAll(old(kept), ops[..n])
    {
      hide Houses, RowsOf, RowOf, Sealed, RowOperationOf, Translated, ApplyFastAll, ApplyVaultAll, ApplyRows, ReservedFree;
      ghost var docs, k := vault.docs, kept;
      assert k == ApplyFastAll(k, ops[..0]) by {
        StartTranslating(ops);
      }
      var vops, resolved, out := CreateVaultOperationsUsingNonDeterministicIDs(ops);
      if vops.Err? {
        return Err(vops.error);
      }
      r := vault.Batch(vops.value);
      ghost var n := |vops.value|;
      assert vops.value[..n] == vops.value && ops[..|ops|] == ops;
      if r.Err? {
        n :| 0 <= n <= |vops.value| && vault.docs == ApplyVaultAll(docs, vops.value[..n]);
      }
      kept := out.After(n);
      RanTo(resolved, out, vops.value, docs, k, n);
      assert kept == ApplyFastAll(k, ops[..out.at[n]]);
    }

    /** The store after the first `n` operations of the list. */
    lemma RanTo(resolved: map<string, string>, out: Output<Kept>, vops: seq<VaultOperation>, docs: Documents, k: Keeping,
                n: nat)
      requires formatter.mac.Valid() && ids.Valid() && Houses(formatter, docs, k)
      requires Translated(ids, next, RowsOf(docs), resolved, out)
      requires Carries(formatter, vops, out.ops) && n <= |vops|
      requires vault.docs == ApplyVaultAll(docs, vops[..n]) && kept == out.After(n)
      ensures Valid()
      ensures n < |out.at| && out.at[n] < |out.states| && (n == |vops| ==> out.at[n] == |out.states| - 1)
    {
      hide RowOf, Sealed, RowOperationOf, Represents, ApplyRows, ApplyVaultAll;
      TranslatedPrefix(ids, next, RowsOf(docs), resolved, out, n);
      RunsOnRows(formatter, docs, vops, out.ops, n);
      assert RowsOf(vault.docs).Keys == vault.docs.Keys;
    }

    /** Without faults a batch succeeds exactly when there are operations and all keys are there. */
    method Batch(ops: seq<Operation>) returns (r: Result<()>)
      requires Valid() && forall op | op in ops :: ReservedFree(op.tags)
      modifies this, vault
      ensures Valid() && Blames(old(Faults()), r, Faults())
      ensures BatchMeets(old(Contents()), ops, Contents(), r)
      ensures r.Err? ==> r.error in {EmptyBatch, EmptyKey, FormatFailed, Unavailable}
      ensures r == Err(EmptyBatch) <==> ops == []
      ensures r == Err(EmptyKey) <==> !KeysPresent(ops)
      ensures r.Err? && !r.error.IsFault() ==> kept == old(kept)
      ensures r.Ok? ==>
                kept == if batchEndpointExtensionEnabled then ApplyFastAll(old(kept), ops) else ApplySlowAll(old(kept), ops)
    {
      hide Valid, ReservedFree, ApplyAll, ApplyFastAll, ApplySlowAll;
      PrefixNone(Contents(), ops);
      if |ops| == 0 {
        return Err(EmptyBatch);
      }
      for i := 0 to |ops|
        invariant forall op | op in ops[..i] :: op.key != ""
      {
        if ops[i].key == "" {
          assert ops[i] in ops;
          return Err(EmptyKey);
        }
      }
      assert ops[..|ops|] == ops;
      ghost var k := kept;
      ghost var n;
      if batchEndpointExtensionEnabled {
        r := FastBatchUsingBatchExtension(ops);
        n :| 0 <= n <= |ops| && kept == ApplyFastAll(k, ops[..n]);
      } else {
        r := SlowBatchUsingStandardEndpoints(ops);
        n :| 0 <= n <= |ops| && kept == ApplySlowAll(k, ops[..n]);
      }
      PlainAfter(k, ops[..n]);
      PlainAfter(k, ops);
    }
  }

  /** The same batch, once as vault operations and once over the standard endpoints.  Unless something outside fails, both
      succeed and the two vaults stand for one and the same map, although their identifiers differ; only the sealing of
      new documents tells them apart. */
  method BothWays(fast: RestStore, slow: RestStore, ops: seq<Operation>)
    returns (r1: Result<()>, r2: Result<()>, ghost m: Contents)
    requires fast.Valid() && slow.Valid() && fast != slow && fast.vault != slow.vault && fast.Contents() == slow.Contents()
    requires KeysPresent(ops) && forall op | op in ops :: ReservedFree(op.tags)
    modifies fast, fast.vault, slow, slow.vault
    ensures fast.Valid() && slow.Valid()
    ensures m == ApplyAll(old(fast.Contents()), ops)
    ensures fast.Faults() == old(fast.Faults()) ==> r1.Ok? && fast.Contents() == m
    ensures slow.Faults() == old(slow.Faults()) ==> r2.Ok? && slow.Contents() == m
    ensures Represents(RowsOf(fast.vault.docs), fast.kept) && Represents(RowsOf(slow.vault.docs), slow.kept)
    ensures forall id | id in fast.vault.docs :: fast.vault.docs[id].id == id
    ensures forall id | id in slow.vault.docs :: slow.vault.docs[id].id == id
  {
    m := ApplyAll(fast.Contents(), ops);
    PlainAfter(fast.kept, ops);
    PlainAfter(slow.kept, ops);
    r1 := fast.FastBatchUsingBatchExtension(ops);
    r2 := slow.SlowBatchUsingStandardEndpoints(ops);
  }
}
