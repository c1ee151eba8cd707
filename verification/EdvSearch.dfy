/** Searching a vault with a query expression and reading what it finds. */
module EdvSearch {
  import opened Spi
  import opened TagQuery
  import opened Rehome
  import opened EdvFormatter
  import opened EdvQuery
  import opened EdvStore

  /** Either the documents themselves, or identifiers whose documents are fetched one by one. */
  class RestIterator {
    const vault: Vault
    const documentIDs: seq<string>
    const documents: Option<seq<Document>>
    var currentIndex: nat
    var currentKey: string
    var currentValue: Bytes
    var currentTags: seq<Tag>

    ghost function Size(): nat {
      if documents.Some? then |documents.value| else |documentIDs|
    }

    /** The step with this index has a document to give, as things stand in the vault. */
    ghost predicate Has(i: nat)
      reads vault`docs
    {
      i < Size() && (documents.None? ==> documentIDs[i] in vault.docs)
    }

    ghost function At(i: nat): Document
      requires Has(i)
      reads vault`docs
    {
      if documents.Some? then documents.value[i] else vault.docs[documentIDs[i]]
    }

    /** Whatever it gives was sealed by the store. */
    ghost predicate GivesSealed(f: Formatter)
      reads vault`docs
    {
      forall i | Has(i) :: Sealed(f, At(i).id, At(i))
    }

    ghost predicate Valid()
      reads `currentIndex
    {
      currentIndex <= Size() && (documents.Some? ==> documentIDs == [])
    }

    ghost predicate Shows(doc: Document)
      reads this
    {
      currentKey == doc.content.key && currentValue == doc.content.value && currentTags == doc.content.tags
    }

    constructor (vault: Vault, documentIDs: seq<string>, documents: Option<seq<Document>>)
      requires documents.Some? ==> documentIDs == []
      ensures Valid() && currentIndex == 0
      ensures this.vault == vault && this.documentIDs == documentIDs && this.documents == documents
    {
      this.vault, this.documentIDs, this.documents := vault, documentIDs, documents;
      currentIndex, currentKey, currentValue, currentTags := 0, "", [], [];
    }

    /** A document that is gone, or a server that does not answer, is an error and can be tried again. */
    method Next() returns (r: Result<bool>)
      requires Valid()
      modifies this, vault`faults
      ensures Valid() && Blames(old(vault.faults), r, vault.faults)
      ensures r == Ok(false) ==> old(currentIndex) == Size()
      ensures r == Ok(true) ==> Has(old(currentIndex)) && Shows(At(old(currentIndex)))
      ensures currentIndex == old(currentIndex) + if r == Ok(true) then 1 else 0
      ensures r == Err(DataNotFound) ==> currentIndex < Size() && !Has(currentIndex)
      ensures r.Err? ==> r.error in {DataNotFound, Unavailable}
      ensures documents.Some? ==> r.Ok?
    {
      var have := if documents.Some? then |documents.value| else 0;
      if |documentIDs| == currentIndex || |documentIDs| == 0 {
        if have == currentIndex || have == 0 {
          return Ok(false);
        }
      }
      var doc;
      if documents.Some? {
        doc := documents.value[currentIndex];
      } else {
        var read := vault.Read(documentIDs[currentIndex]);
        if read.Err? {
          return Err(read.error);
        }
        doc := read.value;
      }
      currentKey, currentValue, currentTags := doc.content.key, doc.content.value, doc.content.tags;
      currentIndex := currentIndex + 1;
      return Ok(true);
    }

    method Value() returns (value: Bytes)
      ensures value == currentValue
    {
      return currentValue;
    }

    /** Filters by the key that the document was sealed with. */
    method Tags() returns (tags: seq<Tag>)
      ensures tags == Filtered(currentTags, KeyTag(currentKey))
    {
      tags := FilterOutKeyTag(currentTags, KeyTag(currentKey));
    }
  }

  /** What an iterator shows of a key: its value and tags.  If the document was sealed blank, the key tag shows too, and
      in its place a tag that is blank all through is left out. */
  function Shown(row: Row<Kept>): (Bytes, seq<Tag>) {
    var e := row.entry.entry;
    (e.value, if row.entry.blank then Filtered(e.tags, KeyTag("")) + [KeyTag(row.key)] else e.tags)
  }

  /** Filtering by the key that the document was sealed with leaves the user's tags, and beside them the key tag exactly
      when that key is blank. */
  lemma ShownTagsOf(f: Formatter, doc: Document)
    requires Sealed(f, doc.id, doc)
    ensures (doc.content.value, Filtered(doc.content.tags, KeyTag(doc.content.key))) == Shown(RowOf(doc))
  {
    var row := RowOf(doc);
    var tags, all := row.entry.entry.tags, row.entry.entry.tags + [KeyTag(row.key)];
    assert all[..|all| - 1] == tags;
    assert row.entry.blank <==> doc.content.key != row.key;
    if !row.entry.blank {
      FilteredKeepsOthers(tags, KeyTag(row.key));
      assert tags + [] == tags;
    }
  }

  /** A fast batch that puts a new key makes its key tag show; the same put by itself, or put twice, does not. */
  lemma FastPutShowsKeyTag(kept: Keeping, key: string, value: Bytes, tags: seq<Tag>)
    requires key !in kept
    ensures var put := Operation(key, Some(value), tags);
            && Shown(Row(key, ApplyFastAll(kept, [put])[key])) == (value, Filtered(tags, KeyTag("")) + [KeyTag(key)])
            && Shown(Row(key, ApplyFastAll(kept, [put, put])[key])) == (value, tags)
            && Shown(Row(key, ApplySlow(kept, put)[key])) == (value, tags)
  {
    var put := Operation(key, Some(value), tags);
    assert [put][..0] == [] && [put, put][..1] == [put];
    assert ApplyFastAll(kept, [put]) == ApplyFast(kept, put);
  }

  // ----- which keys a query finds ----------------------------------------------------------------------------

  predicate NamesNothingReserved(alternatives: seq<seq<Criterion>>) {
    forall i, c | 0 <= i < |alternatives| && c in alternatives[i] :: c.name != ""
  }

  /** An expression that does not use the blank name does not see the key tag. */
  lemma KeyTagUnseen(tags: seq<Tag>, key: string, alternatives: seq<seq<Criterion>>)
    requires NamesNothingReserved(alternatives)
    ensures ExpressionMatches(tags + [KeyTag(key)], alternatives) <==> ExpressionMatches(tags, alternatives)
  {
    var all := tags + [KeyTag(key)];
    forall i | 0 <= i < |alternatives|
      ensures MatchesAll(all, LastByName(alternatives[i])) <==> MatchesAll(tags, LastByName(alternatives[i]))
    {
      var wanted := LastByName(alternatives[i]);
      forall n | n in wanted
        ensures Matches(all, Criterion(n, wanted[n])) <==> Matches(tags, Criterion(n, wanted[n]))
      {
        var j := LastCriterionOf(alternatives[i], n);
        assert alternatives[i][j] in alternatives[i];
        assert forall t :: t in all <==> t in tags || t == KeyTag(key);
      }
    }
  }

  /** The found rows are those of exactly the keys whose tags, the key tag included, match the expression. */
  ghost predicate Finds(kept: Keeping, alternatives: seq<seq<Criterion>>, rows: seq<Row<Kept>>) {
    && (forall i, j | 0 <= i < j < |rows| :: rows[i].key != rows[j].key)
    && (forall i | 0 <= i < |rows| :: rows[i].key in kept && rows[i].entry == kept[rows[i].key])
    && (forall k | k in kept ::
          (exists i :: 0 <= i < |rows| && rows[i].key == k) <==>
          ExpressionMatches(kept[k].entry.tags + [KeyTag(k)], alternatives))
  }

  /** Without blank names, the found keys are those whose own tags match. */
  lemma FindsByUserTags(kept: Keeping, alternatives: seq<seq<Criterion>>, rows: seq<Row<Kept>>, k: string)
    requires Finds(kept, alternatives, rows) && NamesNothingReserved(alternatives)
    ensures (exists i :: 0 <= i < |rows| && rows[i].key == k) <==>
            k in kept && ExpressionMatches(kept[k].entry.tags, alternatives)
  {
    if k in kept {
      KeyTagUnseen(kept[k].entry.tags, k, alternatives);
    }
  }

  ghost function RowsAt(docs: Documents, ids: seq<string>): (rows: seq<Row<Kept>>)
    requires forall id | id in ids :: id in docs
    ensures |rows| == |ids| && forall i | 0 <= i < |ids| :: rows[i] == RowOf(docs[ids[i]])
  {
    seq(|ids|, i requires 0 <= i < |ids| => assert ids[i] in ids; RowOf(docs[ids[i]]))
  }

  lemma FoundRows(f: Formatter, docs: Documents, kept: Keeping, alternatives: seq<seq<Criterion>>, q: Query, ids: seq<string>)
    requires Houses(f, docs, kept)
    requires forall tags :: QueryMatches(f.FormattedTags(tags), q) <==> ExpressionMatches(tags, alternatives)
    requires forall i, j | 0 <= i < j < |ids| :: ids[i] != ids[j]
    requires forall id :: id in ids <==> id in docs && QueryMatches(docs[id].attributes, q)
    ensures Finds(kept, alternatives, RowsAt(docs, ids))
  {
    hide QueryMatches, ExpressionMatches, RowOf, Sealed;
    var rows, all := RowsAt(docs, ids), RowsOf(docs);
    assert forall i | 0 <= i < |ids| :: ids[i] in ids && rows[i] == all[ids[i]];
    forall k | k in kept
      ensures (exists i :: 0 <= i < |rows| && rows[i].key == k) <==>
              ExpressionMatches(kept[k].entry.tags + [KeyTag(k)], alternatives)
    {
      var home :| home in all && all[home].key == k;
      MatchesSealed(f, home, docs[home], alternatives, q);
      if home in ids {
        var i :| 0 <= i < |ids| && ids[i] == home;
        assert rows[i].key == k;
      }
    }
  }

  lemma MatchesSealed(f: Formatter, id: string, doc: Document, alternatives: seq<seq<Criterion>>, q: Query)
    requires Sealed(f, id, doc)
    requires forall tags :: QueryMatches(f.FormattedTags(tags), q) <==> ExpressionMatches(tags, alternatives)
    ensures var row := RowOf(doc);
            QueryMatches(doc.attributes, q) <==> ExpressionMatches(row.entry.entry.tags + [KeyTag(row.key)], alternatives)
  {
  }

  // ----- searching and reading -------------------------------------------------------------------------------

  /** The iterator has just the documents of `rows` to give, in order. */
  ghost predicate Holds(it: RestIterator, rows: seq<Row<Kept>>)
    reads it.vault`docs
  {
    it.Size() == |rows| && forall i | 0 <= i < |rows| :: it.Has(i) && RowOf(it.At(i)) == rows[i]
  }

  /** Compiles the expression, asks the vault, and gives an iterator over what it found.  Only a malformed expression or
      a fault can make it fail. */
  method Query(store: RestStore, expression: string) returns (r: Result<RestIterator>, ghost rows: seq<Row<Kept>>)
    requires store.Valid()
    modifies store.vault`faults
    ensures Blames(old(store.Faults()), r, store.Faults())
    ensures r == Err(BadExpression) <==> ParseExpression(expression).None?
    ensures r.Err? ==> r.error in {BadExpression, Unavailable}
    ensures r.Ok? ==> fresh(r.value) && r.value.vault == store.vault && r.value.Valid() && r.value.currentIndex == 0
    ensures r.Ok? ==> Holds(r.value, rows) && r.value.GivesSealed(store.formatter)
    ensures r.Ok? ==> Finds(store.kept, ParseExpression(expression).value, rows)
  {
    hide RowOf, RowsOf, Sealed, ParseExpression, ExpressionMatches, QueryMatches, Finds, Represents;
    rows := [];
    var q := GenerateEDVQuery(store.formatter, expression);
    if q.Err? {
      return Err(q.error), rows;
    }
    if store.returnFullDocumentsOnQuery {
      var documents;
      ghost var ids;
      documents, ids := store.vault.QueryDocuments(q.value);
      if documents.Err? {
        return Err(documents.error), rows;
      }
      FoundRows(store.formatter, store.vault.docs, store.kept, ParseExpression(expression).value, q.value, ids);
      rows := RowsAt(store.vault.docs, ids);
      var it := new RestIterator(store.vault, [], Some(documents.value));
      SealedAt(store.formatter, store.vault.docs, store.kept, ids);
      return Ok(it), rows;
    }
    var ids := store.vault.Query(q.value);
    if ids.Err? {
      return Err(ids.error), rows;
    }
    FoundRows(store.formatter, store.vault.docs, store.kept, ParseExpression(expression).value, q.value, ids.value);
    rows := RowsAt(store.vault.docs, ids.value);
    var it := new RestIterator(store.vault, ids.value, None);
    SealedAt(store.formatter, store.vault.docs, store.kept, ids.value);
    return Ok(it), rows;
  }

  lemma SealedAt(f: Formatter, docs: Documents, kept: Keeping, ids: seq<string>)
    requires Houses(f, docs, kept) && forall id | id in ids :: id in docs
    ensures forall i | 0 <= i < |ids| :: ids[i] in docs && Sealed(f, docs[ids[i]].id, docs[ids[i]])
  {
    forall i | 0 <= i < |ids|
      ensures ids[i] in docs && Sealed(f, docs[ids[i]].id, docs[ids[i]])
    {
      assert ids[i] in ids;
    }
  }

  /** Reads to the end.  The vault may have changed since the query: what is shown is what the iterator can get now, and
      only a document that is gone, or a fault, makes the reading fail. */
  method ReadAll(it: RestIterator, ghost f: Formatter) returns (r: Result<seq<(Bytes, seq<Tag>)>>)
    requires it.Valid() && it.currentIndex == 0 && it.GivesSealed(f)
    modifies it, it.vault`faults
    ensures Blames(old(it.vault.faults), r, it.vault.faults)
    ensures r.Err? ==> r.error in {DataNotFound, Unavailable}
    ensures r == Err(DataNotFound) ==> exists i: nat :: i < it.Size() && !it.Has(i)
    ensures r.Ok? ==> |r.value| == it.Size()
    ensures r.Ok? ==> forall i: nat | i < it.Size() :: it.Has(i) && r.value[i] == Shown(RowOf(it.At(i)))
  {
    hide RowOf, Sealed, Shown, Filtered;
    var read: seq<(Bytes, seq<Tag>)> := [];
    while true
      invariant it.Valid() && |read| == it.currentIndex && it.vault.faults >= old(it.vault.faults)
      invariant forall i: nat | i < |read| :: it.Has(i) && read[i] == Shown(RowOf(it.At(i)))
      decreases it.Size() - it.currentIndex
    {
      ghost var at := it.currentIndex;
      var more := it.Next();
      if more.Err? {
        return Err(more.error);
      }
      if !more.value {
        break;
      }
      var value := it.Value();
      var tags := it.Tags();
      ShownTagsOf(f, it.At(at));
      read := read + [(value, tags)];
    }
    return Ok(read);
  }

  /** Asking and reading at one go shows, for every expression, exactly the entries that match it. */
  method QueryAndReadAll(store: RestStore, expression: string)
    returns (r: Result<seq<(Bytes, seq<Tag>)>>, ghost rows: seq<Row<Kept>>)
    requires store.Valid()
    modifies store.vault`faults
    ensures Blames(old(store.Faults()), r, store.Faults())
    ensures r == Err(BadExpression) <==> ParseExpression(expression).None?
    ensures r.Err? ==> r.error in {BadExpression, Unavailable}
    ensures r.Ok? ==> Finds(store.kept, ParseExpression(expression).value, rows)
    ensures r.Ok? ==> |r.value| == |rows| && forall i | 0 <= i < |rows| :: r.value[i] == Shown(rows[i])
  {
    hide ParseExpression, Finds, Shown, RowOf, Sealed, RestStore.Valid;
    var it;
    it, rows := Query(store, expression);
    if it.Err? {
      return Err(it.error), rows;
    }
    r := ReadAll(it.value, store.formatter);
  }
}
