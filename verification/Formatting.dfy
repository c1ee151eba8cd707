/** What a formatter does to keys, values and tags, and how formatted entries are read back. */
module Formatting {
  import opened Spi
  import opened TagQuery
  import opened Rehome

  const KEY_TAG_NAME := "Key"

  predicate Plain(s: string) { ':' !in s && '&' !in s }

  /** `formatKey` is used only with deterministic keys.  It and `formatTag` are injective, with inverses `keyOf`
      and `tagOf` that only the proofs use; `encodeKey` and `decodeKey` are the base64 coding of the key tag's value. */
  datatype Formatter = Formatter(
    deterministic: bool,
    formatKey: string -> string,
    keyOf: string -> string,
    formatTag: Tag -> Tag,
    tagOf: Tag -> Tag,
    formatValue: (string, string, Bytes, seq<Tag>) -> Bytes,
    deformat: (string, Bytes, seq<Tag>) -> (string, Bytes, seq<Tag>),
    encodeKey: string -> string,
    decodeKey: string -> string)
  {
    function FormatTags(tags: seq<Tag>): (r: seq<Tag>)
      ensures |r| == |tags| && forall i | 0 <= i < |tags| :: r[i] == formatTag(tags[i])
    {
      seq(|tags|, i requires 0 <= i < |tags| => formatTag(tags[i]))
    }

    ghost predicate KeysValid() {
      && (forall k :: keyOf(formatKey(k)) == k)
      && (forall k :: k != "" ==> formatKey(k) != "")
      && (forall k :: decodeKey(encodeKey(k)) == k && Plain(encodeKey(k)))
      && (forall k :: k != "" ==> encodeKey(k) != "")
    }

    ghost predicate TagsValid() {
      && (forall t: Tag :: tagOf(formatTag(t)) == t)
      && (forall t: Tag :: t.value != "" ==> formatTag(t).value != "")
      && (forall t: Tag :: ColonFree(t.name) && ColonFree(t.value) ==>
            ColonFree(formatTag(t).name) && ColonFree(formatTag(t).value))
      && (forall t: Tag :: Plain(t.name) && Plain(t.value) ==> Plain(formatTag(t).name) && Plain(formatTag(t).value))
    }

    /** Formatted values give back the value, and together with the formatted tags also the tags. */
    ghost predicate ValuesValid() {
      forall k, id, v, ts, fk ::
        && deformat(fk, formatValue(k, id, v, ts), FormatTags(ts)).1 == v
        && deformat(fk, formatValue(k, id, v, ts), FormatTags(ts)).2 == ts
        && deformat("", formatValue(k, id, v, ts), []).1 == v
    }

    ghost predicate Valid() {
      KeysValid() && TagsValid() && ValuesValid()
    }

    function KeyTag(key: string): Tag {
      Tag(KEY_TAG_NAME, encodeKey(key))
    }

    /** The tag is what some key would be searched by. */
    predicate IsKeyTag(t: Tag) {
      t.name == KEY_TAG_NAME && encodeKey(decodeKey(t.value)) == t.value
    }

    /** User tags may not look like key tags. */
    predicate ReservedFree(tags: seq<Tag>) {
      forall t | t in tags :: !IsKeyTag(t)
    }

    lemma KeyTagReserved(key: string)
      requires Valid()
      ensures IsKeyTag(KeyTag(key))
    {
      assert decodeKey(encodeKey(key)) == key;
    }

    lemma KeyTagNonblank(key: string)
      requires Valid() && key != ""
      ensures formatTag(KeyTag(key)).value != ""
    {
      assert KeyTag(key).value != "";
    }

    lemma KeyTagInjective(k1: string, k2: string)
      requires Valid() && KeyTag(k1) == KeyTag(k2)
      ensures k1 == k2
    {
      assert decodeKey(KeyTag(k1).value) == k1 && decodeKey(KeyTag(k2).value) == k2;
    }

    lemma FormatTagInjective(t1: Tag, t2: Tag)
      requires Valid() && formatTag(t1) == formatTag(t2)
      ensures t1 == t2
    {
      assert t1 == tagOf(formatTag(t1));
    }

    lemma FormattedPlain(tag: Tag)
      requires Valid() && Plain(tag.name) && Plain(tag.value)
      ensures Plain(formatTag(tag).name) && Plain(formatTag(tag).value)
    {
    }

    lemma FormattedColonFree(tags: seq<Tag>)
      requires Valid() && ColonFreeTags(tags)
      ensures ColonFreeTags(FormatTags(tags))
    {
      var fts := FormatTags(tags);
      forall t | t in fts
        ensures ColonFree(t.name) && ColonFree(t.value)
      {
        var i :| 0 <= i < |fts| && fts[i] == t;
        assert tags[i] in tags;
      }
    }

    lemma WithKeyTagColonFree(tags: seq<Tag>, key: string)
      requires Valid() && ColonFreeTags(tags)
      ensures ColonFreeTags(tags + [KeyTag(key)])
    {
      var t := KeyTag(key);
      assert Plain(t.value) && ColonFree(t.name);
      assert forall x | x in tags + [t] :: x in tags || x == t;
    }

    /** `e` is some formatting of the value and tags; the key and identifier written into it do not matter. */
    ghost predicate Encodes(e: Entry, value: Bytes, tags: seq<Tag>) {
      && e.tags == FormatTags(tags)
      && exists k, id :: e.value == formatValue(k, id, value, tags)
    }

    lemma EncodesReadsBack(e: Entry, value: Bytes, tags: seq<Tag>, fk: string)
      requires Valid() && Encodes(e, value, tags)
      ensures deformat(fk, e.value, e.tags).1 == value && deformat(fk, e.value, e.tags).2 == tags
      ensures deformat("", e.value, []).1 == value
    {
      var k, id :| e.value == formatValue(k, id, value, tags);
    }

    // ----- deterministic keys ------------------------------------------------------------------

    ghost predicate StandsUnder(db: Contents, m: Contents) {
      && (forall k | k in m ::
            k != "" && formatKey(k) in db && Encodes(db[formatKey(k)], m[k].value, m[k].tags))
      && (forall id | id in db :: keyOf(id) in m && formatKey(keyOf(id)) == id)
    }

    /** One formatted operation does to the stored entries what the plain operation does to the map. */
    lemma DeterministicStep(db: Contents, m: Contents, op: Operation, fop: Operation)
      requires Valid() && StandsUnder(db, m) && op.key != ""
      requires fop.key == formatKey(op.key) && (fop.value.Some? <==> op.value.Some?)
      requires op.value.Some? ==> Encodes(Entry(fop.value.value, fop.tags), op.value.value, op.tags)
      ensures StandsUnder(Apply(db, fop), Apply(m, op))
    {
      hide Formatter.TagsValid, Formatter.ValuesValid, Formatter.Encodes;
      var db', m' := Apply(db, fop), Apply(m, op);
      forall k | k in m'
        ensures k != "" && formatKey(k) in db' && Encodes(db'[formatKey(k)], m'[k].value, m'[k].tags)
      {
        if k != op.key {
          assert k in m && keyOf(formatKey(k)) == k;
          assert db'[formatKey(k)] == db[formatKey(k)];
        }
      }
    }

    lemma {:induction false} DeterministicBatch(db: Contents, m: Contents, ops: seq<Operation>, fops: seq<Operation>)
      requires Valid() && StandsUnder(db, m) && KeysPresent(ops) && |fops| == |ops|
      requires forall i | 0 <= i < |ops| ::
                 && fops[i].key == formatKey(ops[i].key) && (fops[i].value.Some? <==> ops[i].value.Some?)
                 && (ops[i].value.Some? ==>
                       Encodes(Entry(fops[i].value.value, fops[i].tags), ops[i].value.value, ops[i].tags))
      ensures StandsUnder(ApplyAll(db, fops), ApplyAll(m, ops))
      decreases |ops|
    {
      hide Formatter.Valid, Formatter.StandsUnder;
      if ops != [] {
        var n := |ops| - 1;
        assert forall op | op in ops[..n] :: op in ops;
        DeterministicBatch(db, m, ops[..n], fops[..n]);
        assert ops[n] in ops;
        DeterministicStep(ApplyAll(db, fops[..n]), ApplyAll(m, ops[..n]), ops[n], fops[n]);
      }
    }

    // ----- random keys -----------------------------------------------------------------------------

    ghost function RowOf(e: Entry): Row<Entry> {
      var d := deformat("", e.value, e.tags);
      if d.2 == [] then Row("", Entry(d.1, []))
      else Row(decodeKey(d.2[|d.2| - 1].value), Entry(d.1, d.2[..|d.2| - 1]))
    }

    ghost function RowsOf(db: Contents): Rows<Entry> {
      map id | id in db :: RowOf(db[id])
    }

    ghost predicate Tagged(e: Entry) {
      var row := RowOf(e);
      && row.key != "" && ReservedFree(row.entry.tags)
      && Encodes(e, row.entry.value, row.entry.tags + [KeyTag(row.key)])
    }

    lemma EncodedRow(e: Entry, key: string, value: Bytes, tags: seq<Tag>)
      requires Valid() && key != "" && ReservedFree(tags)
      requires Encodes(e, value, tags + [KeyTag(key)])
      ensures Tagged(e) && RowOf(e) == Row(key, Entry(value, tags))
    {
      var all := tags + [KeyTag(key)];
      EncodesReadsBack(e, value, all, "");
      assert all[..|all| - 1] == tags;
    }

    /** The stored entries of a random-key store stand for `m`. */
    ghost predicate Houses(db: Contents, m: Contents) {
      AllTagged(db) && Represents(RowsOf(db), m)
    }

    ghost predicate AllTagged(db: Contents) {
      "" !in db && forall id | id in db :: Tagged(db[id])
    }

    lemma HousedHome(db: Contents, m: Contents, key: string, id: string)
      requires Houses(db, m) && Home(RowsOf(db), key, id)
      ensures key in m <==> id != ""
      ensures id != "" ==> id in db && RowOf(db[id]).key == key
    {
      HomeOfAbsent(RowsOf(db), m, key, id);
    }

    function KeyCriterion(key: string): Criterion {
      var t := formatTag(KeyTag(key));
      Criterion(t.name, t.value)
    }

    /** Searching for a key finds an entry exactly when the entry carries that key's tag: as the tag that was
        appended for its own key, or because a user tag looks like one. */
    lemma SearchHits(e: Entry, key: string, own: string, value: Bytes, tags: seq<Tag>)
      requires Valid() && key != "" && Encodes(e, value, tags + [KeyTag(own)])
      ensures Matches(e.tags, KeyCriterion(key)) <==> key == own || KeyTag(key) in tags
    {
      hide Formatter.Valid;
      var all, c := tags + [KeyTag(own)], KeyCriterion(key);
      KeyTagNonblank(key);
      if Matches(e.tags, c) {
        var t :| t in e.tags && TagMatches(t, c);
        var i :| 0 <= i < |all| && e.tags[i] == t;
        FormatTagInjective(all[i], KeyTag(key));
        if i == |tags| { KeyTagInjective(own, key); }
      }
      if KeyTag(key) in all {
        var i :| 0 <= i < |all| && all[i] == KeyTag(key);
        assert e.tags[i] in e.tags && TagMatches(e.tags[i], c);
      }
      assert all[|tags|] == KeyTag(own);
    }

    /** An entry whose user tag is another key's tag is found by a search for that key. */
    lemma ForgedKeyTagFound(e: Entry, own: string, other: string, value: Bytes)
      requires Valid() && own != "" && other != "" && other != own
      requires Encodes(e, value, [Tag("Key", encodeKey(other))] + [KeyTag(own)])
      ensures Matches(e.tags, KeyCriterion(own)) && Matches(e.tags, KeyCriterion(other))
    {
      SearchHits(e, own, own, value, [KeyTag(other)]);
      SearchHits(e, other, own, value, [KeyTag(other)]);
    }

    lemma SearchIsExact(e: Entry, key: string)
      requires Valid() && key != "" && Tagged(e)
      ensures Matches(e.tags, KeyCriterion(key)) <==> RowOf(e).key == key
    {
      var row := RowOf(e);
      SearchHits(e, key, row.key, row.entry.value, row.entry.tags);
    }

    lemma RowsOfUpdate(db: Contents, id: string, e: Entry)
      ensures RowsOf(db[id := e]) == RowsOf(db)[id := RowOf(e)]
      ensures RowsOf(db - {id}) == RowsOf(db) - {id}
    {
    }

    lemma HousePut(db: Contents, m: Contents, id: string, e: Entry)
      requires Houses(db, m) && id != "" && Tagged(e)
      requires if id in db then RowOf(db[id]).key == RowOf(e).key else RowOf(e).key !in m
      ensures Houses(db[id := e], m[RowOf(e).key := RowOf(e).entry])
    {
      var db' := db[id := e];
      forall i | i in db'
        ensures Tagged(db'[i])
      {
        assert db'[i] == if i == id then e else db[i];
      }
      assert Represents(RowsOf(db'), m[RowOf(e).key := RowOf(e).entry]) by {
        RowsOfUpdate(db, id, e);
        SetRow(RowsOf(db), m, id, RowOf(e));
      }
    }

    lemma HouseDelete(db: Contents, m: Contents, id: string)
      requires Houses(db, m) && id in db
      ensures Houses(db - {id}, m - {RowOf(db[id]).key})
    {
      RowsOfUpdate(db, id, db[id]);
      DropRow(RowsOf(db), m, id);
    }

    /** At most one stored entry carries the tag of any given key. */
    lemma OneEntryPerKey(db: Contents, m: Contents, key: string, i: string, j: string)
      requires Valid() && Houses(db, m) && key != ""
      requires i in db && Matches(db[i].tags, KeyCriterion(key))
      requires j in db && Matches(db[j].tags, KeyCriterion(key))
      ensures i == j && key in m
    {
      SearchIsExact(db[i], key);
      SearchIsExact(db[j], key);
      assert RowsOf(db)[i].key == key && RowsOf(db)[j].key == key;
    }

    // ----- batches over random keys ------------------------------------------------------------------

    /** An operation on stored entries that a translation may put out. */
    ghost predicate Formatted(fop: Operation) {
      fop.key != "" && (fop.value.Some? ==> Tagged(Entry(fop.value.value, fop.tags)))
    }

    /** What it does to the rows. */
    ghost function RowOperationOf(fop: Operation): RowOperation<Entry> {
      if fop.value.None? then Clear(fop.key) else Place(fop.key, RowOf(Entry(fop.value.value, fop.tags)))
    }

    ghost predicate Carries(fops: seq<Operation>, ops: seq<RowOperation<Entry>>) {
      && |fops| == |ops|
      && forall i | 0 <= i < |fops| :: Formatted(fops[i]) && ops[i] == RowOperationOf(fops[i])
    }

    lemma CarriesKeys(fops: seq<Operation>, ops: seq<RowOperation<Entry>>)
      requires Carries(fops, ops)
      ensures KeysPresent(fops)
    {
    }

    lemma {:induction false} RunsOnRows(db: Contents, fops: seq<Operation>, ops: seq<RowOperation<Entry>>, n: nat)
      requires AllTagged(db) && Carries(fops, ops) && n <= |ops|
      ensures AllTagged(ApplyAll(db, fops[..n])) && RowsOf(ApplyAll(db, fops[..n])) == ApplyRows(RowsOf(db), ops[..n])
      decreases n
    {
      if n == 0 {
        assert fops[..0] == [] && ops[..0] == [];
      } else {
        RunsOnRows(db, fops, ops, n - 1);
        ApplyAllStep(db, fops, n - 1);
        assert ops[..n][..n - 1] == ops[..n - 1];
        StepOnRows(ApplyAll(db, fops[..n - 1]), fops[n - 1]);
      }
    }

    lemma StepOnRows(db: Contents, fop: Operation)
      requires AllTagged(db) && Formatted(fop)
      ensures AllTagged(Apply(db, fop)) && RowsOf(Apply(db, fop)) == ApplyRow(RowsOf(db), RowOperationOf(fop))
    {
      hide Formatter.Tagged, Formatter.RowOf;
      RowsOfUpdate(db, fop.key, if fop.value.None? then Entry([], []) else Entry(fop.value.value, fop.tags));
    }
  }
}
