/** The store that formats keys, values and tags before they reach an underlying store.

    With a deterministic formatter a key is stored under its formatted key.  Otherwise it is stored under a
    random identifier that a search for the key's tag finds again, and a batch is translated as a
    whole before any of it runs. */
module FormattedStore {
  import opened Spi
  import opened TagQuery
  import opened Rehome
  import opened Formatting
  import Mem
  import AnyStore

  datatype Formatted = Formatted(key: string, value: Option<Bytes>, tags: seq<Tag>)

  /** The appended key tag goes, the user's tags stay, whatever other key tag was filtered out before. */
  lemma FilterKeyTag(formatter: Formatter, tags: seq<Tag>, key: string, shown: string)
    requires formatter.Valid() && formatter.ReservedFree(tags)
    ensures Filtered(Filtered(tags + [formatter.KeyTag(key)], formatter.KeyTag(shown)), formatter.KeyTag(key)) == tags
  {
    var own, other := formatter.KeyTag(key), formatter.KeyTag(shown);
    formatter.KeyTagReserved(key);
    formatter.KeyTagReserved(shown);
    var all := tags + [own];
    assert all[..|all| - 1] == tags;
    FilteredKeepsOthers(tags, own);
    FilteredKeepsOthers(tags, other);
    assert Filtered(all, other) == if own == other then tags else all;
  }

  class FormatStore {
    const formatter: Formatter
    const underlying: AnyStore.Store
    const ids: IdSupply
    var next: nat
    /** The map this store stands for. */
    ghost var contents: Contents
    /** How often formatting has failed so far. */
    ghost var faults: nat

    ghost function Faults(): nat
      reads `faults, underlying`faults
    {
      faults + underlying.faults
    }

    ghost predicate Valid()
      reads `next, `contents, underlying`db
    {
      && formatter.Valid() && ids.Valid()
      && if formatter.deterministic then formatter.StandsUnder(underlying.db, contents)
         else formatter.Houses(underlying.db, contents) && ids.Unused(underlying.db.Keys, next)
    }

    constructor (formatter: Formatter, underlying: AnyStore.Store, ids: IdSupply)
      requires formatter.Valid() && ids.Valid() && underlying.db == map[]
      ensures Valid() && contents == map[]
      ensures this.formatter == formatter && this.underlying == underlying
    {
      this.formatter, this.underlying, this.ids, next, contents, faults := formatter, underlying, ids, 0, map[], 0;
    }

    /** Each call with random keys draws an identifier, whether the caller uses it or not. */
    method Format(key: string, value: Option<Bytes>, tags: seq<Tag>) returns (r: Result<Formatted>)
      requires ids.Valid()
      modifies `next, `faults
      ensures next == old(next) + (if formatter.deterministic then 0 else 1)
      ensures r.Err? ==> r.error == FormatFailed
      ensures Blames(old(faults), r, faults)
      ensures r.Ok? ==> r.value.tags == formatter.FormatTags(tags)
      ensures r.Ok? ==> r.value.key == if formatter.deterministic then formatter.formatKey(key) else ids.at(old(next))
      ensures r.Ok? && value.Some? ==>
                r.value.value == Some(formatter.formatValue(key, r.value.key, value.value, tags))
    {
      var id := if formatter.deterministic then formatter.formatKey(key) else ids.at(next);
      next := next + if formatter.deterministic then 0 else 1;
      if * {
        faults := faults + 1;
        return Err(FormatFailed);
      }
      // What comes out for an absent value is up to the formatter.
      var fv: Option<Bytes> := *;
      if value.Some? {
        fv := Some(formatter.formatValue(key, id, value.value, tags));
      }
      return Ok(Formatted(id, fv, formatter.FormatTags(tags)));
    }

    // ----- search by key tag -----------------------------------------------------------------------

    /** `e` is what the underlying store keeps for `key`. */
    ghost predicate Keeps(key: string, e: Entry)
      reads `contents
    {
      && key in contents && formatter.ReservedFree(contents[key].tags)
      && formatter.Encodes(e, contents[key].value, contents[key].tags + [formatter.KeyTag(key)])
    }

    lemma RowsFindHome(rows: seq<Mem.Row>, key: string)
      requires Valid() && !formatter.deterministic && key != ""
      requires var t := formatter.formatTag(formatter.KeyTag(key));
               Mem.RowsMeet(underlying.db, map[t.name := t.value], rows)
      ensures |rows| <= 1 && (|rows| == 0 <==> key !in contents)
      ensures Home(formatter.RowsOf(underlying.db), key, if |rows| == 0 then "" else rows[0].0)
      ensures |rows| == 1 ==> Keeps(key, rows[0].1)
    {
      hide Formatter.Valid, Formatter.StandsUnder, Formatter.Encodes;
      var c := formatter.KeyCriterion(key);
      var wanted := map[c.name := c.value];
      var db, R := underlying.db, formatter.RowsOf(underlying.db);
      forall e: Entry
        ensures MatchesAll(e.tags, wanted) <==> Matches(e.tags, c)
      {
        if MatchesAll(e.tags, wanted) {
          assert c.name in wanted;
        }
      }
      if |rows| >= 1 {
        formatter.SearchIsExact(rows[0].1, key);
        assert R[rows[0].0].key == key;
      }
      if |rows| >= 2 {
        formatter.OneEntryPerKey(db, contents, key, rows[0].0, rows[1].0);
      }
      forall id | id in R && R[id].key == key
        ensures |rows| >= 1
      {
        formatter.SearchIsExact(db[id], key);
      }
    }

    /** The formatted key tag is one criterion of the underlying store's query language. */
    method QueryTag(tag: Tag) returns (r: Result<Mem.Iterator>)
      requires formatter.Valid() && ids.Valid() && Plain(tag.name) && Plain(tag.value)
      modifies `next, `faults, underlying`faults
      ensures next >= old(next) && Blames(old(Faults()), r, Faults())
      ensures r.Err? ==> r.error in {FormatFailed, Unavailable}
      ensures r.Ok? ==> fresh(r.value) && r.value.Valid() && r.value.currentIndex == 0
      ensures r.Ok? ==>
                var t := formatter.formatTag(tag);
                Mem.RowsMeet(underlying.db, map[t.name := t.value], r.value.rows)
    {
      var formatted := Format("", None, [tag]);
      if formatted.Err? {
        return Err(formatted.error);
      }
      var t := formatted.value.tags[0];
      formatter.FormattedPlain(tag);
      ParseNameValue(t.name, t.value);
      r := underlying.Query(t.name + ":" + t.value);
    }

    method QueryUsingKeyTag(key: string) returns (r: Result<Mem.Iterator>)
      requires Valid() && !formatter.deterministic && key != ""
      modifies `next, `faults, underlying`faults
      ensures Valid() && next >= old(next) && Blames(old(Faults()), r, Faults())
      ensures r.Err? ==> r.error in {FormatFailed, Unavailable}
      ensures r.Ok? ==> fresh(r.value) && r.value.Valid() && r.value.currentIndex == 0
      ensures r.Ok? ==> |r.value.rows| <= 1 && (|r.value.rows| == 0 <==> key !in contents)
      ensures r.Ok? ==> Home(formatter.RowsOf(underlying.db), key,
                             if |r.value.rows| == 0 then "" else r.value.rows[0].0)
      ensures r.Ok? && |r.value.rows| == 1 ==> Keeps(key, r.value.rows[0].1)
    {
      assert Plain(KEY_TAG_NAME);
      r := QueryTag(formatter.KeyTag(key));
      if r.Ok? {
        RowsFindHome(r.value.rows, key);
      }
    }

    /** The one entry that carries the key's tag, with the identifier it is stored under. */
    method FindOne(key: string) returns (r: Result<Option<Mem.Row>>)
      requires Valid() && !formatter.deterministic && key != ""
      modifies `next, `faults, underlying`faults
      ensures Valid() && next >= old(next) && Blames(old(Faults()), r, Faults())
      ensures r.Err? ==> r.error in {FormatFailed, Unavailable}
      ensures r.Ok? ==> Home(formatter.RowsOf(underlying.db), key, if r.value.None? then "" else r.value.value.0)
      ensures r.Ok? && r.value.None? ==> key !in contents
      ensures r.Ok? && r.value.Some? ==> Keeps(key, r.value.value.1)
    {
      hide Valid, Keeps, Formatter.RowsOf, Home, Mem.Iterator.Valid;
      var it := QueryUsingKeyTag(key);
      if it.Err? {
        return Err(it.error);
      }
      var more := it.value.Next();
      if !more {
        return Ok(None);
      }
      var id := it.value.Key();
      var value := it.value.Value();
      var tags := it.value.Tags();
      if id.Err? || value.Err? || tags.Err? {
        return Err(IteratorExhausted);
      }
      more := it.value.Next();
      if more {
        return Err(MultipleResults);
      }
      return Ok(Some((id.value, Entry(value.value, tags.value))));
    }

    method GetFormattedKeyViaStoreQuery(key: string) returns (r: Result<string>)
      requires Valid() && !formatter.deterministic && key != ""
      modifies `next, `faults, underlying`faults
      ensures Valid() && next >= old(next) && Blames(old(Faults()), r, Faults())
      ensures r.Err? ==> r.error in {FormatFailed, Unavailable}
      ensures r.Ok? ==> Home(formatter.RowsOf(underlying.db), key, r.value)
    {
      var found := FindOne(key);
      if found.Err? {
        return Err(found.error);
      }
      return Ok(if found.value.None? then "" else found.value.value.0);
    }

    // ----- single operations ------------------------------------------------------------------------

    /** The formatted form of a key's entry.  A key that has a home keeps it, and the home is what gets written into the
        value; a new key goes under the drawn identifier, with the key itself written in. */
    ghost predicate FormattedAs(fop: Operation, key: string, value: Bytes, tags: seq<Tag>, known: bool, drawn: int) {
      var all := tags + [formatter.KeyTag(key)];
      && drawn >= 0 && fop.tags == formatter.FormatTags(all)
      && (!known ==> fop.key == ids.at(drawn))
      && fop.value == Some(formatter.formatValue(if known then fop.key else key, ids.at(drawn), value, all))
    }

    lemma FormattedRow(home: string, f: Formatted, key: string, value: Bytes, tags: seq<Tag>, drawn: int)
      requires formatter.Valid() && key != "" && formatter.ReservedFree(tags) && drawn >= 0 && f.key == ids.at(drawn)
      requires f.tags == formatter.FormatTags(tags + [formatter.KeyTag(key)])
      requires var all := tags + [formatter.KeyTag(key)];
               f.value == Some(formatter.formatValue(if home == "" then key else home, f.key, value, all))
      ensures var e := Entry(f.value.value, f.tags); formatter.Tagged(e) && formatter.RowOf(e) == Row(key, Entry(value, tags))
      ensures FormattedAs(Operation(if home == "" then f.key else home, f.value, f.tags), key, value, tags, home != "", drawn)
    {
      hide Formatter.Valid, Formatter.Tagged, Formatter.RowOf;
      var e, all := Entry(f.value.value, f.tags), tags + [formatter.KeyTag(key)];
      assert formatter.Encodes(e, value, all);
      formatter.EncodedRow(e, key, value, tags);
    }

    /** Stores one formatted entry.  A failing underlying store may have kept it or not. */
    method PutUnder(id: string, value: Option<Bytes>, tags: seq<Tag>, ghost key: string, ghost entry: Entry)
      returns (r: Result<()>, ghost applied: bool)
      requires Valid()
      requires id != "" && key != "" && value.Some? && ColonFreeTags(tags)
      requires formatter.deterministic ==>
                 id == formatter.formatKey(key) && formatter.Encodes(Entry(value.value, tags), entry.value, entry.tags)
      requires !formatter.deterministic ==>
                 && formatter.Tagged(Entry(value.value, tags))
                 && formatter.RowOf(Entry(value.value, tags)) == Row(key, entry)
                 && (if id in underlying.db then formatter.RowOf(underlying.db[id]).key == key else key !in contents)
                 && ids.Unused({id}, next)
      modifies `contents, underlying`db, underlying`faults
      ensures Valid() && Blames(old(Faults()), r, Faults())
      ensures contents == if applied then old(contents)[key := entry] else old(contents)
      ensures applied ==> underlying.db == old(underlying.db)[id := Entry(value.value, tags)]
      ensures r.Ok? ==> applied
      ensures r.Err? ==> r.error == Unavailable
    {
      hide Formatter.Valid, Formatter.Houses, Formatter.StandsUnder, Formatter.RowOf, Formatter.Tagged, Formatter.Encodes;
      ghost var e := Entry(value.value, tags);
      ghost var before := underlying.db;
      r := underlying.Put(id, value, tags);
      if formatter.deterministic {
        formatter.DeterministicStep(before, contents, Operation(key, Some(entry.value), entry.tags),
                                    Operation(id, value, tags));
      } else {
        formatter.HousePut(before, contents, id, e);
      }
      applied := r.Ok? || underlying.db != before;
      contents := if applied then contents[key := entry] else contents;
    }

    /** Deletes one formatted entry, with the same uncertainty on an error. */
    method DeleteUnder(id: string, ghost key: string) returns (r: Result<()>, ghost applied: bool)
      requires Valid() && id != "" && key != ""
      requires formatter.deterministic ==> id == formatter.formatKey(key)
      requires !formatter.deterministic ==> id in underlying.db && formatter.RowOf(underlying.db[id]).key == key
      modifies `contents, underlying`db, underlying`faults
      ensures Valid() && Blames(old(Faults()), r, Faults())
      ensures contents == if applied then old(contents) - {key} else old(contents)
      ensures r.Ok? ==> applied
      ensures r.Err? ==> r.error == Unavailable
    {
      hide Formatter.Valid, Formatter.Houses, Formatter.StandsUnder, Formatter.RowOf;
      ghost var before := underlying.db;
      r := underlying.Delete(id);
      if formatter.deterministic {
        formatter.DeterministicStep(before, contents, Operation(key, None, []), Operation(id, None, []));
      } else {
        formatter.HouseDelete(before, contents, id);
      }
      applied := r.Ok? || underlying.db != before;
      contents := if applied then contents - {key} else contents;
    }

    method Put(key: string, value: Option<Bytes>, tags: seq<Tag>) returns (r: Result<()>)
      requires Valid() && (!formatter.deterministic ==> formatter.ReservedFree(tags))
      modifies this, underlying`db, underlying`faults
      ensures Valid() && Blames(old(Faults()), r, Faults())
      ensures PutMeets(old(contents), key, value, tags, contents, r)
      ensures r.Err? && PutError(key, value, tags).None? ==> r.error in {FormatFailed, Unavailable}
      ensures r.Ok? && formatter.deterministic ==>
                var id := formatter.formatKey(key);
                underlying.db == old(underlying.db)[id := Entry(formatter.formatValue(key, id, value.value, tags),
                                                                formatter.FormatTags(tags))]
    {
      var e := PutError(key, value, tags);
      if e.Some? {
        return Err(e.value);
      }
      if formatter.deterministic {
        var formatted := Format(key, value, tags);
        if formatted.Err? {
          return Err(formatted.error);
        }
        formatter.FormattedColonFree(tags);
        ghost var applied;
        var f := formatted.value;
        r, applied := PutUnder(f.key, f.value, f.tags, key, Entry(value.value, tags));
      } else {
        ghost var applied;
        ghost var fop;
        r, applied, fop := StoreUsingNonDeterministicKey(key, value.value, tags);
      }
    }

    method StoreUsingNonDeterministicKey(key: string, value: Bytes, tags: seq<Tag>)
      returns (r: Result<()>, ghost applied: bool, ghost fop: Operation)
      requires Valid() && !formatter.deterministic && key != "" && ColonFreeTags(tags) && formatter.ReservedFree(tags)
      modifies this, underlying`db, underlying`faults
      ensures Valid() && Blames(old(Faults()), r, Faults())
      ensures contents == if applied then old(contents)[key := Entry(value, tags)] else old(contents)
      ensures r.Ok? ==> applied
      ensures applied ==>
                && FormattedAs(fop, key, value, tags, key in old(contents), next - 1)
                && underlying.db == old(underlying.db)[fop.key := Entry(fop.value.value, fop.tags)]
      ensures r.Err? ==> r.error in {FormatFailed, Unavailable}
    {
      hide Formatter.Valid, Formatter.Houses, Formatter.StandsUnder, Formatter.RowOf, Formatter.Tagged, FormattedAs,
        Formatter.RowsOf, Home, Formatter.ReservedFree;
      var home := GetFormattedKeyViaStoreQuery(key);
      if home.Err? {
        return Err(home.error), false, Operation(key, None, []);
      }
      formatter.HousedHome(underlying.db, contents, key, home.value);
      var all := tags + [formatter.KeyTag(key)];
      // A new key is formatted under itself, an old one under the identifier it already has.
      var formatted := Format(if home.value == "" then key else home.value, Some(value), all);
      if formatted.Err? {
        return Err(formatted.error), false, Operation(key, None, []);
      }
      FormattedRow(home.value, formatted.value, key, value, tags, next - 1);
      var fe := Entry(formatted.value.value.value, formatted.value.tags);
      formatter.WithKeyTagColonFree(tags, key);
      formatter.FormattedColonFree(all);
      var id := if home.value == "" then formatted.value.key else home.value;
      fop := Operation(id, Some(fe.value), fe.tags);
      r, applied := PutUnder(id, Some(fe.value), fe.tags, key, Entry(value, tags));
    }

    method Get(key: string) returns (r: Result<Bytes>)
      requires Valid()
      modifies `next, `faults, underlying`faults
      ensures Valid() && Blames(old(Faults()), r, Faults())
      ensures r.Ok? ==> key in contents && r.value == contents[key].value
      ensures r == Err(DataNotFound) ==> key !in contents
      ensures r.Err? ==> r.error in {EmptyKey, DataNotFound, FormatFailed, Unavailable}
      ensures r == Err(EmptyKey) <==> key == ""
    {
      if key == "" {
        return Err(EmptyKey);
      }
      if formatter.deterministic {
        var formatted := Format(key, None, []);
        if formatted.Err? {
          return Err(formatted.error);
        }
        var fv := underlying.Get(formatted.value.key);
        if fv.Err? {
          return Err(fv.error);
        }
        ghost var e := underlying.db[formatted.value.key];
        formatter.EncodesReadsBack(e, contents[key].value, contents[key].tags, "");
        return Ok(formatter.deformat("", fv.value, []).1);
      }
      var found := FindOne(key);
      if found.Err? {
        return Err(found.error);
      }
      if found.value.None? {
        return Err(DataNotFound);
      }
      var e := found.value.value.1;
      formatter.EncodesReadsBack(e, contents[key].value, contents[key].tags + [formatter.KeyTag(key)], "");
      return Ok(formatter.deformat("", e.value, []).1);
    }

    method GetTags(key: string) returns (r: Result<seq<Tag>>)
      requires Valid()
      modifies `next, `faults, underlying`faults
      ensures Valid() && Blames(old(Faults()), r, Faults())
      ensures r.Ok? ==> key in contents && r.value == contents[key].tags
      ensures r == Err(DataNotFound) ==> key !in contents
      ensures r.Err? ==> r.error in {EmptyKey, DataNotFound, FormatFailed, Unavailable}
      ensures r == Err(EmptyKey) <==> key == ""
    {
      if key == "" {
        return Err(EmptyKey);
      }
      if formatter.deterministic {
        var formatted := Format(key, None, []);
        if formatted.Err? {
          return Err(formatted.error);
        }
        var fts := underlying.GetTags(formatted.value.key);
        if fts.Err? {
          return Err(fts.error);
        }
        var fv := underlying.Get(formatted.value.key);
        if fv.Err? {
          return Err(fv.error);
        }
        ghost var e := underlying.db[formatted.value.key];
        formatter.EncodesReadsBack(e, contents[key].value, contents[key].tags, "");
        return Ok(formatter.deformat("", fv.value, fts.value).2);
      }
      var found := FindOne(key);
      if found.Err? {
        return Err(found.error);
      }
      if found.value.None? {
        return Err(DataNotFound);
      }
      // The iterator filters by the key written in the entry, which is an identifier after an overwrite.
      var (id, e) := found.value.value;
      var plain := formatter.deformat(id, e.value, e.tags);
      formatter.EncodesReadsBack(e, contents[key].value, contents[key].tags + [formatter.KeyTag(key)], id);
      var tags := FilterOutKeyTag(plain.2, formatter.KeyTag(plain.0));
      FilterKeyTag(formatter, contents[key].tags, key, plain.0);
      tags := FilterOutKeyTag(tags, formatter.KeyTag(key));
      return Ok(tags);
    }

    method Delete(key: string) returns (r: Result<()>)
      requires Valid()
      modifies this, underlying`db, underlying`faults
      ensures Valid() && Blames(old(Faults()), r, Faults())
      ensures DeleteMeets(old(contents), key, contents, r)
      ensures r.Err? && key != "" ==> r.error in {FormatFailed, Unavailable}
    {
      hide Formatter.Houses, Formatter.StandsUnder, Formatter.RowOf, Formatter.TagsValid, Formatter.ValuesValid;
      if key == "" {
        return Err(EmptyKey);
      }
      var id: string;
      ghost var applied;
      if formatter.deterministic {
        var formatted := Format(key, None, []);
        if formatted.Err? {
          return Err(formatted.error);
        }
        id := formatted.value.key;
      } else {
        var home := GetFormattedKeyViaStoreQuery(key);
        if home.Err? {
          return Err(home.error);
        }
        formatter.HousedHome(underlying.db, contents, key, home.value);
        if home.value == "" {
          assert contents - {key} == contents;
          return Ok(());
        }
        id := home.value;
      }
      r, applied := DeleteUnder(id, key);
    }

    method Close() returns (r: Result<()>)
      modifies underlying`closed, underlying`faults
      ensures Blames(old(Faults()), r, Faults())
      ensures r.Err? ==> r.error == Unavailable
      ensures r.Ok? ==> underlying.closed
    {
      r := underlying.Close();
    }

    // ----- batches ------------------------------------------------------------------------------------

    /** The rows that a translation starts from. */
    ghost function Stored(): Rows<Entry>
      reads underlying`db
    {
      formatter.RowsOf(underlying.db)
    }

    /** A translation under way, with `out` for what it has put out so far. */
    ghost predicate Translating(resolved: map<string, string>, out: Output<Entry>)
      reads `next, underlying`db
    {
      Translated(ids, next, Stored(), resolved, out)
    }

    /** Where an operation on `key` has to go, blank for nowhere: the table is asked first, then the store. */
    method DetermineFormattedKeyToUse(resolved: map<string, string>, key: string, ghost out: Output<Entry>)
      returns (r: Result<string>)
      requires Valid() && !formatter.deterministic && key != "" && Translating(resolved, out)
      modifies `next, `faults, underlying`faults
      ensures Valid() && next >= old(next) && Blames(old(Faults()), r, Faults())
      ensures Translating(resolved, out)
      ensures r.Err? ==> r.error in {FormatFailed, Unavailable}
      ensures r.Ok? ==> (key in out.Last() <==> r.value != "")
      ensures r.Ok? && r.value != "" ==>
                && r.value in out.Now(Stored()) && out.Now(Stored())[r.value] == Row(key, out.Last()[key])
                && ids.Unused({r.value}, next)
    {
      hide Formatter.Valid, Formatter.Houses, Formatter.StandsUnder, Formatter.RowsOf, Translated, Home, ApplyRows;
      var id := "";
      ghost var n := next;
      if key in resolved {
        id := resolved[key];
      }
      if id == "" && key !in resolved {
        var found := GetFormattedKeyViaStoreQuery(key);
        TranslatedLater(ids, n, Stored(), resolved, out, next);
        if found.Err? {
          return found;
        }
        id := found.value;
      }
      TranslatedHome(ids, next, Stored(), resolved, out, key, id);
      return Ok(id);
    }

    /** A blank key in the result says that there is nothing to delete. */
    method CreateFormattedDeleteOperation(resolved: map<string, string>, op: Operation, ghost out: Output<Entry>)
      returns (r: Result<(Operation, map<string, string>)>)
      requires Valid() && !formatter.deterministic && op.key != "" && Translating(resolved, out)
      modifies `next, `faults, underlying`faults
      ensures Valid() && Blames(old(Faults()), r, Faults())
      ensures r.Err? ==> r.error in {FormatFailed, Unavailable}
      ensures r.Ok? ==> var (fop, resolved') := r.value;
                        && fop.value.None? && (fop.key != "" <==> op.key in out.Last())
                        && Translating(resolved', if fop.key == "" then out.Skip()
                                                  else out.Emit(Clear(fop.key), out.Last() - {op.key}))
    {
      hide Formatter.Valid, Formatter.Houses, Formatter.StandsUnder, Formatter.RowsOf, Translated, ApplyRows;
      var id := DetermineFormattedKeyToUse(resolved, op.key, out);
      if id.Err? {
        return Err(id.error);
      }
      if id.value == "" {
        TranslatedSkip(ids, next, Stored(), resolved, out);
        return Ok((Operation("", None, []), resolved));
      }
      TranslatedDelete(ids, next, Stored(), resolved, out, op.key, id.value);
      return Ok((Operation(id.value, None, []), resolved[op.key := ""]));
    }

    /** A key that lives nowhere gets a new identifier; otherwise the entry at its home is written over. */
    method CreateFormattedPutOperation(resolved: map<string, string>, op: Operation, ghost out: Output<Entry>)
      returns (r: Result<(Operation, map<string, string>)>)
      requires Valid() && !formatter.deterministic && Translating(resolved, out)
      requires op.key != "" && op.value.Some? && formatter.ReservedFree(op.tags)
      modifies `next, `faults, underlying`faults
      ensures Valid() && Blames(old(Faults()), r, Faults())
      ensures r.Err? ==> r.error in {FormatFailed, Unavailable}
      ensures r.Ok? ==> var (fop, resolved') := r.value;
                        && fop.value.Some? && formatter.Formatted(fop)
                        && FormattedAs(fop, op.key, op.value.value, op.tags, op.key in out.Last(), next - 1)
                        && Translating(resolved', out.Emit(formatter.RowOperationOf(fop), Apply(out.Last(), op)))
    {
      hide Formatter.Valid, Formatter.Houses, Formatter.StandsUnder, Formatter.RowOf, Formatter.RowsOf,
        Formatter.Tagged, Translated, ApplyRows, FormattedAs;
      var id := DetermineFormattedKeyToUse(resolved, op.key, out);
      if id.Err? {
        return Err(id.error);
      }
      ghost var n := next;
      var all := op.tags + [formatter.KeyTag(op.key)];
      var formatted := Format(if id.value == "" then op.key else id.value, op.value, all);
      if formatted.Err? {
        return Err(formatted.error);
      }
      var fop := Operation(if id.value == "" then formatted.value.key else id.value,
                           formatted.value.value, formatted.value.tags);
      ghost var e := Entry(fop.value.value, fop.tags);
      FormattedRow(id.value, formatted.value, op.key, op.value.value, op.tags, next - 1);
      if id.value == "" {
        NewIdentifier(n, resolved, out);
      }
      TranslatedPut(ids, n, Stored(), resolved, out, fop.key, formatter.RowOf(e), next);
      return Ok((fop, resolved[op.key := fop.key]));
    }

    /** The identifier drawn at `n` is new. */
    lemma NewIdentifier(n: nat, resolved: map<string, string>, out: Output<Entry>)
      requires ids.Valid() && next == n + 1 && Translated(ids, n, Stored(), resolved, out)
      ensures ids.at(n) != "" && ids.at(n) !in out.Now(Stored()) && ids.Unused({ids.at(n)}, next)
    {
      AppliedIds(Stored(), out.ops);
      assert ids.indexOf(ids.at(n)) == n;
    }

    /** One operation of the batch; a dropped delete leaves the output as it is. */
    method TranslateOne(resolved: map<string, string>, fops: seq<Operation>, ghost out: Output<Entry>, op: Operation)
      returns (r: Result<(map<string, string>, seq<Operation>)>, ghost out': Output<Entry>)
      requires Valid() && !formatter.deterministic && op.key != "" && formatter.ReservedFree(op.tags)
      requires Translating(resolved, out) && formatter.Carries(fops, out.ops)
      modifies `next, `faults, underlying`faults
      ensures Valid() && Blames(old(Faults()), r, Faults())
      ensures r.Err? ==> r.error in {FormatFailed, Unavailable}
      ensures r.Ok? ==> var (resolved', fops') := r.value;
                        && Translating(resolved', out') && formatter.Carries(fops', out'.ops)
                        && out'.states == out.states + [Apply(out.Last(), op)]
                        && (fops' == [] <==> fops == [] && op.value.None? && op.key !in out.Last())
    {
      hide Formatter.Valid, Formatter.Houses, Formatter.StandsUnder, Formatter.RowOf, Formatter.RowsOf,
        Formatter.Tagged, Translated, ApplyRows;
      out' := out;
      if op.value.None? {
        var del := CreateFormattedDeleteOperation(resolved, op, out);
        if del.Err? {
          return Err(del.error), out;
        }
        var (fop, resolved') := del.value;
        if fop.key == "" {
          assert out.Last() - {op.key} == out.Last();
          return Ok((resolved', fops)), out.Skip();
        }
        out' := out.Emit(Clear(fop.key), out.Last() - {op.key});
        return Ok((resolved', fops + [fop])), out';
      }
      var put := CreateFormattedPutOperation(resolved, op, out);
      if put.Err? {
        return Err(put.error), out;
      }
      var (fop, resolved') := put.value;
      out' := out.Emit(formatter.RowOperationOf(fop), Apply(out.Last(), op));
      return Ok((resolved', fops + [fop])), out';
    }

    /** The translation of a batch.  Its output may be stopped anywhere, and is empty exactly for a batch that only
        deletes what is not stored.  Nothing can fail but searching and formatting. */
    method GenerateFormattedOperationsUsingNonDeterministicKeys(ops: seq<Operation>)
      returns (r: Result<seq<Operation>>, ghost resolved: map<string, string>, ghost out: Output<Entry>)
      requires Valid() && !formatter.deterministic && KeysPresent(ops)
      requires forall op | op in ops :: formatter.ReservedFree(op.tags)
      modifies `next, `faults, underlying`faults
      ensures Valid() && Blames(old(Faults()), r, Faults())
      ensures r.Err? ==> r.error in {FormatFailed, Unavailable}
      ensures r.Ok? ==> Translating(resolved, out) && formatter.Carries(r.value, out.ops)
      ensures r.Ok? ==> |out.states| == |ops| + 1
      ensures r.Ok? ==> forall i | 0 <= i <= |ops| :: out.states[i] == ApplyAll(contents, ops[..i])
      ensures r.Ok? ==> (r.value == [] <==> NothingToDo(ops, contents))
    {
      hide Formatter.Valid, Formatter.Houses, Formatter.StandsUnder, Formatter.RowOf, Formatter.RowsOf,
        Formatter.Tagged, Formatter.Formatted, Translated, NothingToDo, ApplyAll, ApplyRows;
      StartTranslating();
      assert ops[..0] == [];
      ApplyNone(contents);
      NothingInEmpty(contents);
      var fops: seq<Operation>, table: map<string, string> := [], map[];
      out, resolved := Nothing(contents), table;
      for i := 0 to |ops|
        invariant Valid() && Faults() >= old(Faults())
        invariant Translating(table, out) && formatter.Carries(fops, out.ops)
        invariant |out.states| == i + 1 && forall j | 0 <= j <= i :: out.states[j] == ApplyAll(contents, ops[..j])
        invariant fops == [] <==> NothingToDo(ops[..i], contents)
      {
        assert ops[i] in ops && ops[..i + 1] == ops[..i] + [ops[i]];
        NothingToDoStep(ops[..i], contents, ops[i]);
        ApplyAllStep(contents, ops, i);
        var step;
        step, out := TranslateOne(table, fops, out, ops[i]);
        if step.Err? {
          return Err(step.error), table, out;
        }
        table, fops := step.value.0, step.value.1;
      }
      assert ops[..|ops|] == ops;
      return Ok(fops), table, out;
    }

    lemma NothingInEmpty(m: Contents)
      ensures NothingToDo([], m)
    {
    }

    lemma StartTranslating()
      requires Valid() && !formatter.deterministic
      ensures Translating(map[], Nothing(contents))
    {
      SameKeys(underlying.db);
      hide Formatter.Valid, Formatter.RowsOf, Formatter.AllTagged, Represents, Translated;
      TranslatedNothing(ids, next, Stored(), contents);
    }

    method BatchUsingNonDeterministicKeys(ops: seq<Operation>) returns (r: Result<()>)
      requires Valid() && !formatter.deterministic && KeysPresent(ops)
      requires forall op | op in ops :: formatter.ReservedFree(op.tags)
      modifies this, underlying`db, underlying`faults
      ensures Valid() && Blames(old(Faults()), r, Faults())
      ensures r.Ok? ==> !NothingToDo(ops, old(contents)) && contents == ApplyAll(old(contents), ops)
      ensures r.Err? ==> AppliedPrefix(old(contents), ops, contents)
      ensures r.Err? ==> r.error in {EmptyBatch, FormatFailed, Unavailable}
      ensures r == Err(EmptyBatch) ==> NothingToDo(ops, old(contents))
      ensures NothingToDo(ops, old(contents)) ==> contents == old(contents)
    {
      hide Formatter.Valid, Formatter.Houses, Formatter.StandsUnder, Formatter.RowsOf, Formatter.Formatted,
        Formatter.RowOperationOf, Translated, NothingToDo, ApplyAll, ApplyRows;
      var fops, resolved, out := GenerateFormattedOperationsUsingNonDeterministicKeys(ops);
      if fops.Err? {
        PrefixNone(contents, ops);
        return Err(fops.error);
      }
      ghost var db, m := underlying.db, contents;
      if NothingToDo(ops, m) {
        NothingDone(ops, m);
      }
      formatter.CarriesKeys(fops.value, out.ops);
      r := underlying.Batch(fops.value);
      ghost var n := |fops.value|;
      assert fops.value[..n] == fops.value && ops[..|ops|] == ops;
      if r.Err? {
        n :| 0 <= n <= |fops.value| && underlying.db == ApplyAll(db, fops.value[..n]);
      }
      contents := out.After(n);
      RanTo(resolved, out, fops.value, db, m, n);
      if NothingToDo(ops, m) {
        UntouchedPrefix(ops, m, out.at[n]);
      }
    }

    /** The store after the first `n` operations of a translation. */
    lemma RanTo(resolved: map<string, string>, out: Output<Entry>, fops: seq<Operation>, db: Contents, m: Contents, n: nat)
      requires formatter.Valid() && ids.Valid() && formatter.Houses(db, m) && !formatter.deterministic
      requires Translated(ids, next, formatter.RowsOf(db), resolved, out)
      requires formatter.Carries(fops, out.ops) && n <= |fops|
      requires underlying.db == ApplyAll(db, fops[..n]) && contents == out.After(n)
      ensures Valid()
      ensures n < |out.at| && out.at[n] < |out.states| && (n == |fops| ==> out.at[n] == |out.states| - 1)
    {
      hide Formatter.Valid, Formatter.RowsOf, Formatter.AllTagged, Formatter.RowOperationOf, Formatter.Formatted, Represents;
      TranslatedPrefix(ids, next, formatter.RowsOf(db), resolved, out, n);
      formatter.RunsOnRows(db, fops, out.ops, n);
      SameKeys(underlying.db);
    }

    lemma SameKeys(db: Contents)
      ensures formatter.RowsOf(db).Keys == db.Keys
    {
    }

    lemma UntouchedPrefix(ops: seq<Operation>, m: Contents, n: nat)
      requires NothingToDo(ops, m) && n <= |ops|
      ensures ApplyAll(m, ops[..n]) == m
    {
      assert forall op | op in ops[..n] :: op in ops;
      NothingDone(ops[..n], m);
    }

    method GenerateFormattedOperationsUsingDeterministicKeys(ops: seq<Operation>) returns (r: Result<seq<Operation>>)
      requires Valid() && formatter.deterministic
      modifies `next, `faults
      ensures Valid() && Blames(old(Faults()), r, Faults())
      ensures r.Err? ==> r.error == FormatFailed
      ensures r.Ok? ==> Mirrors(r.value, ops)
    {
      hide Formatter.Valid, Formatter.StandsUnder;
      var fops: seq<Operation> := [];
      for i := 0 to |ops|
        invariant Valid() && Faults() >= old(Faults()) && Mirrors(fops, ops[..i])
      {
        var op := ops[i];
        var formatted := Format(op.key, op.value, op.tags);
        if formatted.Err? {
          return Err(formatted.error);
        }
        // A delete stays a delete, whatever the formatter made of the absent value.
        var fop := Operation(formatted.value.key, if op.value.None? then None else formatted.value.value,
                             formatted.value.tags);
        assert op.value.Some? ==> formatter.Encodes(Entry(fop.value.value, fop.tags), op.value.value, op.tags);
        fops := fops + [fop];
      }
      assert ops[..|ops|] == ops;
      return Ok(fops);
    }

    /** Operation by operation, `fops` is the formatted form of `ops`. */
    ghost predicate Mirrors(fops: seq<Operation>, ops: seq<Operation>) {
      && |fops| == |ops|
      && forall i | 0 <= i < |ops| ::
           && fops[i].key == formatter.formatKey(ops[i].key) && (fops[i].value.Some? <==> ops[i].value.Some?)
           && (ops[i].value.Some? ==>
                 formatter.Encodes(Entry(fops[i].value.value, fops[i].tags), ops[i].value.value, ops[i].tags))
    }

    lemma MirroredPrefix(db: Contents, m: Contents, fops: seq<Operation>, ops: seq<Operation>, n: nat)
      requires formatter.Valid() && formatter.StandsUnder(db, m) && KeysPresent(ops) && Mirrors(fops, ops) && n <= |ops|
      ensures formatter.StandsUnder(ApplyAll(db, fops[..n]), ApplyAll(m, ops[..n]))
    {
      hide Formatter.Valid, Formatter.StandsUnder;
      assert forall op | op in ops[..n] :: op in ops;
      formatter.DeterministicBatch(db, m, ops[..n], fops[..n]);
    }

    method BatchUsingDeterministicKeys(ops: seq<Operation>) returns (r: Result<()>)
      requires Valid() && formatter.deterministic && KeysPresent(ops)
      modifies this, underlying`db, underlying`faults
      ensures Valid() && Blames(old(Faults()), r, Faults())
      ensures r.Ok? ==> ops != [] && contents == ApplyAll(old(contents), ops)
      ensures r.Err? ==> AppliedPrefix(old(contents), ops, contents)
      ensures r == Err(EmptyBatch) ==> ops == []
      ensures ops == [] ==> r.Err?
      ensures r.Err? ==> r.error in {EmptyBatch, FormatFailed, Unavailable}
    {
      hide Formatter.Valid, Formatter.Houses, Formatter.StandsUnder, Formatter.Encodes;
      var fops := GenerateFormattedOperationsUsingDeterministicKeys(ops);
      if fops.Err? {
        PrefixNone(contents, ops);
        return Err(fops.error);
      }
      MirroredKeys(fops.value, ops);
      ghost var db, m := underlying.db, contents;
      r := underlying.Batch(fops.value);
      ghost var n := |fops.value|;
      assert fops.value[..n] == fops.value;
      if r.Err? {
        n :| 0 <= n <= |fops.value| && underlying.db == ApplyAll(db, fops.value[..n]);
      }
      MirroredPrefix(db, m, fops.value, ops, n);
      contents := ApplyAll(m, ops[..n]);
      assert ops[..|ops|] == ops;
    }

    lemma MirroredKeys(fops: seq<Operation>, ops: seq<Operation>)
      requires formatter.Valid() && KeysPresent(ops) && Mirrors(fops, ops)
      ensures KeysPresent(fops)
    {
      forall fop | fop in fops
        ensures fop.key != ""
      {
        var i :| 0 <= i < |fops| && fops[i] == fop;
        assert ops[i] in ops && ops[i].key != "";
      }
    }

    /** The underlying store refuses an empty batch, and with random keys a batch that has nothing to delete has come
        down to one. */
    predicate Refuses(ops: seq<Operation>, m: Contents) {
      if formatter.deterministic then ops == [] else NothingToDo(ops, m)
    }

    /** Without faults a batch succeeds exactly when all keys are there and it is not refused as empty. */
    method Batch(ops: seq<Operation>) returns (r: Result<()>)
      requires Valid() && (!formatter.deterministic ==> forall op | op in ops :: formatter.ReservedFree(op.tags))
      modifies this, underlying`db, underlying`faults
      ensures Valid() && Blames(old(Faults()), r, Faults())
      ensures BatchMeets(old(contents), ops, contents, r)
      ensures r.Err? ==> r.error in {EmptyKey, EmptyBatch, FormatFailed, Unavailable}
      ensures r == Err(EmptyKey) <==> !KeysPresent(ops)
      ensures r == Err(EmptyBatch) ==> Refuses(ops, old(contents))
      ensures Refuses(ops, old(contents)) ==> r.Err? && contents == old(contents)
      ensures r == Err(EmptyKey) ==> contents == old(contents)
    {
      hide Formatter.Valid, Formatter.Houses, Formatter.StandsUnder, NothingToDo;
      for i := 0 to |ops|
        invariant forall op | op in ops[..i] :: op.key != ""
      {
        if ops[i].key == "" {
          assert ops[i] in ops;
          PrefixNone(contents, ops);
          return Err(EmptyKey);
        }
      }
      assert ops[..|ops|] == ops;
      if ops == [] {
        NothingInEmpty(contents);
        EmptyPrefix(contents);
      }
      if formatter.deterministic {
        r := BatchUsingDeterministicKeys(ops);
      } else {
        r := BatchUsingNonDeterministicKeys(ops);
      }
    }

    lemma EmptyPrefix(m: Contents)
      ensures forall post :: AppliedPrefix(m, [], post) ==> post == m
    {
    }
  }
}
