/** Encrypted documents: formatted tags, embedded contents, and what a vault query asks of them. */
module EdvFormatter {
  import opened Spi
  import opened TagQuery

  /** A keyed hash, written as text.  `invert` exists because the hash is taken to be injective; only proofs use it. */
  datatype Mac = Mac(compute: string -> string, invert: string -> string) {
    ghost predicate Valid() {
      forall s :: invert(compute(s)) == s && compute(s) != ""
    }
  }

  /** What decrypting a document's JWE gives. */
  datatype Content = Content(key: string, value: Bytes, tags: seq<Tag>)

  datatype Document = Document(id: string, attributes: seq<Tag>, content: Content)

  datatype Formatter = Formatter(mac: Mac, prefix: string) {

    function FormatTag(tag: Tag): Tag {
      Tag(mac.compute(prefix + tag.name), if tag.value == "" then "" else mac.compute(tag.value))
    }

    function FormattedTags(tags: seq<Tag>): (r: seq<Tag>)
      ensures |r| == |tags| && forall i | 0 <= i < |tags| :: r[i] == FormatTag(tags[i])
    {
      seq(|tags|, i requires 0 <= i < |tags| => FormatTag(tags[i]))
    }

    method FormatTags(tags: seq<Tag>) returns (r: seq<Tag>)
      ensures r == FormattedTags(tags)
    {
      r := [];
      for i := 0 to |tags|
        invariant r == FormattedTags(tags)[..i]
      {
        r := r + [FormatTag(tags[i])];
      }
    }

    lemma FormatTagInjective(t1: Tag, t2: Tag)
      requires mac.Valid()
      ensures FormatTag(t1).name == FormatTag(t2).name ==> t1.name == t2.name
      ensures FormatTag(t1).value == FormatTag(t2).value ==> t1.value == t2.value
      ensures FormatTag(t1).value == "" <==> t1.value == ""
    {
      assert mac.invert(mac.compute(prefix + t1.name)) == prefix + t1.name;
      assert mac.invert(mac.compute(prefix + t2.name)) == prefix + t2.name;
      assert (prefix + t1.name)[|prefix|..] == t1.name && (prefix + t2.name)[|prefix|..] == t2.name;
      assert mac.invert(mac.compute(t1.value)) == t1.value && mac.invert(mac.compute(t2.value)) == t2.value;
    }

    /** Stores that share a vault and a hash key share an attribute name exactly when prefix and tag name run together
        alike, and an attribute value exactly when the tag values are equal. */
    lemma AttributesAcrossStores(other: Formatter, t1: Tag, t2: Tag)
      requires mac.Valid() && other.mac == mac
      ensures FormatTag(t1).name == other.FormatTag(t2).name <==> prefix + t1.name == other.prefix + t2.name
      ensures FormatTag(t1).value == other.FormatTag(t2).value <==> t1.value == t2.value
    {
      assert mac.invert(mac.compute(prefix + t1.name)) == prefix + t1.name;
      assert mac.invert(mac.compute(other.prefix + t2.name)) == other.prefix + t2.name;
      assert mac.invert(mac.compute(t1.value)) == t1.value && mac.invert(mac.compute(t2.value)) == t2.value;
    }

    /** A criterion over the hashed attributes asks what it asks over the plain tags. */
    lemma CriterionPreserved(tags: seq<Tag>, c: Criterion)
      requires mac.Valid()
      ensures var t := FormatTag(Tag(c.name, c.value));
              Matches(FormattedTags(tags), Criterion(t.name, t.value)) <==> Matches(tags, c)
    {
      var wanted := Tag(c.name, c.value);
      var t, fts := FormatTag(wanted), FormattedTags(tags);
      if Matches(tags, c) {
        var x :| x in tags && TagMatches(x, c);
        var i :| 0 <= i < |tags| && tags[i] == x;
        FormatTagInjective(x, wanted);
        assert fts[i] in fts && TagMatches(fts[i], Criterion(t.name, t.value));
      }
      if Matches(fts, Criterion(t.name, t.value)) {
        var y :| y in fts && TagMatches(y, Criterion(t.name, t.value));
        var i :| 0 <= i < |fts| && fts[i] == y;
        FormatTagInjective(tags[i], wanted);
        assert tags[i] in tags && TagMatches(tags[i], c);
      }
    }
  }

  // ----- vault queries ---------------------------------------------------------------------------------

  /** `equals` lists alternatives, each a set of attributes that must all be there, with a blank value standing for
      any value; `has` asks for an attribute name alone. */
  datatype Query = Query(equals: seq<map<string, string>>, has: string)

  predicate QueryMatches(attributes: seq<Tag>, q: Query) {
    || (q.has != "" && exists a | a in attributes :: a.name == q.has)
    || exists i | 0 <= i < |q.equals| :: MatchesAll(attributes, q.equals[i])
  }
}
