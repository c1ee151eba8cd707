/** Compiling a query expression into a query over hashed attributes. */
module EdvQuery {
  import opened Spi
  import opened TagQuery
  import opened EdvFormatter

  // ----- expressions and their meaning --------------------------------------------------------------------

  /** Criteria are joined by AND first, and the results by OR. */
  function ParseAlternatives(parts: seq<string>): (r: Option<seq<seq<Criterion>>>)
    ensures r.Some? ==> |r.value| == |parts|
    ensures r.Some? <==> forall p | p in parts :: ParseAnd(p).Some?
  {
    if parts == [] then Some([])
    else
      var init, last := ParseAlternatives(parts[..|parts| - 1]), ParseAnd(parts[|parts| - 1]);
      assert parts == parts[..|parts| - 1] + [parts[|parts| - 1]];
      if init.None? || last.None? then None else Some(init.value + [last.value])
  }

  function ParseExpression(expression: string): Option<seq<seq<Criterion>>> {
    if expression == "" then None else ParseAlternatives(Split(expression, "||"))
  }

  /** Texts without bars, joined by the OR sign, are the alternatives of the expression. */
  lemma OrOf(texts: seq<string>)
    requires texts != [] && Join(texts, "||") != "" && forall t | t in texts :: '|' !in t
    ensures ParseExpression(Join(texts, "||")) == ParseAlternatives(texts)
  {
    SplitOfJoin(texts, "||");
  }

  predicate ExpressionMatches(tags: seq<Tag>, alternatives: seq<seq<Criterion>>) {
    exists i | 0 <= i < |alternatives| :: MatchesAll(tags, LastByName(alternatives[i]))
  }

  // ----- one AND list ---------------------------------------------------------------------------------------

  /** `sub` is `wanted` with names and values hashed. */
  ghost predicate Hashes(f: Formatter, wanted: map<string, string>, sub: map<string, string>) {
    && (forall n | n in wanted ::
          var t := f.FormatTag(Tag(n, wanted[n])); t.name in sub && sub[t.name] == t.value)
    && (forall a | a in sub :: exists n :: n in wanted && a == f.FormatTag(Tag(n, wanted[n])).name)
  }

  lemma HashesPreserve(f: Formatter, wanted: map<string, string>, sub: map<string, string>, tags: seq<Tag>)
    requires f.mac.Valid() && Hashes(f, wanted, sub)
    ensures MatchesAll(f.FormattedTags(tags), sub) <==> MatchesAll(tags, wanted)
  {
    var fts := f.FormattedTags(tags);
    forall n | n in wanted
      ensures var t := f.FormatTag(Tag(n, wanted[n]));
              Matches(fts, Criterion(t.name, sub[t.name])) <==> Matches(tags, Criterion(n, wanted[n]))
    {
      f.CriterionPreserved(tags, Criterion(n, wanted[n]));
    }
    if MatchesAll(tags, wanted) {
      forall a | a in sub
        ensures Matches(fts, Criterion(a, sub[a]))
      {
        var n :| n in wanted && a == f.FormatTag(Tag(n, wanted[n])).name;
      }
    }
    if MatchesAll(fts, sub) {
      forall n | n in wanted
        ensures Matches(tags, Criterion(n, wanted[n]))
      {
        assert f.FormatTag(Tag(n, wanted[n])).name in sub;
      }
    }
  }

  /** Distinct names have distinct hashes, so a repeated name overwrites on both sides and nothing else does. */
  lemma HashesAdd(f: Formatter, wanted: map<string, string>, sub: map<string, string>, c: Criterion)
    requires f.mac.Valid() && Hashes(f, wanted, sub)
    ensures var t := f.FormatTag(Tag(c.name, c.value));
            Hashes(f, wanted[c.name := c.value], sub[t.name := t.value])
  {
    var t := f.FormatTag(Tag(c.name, c.value));
    var wanted', sub' := wanted[c.name := c.value], sub[t.name := t.value];
    forall n | n in wanted'
      ensures var x := f.FormatTag(Tag(n, wanted'[n])); x.name in sub' && sub'[x.name] == x.value
    {
      f.FormatTagInjective(Tag(n, wanted'[n]), Tag(c.name, c.value));
    }
    forall a | a in sub'
      ensures exists n :: n in wanted' && a == f.FormatTag(Tag(n, wanted'[n])).name
    {
      if a == t.name {
        assert c.name in wanted' && a == f.FormatTag(Tag(c.name, wanted'[c.name])).name;
      } else {
        var n :| n in wanted && a == f.FormatTag(Tag(n, wanted[n])).name;
        assert n in wanted' && a == f.FormatTag(Tag(n, wanted'[n])).name;
      }
    }
  }

  method GenerateEDVQuerySubfilter(f: Formatter, expression: string) returns (r: Result<map<string, string>>)
    requires f.mac.Valid()
    ensures r.Ok? <==> ParseAnd(expression).Some?
    ensures r.Err? ==> r.error == BadExpression
    ensures r.Ok? ==> Hashes(f, LastByName(ParseAnd(expression).value), r.value) && r.value != map[]
  {
    hide Hashes, LastByName;
    var subfilter: map<string, string> := map[];
    var parts := Split(expression, "&&");
    ghost var criteria: seq<Criterion> := [];
    HashesNothing(f);
    for i := 0 to |parts|
      invariant ParseEach(parts[..i]) == Some(criteria)
      invariant Hashes(f, LastByName(criteria), subfilter)
      invariant i > 0 ==> subfilter != map[]
    {
      ParseEachStep(parts, i);
      var split := Split(parts[i], ":");
      var t: Tag;
      if |split| == 1 {
        t := Tag(f.FormatTag(Tag(split[0], "")).name, "");
      } else if |split| == 2 {
        t := f.FormatTag(Tag(split[0], split[1]));
      } else {
        assert parts[i] in parts;
        return Err(BadExpression);
      }
      ghost var c := ParseCriterion(parts[i]).value;
      LastByNameSnoc(criteria, c);
      HashesAdd(f, LastByName(criteria), subfilter, c);
      criteria := criteria + [c];
      subfilter := subfilter[t.name := t.value];
      assert t.name in subfilter;
    }
    assert parts[..|parts|] == parts;
    return Ok(subfilter);
  }

  lemma HashesNothing(f: Formatter)
    ensures Hashes(f, LastByName([]), map[])
  {
  }

  // ----- the whole expression ---------------------------------------------------------------------------------

  ghost predicate AllHash(f: Formatter, alternatives: seq<seq<Criterion>>, equals: seq<map<string, string>>) {
    && |equals| == |alternatives|
    && forall i | 0 <= i < |equals| :: Hashes(f, LastByName(alternatives[i]), equals[i])
  }

  lemma EqualsPreserve(f: Formatter, alternatives: seq<seq<Criterion>>, equals: seq<map<string, string>>, tags: seq<Tag>)
    requires f.mac.Valid() && AllHash(f, alternatives, equals)
    ensures QueryMatches(f.FormattedTags(tags), Query(equals, "")) <==> ExpressionMatches(tags, alternatives)
  {
    hide Hashes, MatchesAll, LastByName;
    forall i | 0 <= i < |equals|
      ensures MatchesAll(f.FormattedTags(tags), equals[i]) <==> MatchesAll(tags, LastByName(alternatives[i]))
    {
      HashesPreserve(f, LastByName(alternatives[i]), equals[i], tags);
    }
  }

  /** A query for one attribute with a blank value asks the same as a query for the attribute's name. */
  lemma HasRewrite(attributes: seq<Tag>, name: string)
    requires name != ""
    ensures QueryMatches(attributes, Query([], name)) <==> QueryMatches(attributes, Query([map[name := ""]], ""))
  {
    var sub := map[name := ""];
    assert MatchesAll(attributes, sub) <==> Matches(attributes, Criterion(name, "")) by {
      assert name in sub;
    }
    if exists a | a in attributes :: a.name == name {
      var a :| a in attributes && a.name == name;
      assert TagMatches(a, Criterion(name, ""));
    }
    assert [sub][0] == sub;
  }

  /** The compiled query selects exactly the documents whose plain tags the expression selects; an expression is
      refused exactly when some criterion in it is malformed. */
  method GenerateEDVQuery(f: Formatter, expression: string) returns (r: Result<Query>)
    requires f.mac.Valid()
    ensures r.Ok? <==> ParseExpression(expression).Some?
    ensures r.Err? ==> r.error == BadExpression
    ensures r.Ok? ==> forall tags ::
              QueryMatches(f.FormattedTags(tags), r.value) <==>
              ExpressionMatches(tags, ParseExpression(expression).value)
    ensures r.Ok? ==> Compiled(f, ParseExpression(expression).value, r.value)
  {
    hide *;
    if expression == "" {
      ParseBlank();
      return Err(BadExpression);
    }
    var parts := Split(expression, "||");
    ParseWhole(expression);
    var equals: seq<map<string, string>> := [];
    ghost var alternatives: seq<seq<Criterion>> := [];
    AllHashNothing(f);
    for i := 0 to |parts|
      invariant ParseAlternatives(parts[..i]) == Some(alternatives)
      invariant AllHash(f, alternatives, equals)
    {
      ParseAlternativesStep(parts, i);
      var sub := GenerateEDVQuerySubfilter(f, parts[i]);
      if sub.Err? {
        assert parts[i] in parts;
        return Err(sub.error);
      }
      AllHashSnoc(f, alternatives, equals, ParseAnd(parts[i]).value, sub.value);
      alternatives := alternatives + [ParseAnd(parts[i]).value];
      equals := equals + [sub.value];
    }
    assert parts[..|parts|] == parts;
    if |equals| == 1 && |equals[0]| == 1 {
      var name :| name in equals[0];
      if equals[0][name] == "" {
        RewrittenPreserve(f, alternatives, equals, name);
        CompiledHas(f, alternatives, equals, name);
        return Ok(Query([], name));
      }
      OnlyName(equals[0], name);
    }
    forall tags
      ensures QueryMatches(f.FormattedTags(tags), Query(equals, "")) <==> ExpressionMatches(tags, alternatives)
    {
      EqualsPreserve(f, alternatives, equals, tags);
    }
    CompiledEquals(f, alternatives, equals);
    return Ok(Query(equals, ""));
  }

  /** The expression is one tag name alone, however often it is repeated. */
  ghost predicate NameAlone(alternatives: seq<seq<Criterion>>, name: string) {
    |alternatives| == 1 && LastByName(alternatives[0]) == map[name := ""]
  }

  /** A name alone is asked for by `has`, and anything else by the alternatives with their names and values hashed. */
  ghost predicate Compiled(f: Formatter, alternatives: seq<seq<Criterion>>, q: Query) {
    if exists n :: NameAlone(alternatives, n) then
      exists n :: NameAlone(alternatives, n) && q == Query([], f.FormatTag(Tag(n, "")).name)
    else q.has == "" && AllHash(f, alternatives, q.equals)
  }

  /** Hashing keeps apart what it compiles, so a name alone is told from the compiled list. */
  lemma AloneIsAlone(f: Formatter, alternatives: seq<seq<Criterion>>, equals: seq<map<string, string>>, n: string)
    requires f.mac.Valid() && AllHash(f, alternatives, equals) && NameAlone(alternatives, n)
    ensures |equals| == 1 && |equals[0]| == 1 && exists name :: name in equals[0] && equals[0][name] == ""
  {
    var wanted, name := LastByName(alternatives[0]), f.FormatTag(Tag(n, "")).name;
    assert n in wanted && wanted[n] == "";
    forall a | a in equals[0]
      ensures a == name && equals[0][a] == ""
    {
      var m :| m in wanted && a == f.FormatTag(Tag(m, wanted[m])).name;
      assert m == n;
    }
    assert name in equals[0];
    assert equals[0] == map[name := ""];
  }

  lemma OneIsAlone(f: Formatter, alternatives: seq<seq<Criterion>>, equals: seq<map<string, string>>, name: string)
    requires f.mac.Valid() && AllHash(f, alternatives, equals) && |equals| == 1 && equals[0] == map[name := ""]
    ensures exists n :: NameAlone(alternatives, n) && name == f.FormatTag(Tag(n, "")).name
  {
    var wanted := LastByName(alternatives[0]);
    assert name in equals[0];
    var n :| n in wanted && name == f.FormatTag(Tag(n, wanted[n])).name;
    assert f.FormatTag(Tag(n, wanted[n])).value == "";
    f.FormatTagInjective(Tag(n, wanted[n]), Tag(n, ""));
    assert wanted[n] == "";
    forall m | m in wanted
      ensures m == n
    {
      assert f.FormatTag(Tag(m, wanted[m])).name in equals[0];
      f.FormatTagInjective(Tag(m, wanted[m]), Tag(n, ""));
    }
    assert wanted.Keys == {n};
    assert NameAlone(alternatives, n);
  }

  lemma CompiledHas(f: Formatter, alternatives: seq<seq<Criterion>>, equals: seq<map<string, string>>, name: string)
    requires f.mac.Valid() && AllHash(f, alternatives, equals)
    requires |equals| == 1 && |equals[0]| == 1 && name in equals[0] && equals[0][name] == ""
    ensures Compiled(f, alternatives, Query([], name))
  {
    OnlyName(equals[0], name);
    hide AllHash, LastByName;
    OneIsAlone(f, alternatives, equals, name);
  }

  lemma CompiledEquals(f: Formatter, alternatives: seq<seq<Criterion>>, equals: seq<map<string, string>>)
    requires f.mac.Valid() && AllHash(f, alternatives, equals)
    requires |equals| == 1 && |equals[0]| == 1 ==> forall name | name in equals[0] :: equals[0][name] != ""
    ensures Compiled(f, alternatives, Query(equals, ""))
  {
    hide AllHash, NameAlone;
    if n :| NameAlone(alternatives, n) {
      AloneIsAlone(f, alternatives, equals, n);
    }
  }

  lemma ParseBlank()
    ensures ParseExpression("").None?
  {
  }

  lemma ParseWhole(expression: string)
    requires expression != ""
    ensures ParseExpression(expression) == ParseAlternatives(Split(expression, "||"))
    ensures ParseAlternatives([]) == Some([])
  {
  }

  lemma ParseAlternativesStep(parts: seq<string>, i: nat)
    requires i < |parts|
    ensures ParseAnd(parts[i]).Some? && ParseAlternatives(parts[..i]).Some? ==>
              ParseAlternatives(parts[..i + 1]) == Some(ParseAlternatives(parts[..i]).value + [ParseAnd(parts[i]).value])
  {
    assert parts[..i + 1][..i] == parts[..i];
  }

  lemma AllHashNothing(f: Formatter)
    ensures AllHash(f, [], [])
  {
  }

  lemma AllHashSnoc(f: Formatter, alternatives: seq<seq<Criterion>>, equals: seq<map<string, string>>,
                    criteria: seq<Criterion>, sub: map<string, string>)
    requires AllHash(f, alternatives, equals) && Hashes(f, LastByName(criteria), sub)
    ensures AllHash(f, alternatives + [criteria], equals + [sub])
  {
    hide Hashes, LastByName;
  }

  /** The rewrite to a query for a name alone keeps the meaning. */
  lemma RewrittenPreserve(f: Formatter, alternatives: seq<seq<Criterion>>, equals: seq<map<string, string>>, name: string)
    requires f.mac.Valid() && AllHash(f, alternatives, equals)
    requires |equals| == 1 && |equals[0]| == 1 && name in equals[0] && equals[0][name] == ""
    ensures forall tags ::
              QueryMatches(f.FormattedTags(tags), Query([], name)) <==> ExpressionMatches(tags, alternatives)
  {
    hide Hashes, LastByName, QueryMatches, ExpressionMatches;
    OnlyName(equals[0], name);
    NamesNonblank(f, LastByName(alternatives[0]), equals[0], name);
    assert equals == [map[name := ""]];
    forall tags
      ensures QueryMatches(f.FormattedTags(tags), Query([], name)) <==> ExpressionMatches(tags, alternatives)
    {
      EqualsPreserve(f, alternatives, equals, tags);
      HasRewrite(f.FormattedTags(tags), name);
    }
  }

  lemma OnlyName(sub: map<string, string>, name: string)
    requires |sub| == 1 && name in sub
    ensures sub == map[name := sub[name]]
  {
    assert |sub.Keys - {name}| == 0;
    assert sub.Keys == {name};
  }

  lemma NamesNonblank(f: Formatter, wanted: map<string, string>, sub: map<string, string>, name: string)
    requires f.mac.Valid() && Hashes(f, wanted, sub) && name in sub
    ensures name != ""
  {
    var n :| n in wanted && name == f.FormatTag(Tag(n, wanted[n])).name;
  }
}
