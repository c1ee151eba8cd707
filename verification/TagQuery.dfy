/** Query expressions: how they are split, and what they mean over a list of tags. */
module TagQuery {
  import opened Spi

  predicate OccursAt(s: string, sep: string, j: int) {
    0 <= j && j + |sep| <= |s| && s[j..j + |sep|] == sep
  }

  /** Position of the first occurrence of `sep` in `s`. */
  function IndexOf(s: string, sep: string): (r: Option<nat>)
    requires sep != ""
    ensures r.Some? ==> OccursAt(s, sep, r.value) && forall j | 0 <= j < r.value :: !OccursAt(s, sep, j)
    ensures r.None? ==> forall j :: !OccursAt(s, sep, j)
  {
    if |s| < |sep| then None
    else if s[..|sep|] == sep then assert OccursAt(s, sep, 0); Some(0)
    else
      var rest := IndexOf(s[1..], sep);
      assert forall j :: OccursAt(s, sep, j) ==> 1 <= j && OccursAt(s[1..], sep, j - 1) by {
        forall j | OccursAt(s, sep, j)
          ensures 1 <= j && OccursAt(s[1..], sep, j - 1)
        {
          if 1 <= j { assert s[1..][j - 1..j - 1 + |sep|] == s[j..j + |sep|]; }
        }
      }
      if rest.None? then None else Some(rest.value + 1)
  }

  /** Cuts `s` at each occurrence of `sep`, from the left, without overlap. */
  function Split(s: string, sep: string): (parts: seq<string>)
    requires sep != ""
    ensures parts != []
    decreases |s|
  {
    var at := IndexOf(s, sep);
    if at.None? then [s] else [s[..at.value]] + Split(s[at.value + |sep|..], sep)
  }

  function Join(parts: seq<string>, sep: string): string
    requires parts != []
  {
    if |parts| == 1 then parts[0] else parts[0] + (sep + Join(parts[1..], sep))
  }

  lemma Pieces(a: string, sep: string, b: string)
    ensures var s := a + (sep + b);
            && s[..|a|] == a && s[|a|..|a| + |sep|] == sep && s[|a| + |sep|..] == b
            && forall j | 0 <= j < |a| :: s[j] == a[j]
  {
  }

  lemma Reassembled(s: string, at: nat, n: nat)
    requires at + n <= |s|
    ensures s[..at] + (s[at..at + n] + s[at + n..]) == s && s[..at] + s[at..at + n] == s[..at + n]
  {
  }

  lemma HeadAndTail<T>(x: T, xs: seq<T>)
    ensures ([x] + xs)[0] == x && ([x] + xs)[1..] == xs && |[x] + xs| == 1 + |xs|
  {
  }

  /** Whether a separator stands at a place is told by any prefix that reaches beyond it. */
  lemma OccursInPrefix(s: string, t: string, sep: string, j: nat)
    requires s <= t && j + |sep| <= |s|
    ensures OccursAt(s, sep, j) <==> OccursAt(t, sep, j)
  {
    assert s[j..j + |sep|] == t[j..j + |sep|];
  }

  lemma FirstIs(s: string, sep: string, at: nat)
    requires sep != "" && OccursAt(s, sep, at) && forall j | 0 <= j < at :: !OccursAt(s, sep, j)
    ensures IndexOf(s, sep) == Some(at)
  {
  }

  lemma FirstInPrefix(short: string, s: string, sep: string, at: nat)
    requires sep != "" && IndexOf(s, sep) == Some(at) && short <= s && |short| == at + |sep|
    ensures IndexOf(short, sep) == Some(at)
  {
    forall j | 0 <= j <= at
      ensures OccursAt(short, sep, j) <==> OccursAt(s, sep, j)
    {
      OccursInPrefix(short, s, sep, j);
    }
    hide OccursAt;
    FirstIs(short, sep, at);
  }

  lemma FoundThere(s: string, sep: string, at: nat)
    requires sep != "" && IndexOf(s, sep) == Some(at)
    ensures at + |sep| <= |s| && s[at..at + |sep|] == sep
  {
  }

  lemma CutThere(s: string, sep: string, at: nat)
    requires at + |sep| <= |s| && s[at..at + |sep|] == sep
    ensures s == s[..at] + (sep + s[at + |sep|..]) && s[..at] + sep == s[..at + |sep|]
  {
    Reassembled(s, at, |sep|);
  }

  lemma FirstStays(s: string, sep: string, at: nat)
    requires sep != "" && IndexOf(s, sep) == Some(at)
    ensures at + |sep| <= |s| && s == s[..at] + (sep + s[at + |sep|..])
    ensures IndexOf(s[..at] + sep, sep) == Some(at)
  {
    hide *;
    FoundThere(s, sep, at);
    CutThere(s, sep, at);
    var short := s[..at + |sep|];
    FirstInPrefix(short, s, sep, at);
    assert s[..at] + sep == short;
  }

  /** Every cut was made at the first place possible, and after the last part there was none left to make. */
  ghost predicate CutLeftmost(parts: seq<string>, sep: string)
    requires sep != "" && parts != []
  {
    if |parts| == 1 then IndexOf(parts[0], sep).None?
    else IndexOf(parts[0] + sep, sep) == Some(|parts[0]|) && CutLeftmost(parts[1..], sep)
  }

  /** Joining the parts gives the text back, and all cuts were made leftmost. */
  lemma {:induction false} SplitIs(s: string, sep: string)
    requires sep != ""
    ensures Join(Split(s, sep), sep) == s && CutLeftmost(Split(s, sep), sep)
    decreases |s|
  {
    hide IndexOf, OccursAt;
    var at := IndexOf(s, sep);
    if at.Some? {
      FirstStays(s, sep, at.value);
      var first, rest := s[..at.value], s[at.value + |sep|..];
      SplitIs(rest, sep);
      SplitUnfolds(s, sep, first, rest);
      HeadAndTail(first, Split(rest, sep));
      JoinMore(first, Split(rest, sep), sep);
      CutMore(first, Split(rest, sep), sep);
    }
  }

  lemma SplitUnfolds(s: string, sep: string, first: string, rest: string)
    requires sep != "" && IndexOf(s, sep) == Some(|first|) && |first| + |sep| <= |s|
    requires s[..|first|] == first && s[|first| + |sep|..] == rest
    ensures Split(s, sep) == [first] + Split(rest, sep)
  {
    hide IndexOf, OccursAt;
  }

  lemma JoinMore(first: string, parts: seq<string>, sep: string)
    requires parts != []
    ensures Join([first] + parts, sep) == first + (sep + Join(parts, sep))
  {
    HeadAndTail(first, parts);
  }

  lemma CutMore(first: string, parts: seq<string>, sep: string)
    requires sep != "" && parts != [] && CutLeftmost(parts, sep) && IndexOf(first + sep, sep) == Some(|first|)
    ensures CutLeftmost([first] + parts, sep)
  {
    hide IndexOf;
    HeadAndTail(first, parts);
  }

  /** No part contains the separator. */
  lemma PartsPlain(s: string, sep: string, i: nat)
    requires sep != "" && i < |Split(s, sep)|
    ensures IndexOf(Split(s, sep)[i], sep).None?
  {
    SplitIs(s, sep);
    CutPlain(Split(s, sep), sep, i);
  }

  lemma {:induction false} CutPlain(parts: seq<string>, sep: string, i: nat)
    requires sep != "" && i < |parts| && CutLeftmost(parts, sep)
    ensures IndexOf(parts[i], sep).None?
  {
    if |parts| > 1 {
      if i == 0 {
        NotBefore(parts[0], sep);
      } else {
        CutPlain(parts[1..], sep, i - 1);
      }
    }
  }

  lemma NotBefore(p: string, sep: string)
    requires sep != "" && IndexOf(p + sep, sep) == Some(|p|)
    ensures IndexOf(p, sep).None?
  {
    var inside := IndexOf(p, sep);
    if inside.Some? {
      OccursInPrefix(p, p + sep, sep, inside.value);
    }
  }

  /** Parts without the separator's first character come back from their join. */
  lemma {:induction false} SplitOfJoin(parts: seq<string>, sep: string)
    requires parts != [] && sep != "" && forall p | p in parts :: sep[0] !in p
    ensures Split(Join(parts, sep), sep) == parts
  {
    var first := parts[0];
    assert first in parts;
    if |parts| == 1 {
      SplitWithout(first, sep);
    } else {
      SplitOfJoin(parts[1..], sep);
      FirstCut(first, sep, Join(parts[1..], sep));
      assert parts == [first] + parts[1..];
    }
  }

  lemma FirstCut(first: string, sep: string, rest: string)
    requires sep != "" && sep[0] !in first
    ensures Split(first + (sep + rest), sep) == [first] + Split(rest, sep)
  {
    var s := first + (sep + rest);
    Pieces(first, sep, rest);
    assert IndexOf(s, sep) == Some(|first|) by {
      FirstCharacters(s, sep);
      FirstIs(s, sep, |first|);
    }
    SplitUnfolds(s, sep, first, rest);
  }

  function Occurrences(s: string, c: char): nat {
    if s == "" then 0 else (if s[0] == c then 1 else 0) + Occurrences(s[1..], c)
  }

  lemma {:induction false} CountConcat(a: string, b: string, c: char)
    ensures Occurrences(a + b, c) == Occurrences(a, c) + Occurrences(b, c)
  {
    if a == "" {
      assert a + b == b;
    } else {
      assert (a + b)[1..] == a[1..] + b;
      CountConcat(a[1..], b, c);
    }
  }

  lemma {:induction false} CountNone(s: string, c: char)
    requires c !in s
    ensures Occurrences(s, c) == 0
  {
    if s != "" {
      CountNone(s[1..], c);
    }
  }

  /** Splitting at a character cuts once for each time it occurs. */
  lemma {:induction false} SplitCounts(s: string, c: char)
    ensures |Split(s, [c])| == Occurrences(s, c) + 1
    decreases |s|
  {
    var at := IndexOf(s, [c]);
    if at.None? {
      if c in s {
        var j :| 0 <= j < |s| && s[j] == c;
        assert OccursAt(s, [c], j);
      }
      CountNone(s, c);
    } else {
      var first, rest := s[..at.value], s[at.value + 1..];
      SplitCounts(rest, c);
      if c in first {
        var j :| 0 <= j < |first| && first[j] == c;
        assert OccursAt(s, [c], j);
      }
      CountNone(first, c);
      assert s == first + ([c] + rest);
      CountConcat(first, [c] + rest, c);
      CountConcat([c], rest, c);
      assert [c][1..] == "" && Occurrences([c], c) == 1;
    }
  }

  lemma FirstCharacters(s: string, sep: string)
    requires sep != ""
    ensures forall j :: OccursAt(s, sep, j) ==> s[j] == sep[0]
  {
    forall j | OccursAt(s, sep, j)
      ensures s[j] == sep[0]
    {
      assert s[j..j + |sep|][0] == s[j];
    }
  }

  lemma SplitWithout(s: string, sep: string)
    requires sep != "" && sep[0] !in s
    ensures Split(s, sep) == [s]
  {
    FirstCharacters(s, sep);
  }

  lemma SplitAtColon(a: string, b: string)
    requires ':' !in a && ':' !in b
    ensures Split(a + ":" + b, ":") == [a, b]
  {
    var s := a + ":" + b;
    assert OccursAt(s, ":", |a|);
    FirstCharacters(s, ":");
    assert forall j | 0 <= j < |a| :: s[j] == a[j];
    assert IndexOf(s, ":") == Some(|a|);
    assert s[..|a|] == a && s[|a| + 1..] == b;
    SplitWithout(b, ":");
  }

  /** One criterion: a tag name and a wanted value; a blank value accepts any value. */
  datatype Criterion = Criterion(name: string, value: string)

  function ParseCriterion(s: string): Option<Criterion> {
    var parts := Split(s, ":");
    if |parts| == 1 then Some(Criterion(parts[0], ""))
    else if |parts| == 2 then Some(Criterion(parts[0], parts[1]))
    else None
  }

  /** A criterion is malformed exactly when it has more than one colon; otherwise the colon parts name and value. */
  lemma CriterionIs(s: string)
    ensures ParseCriterion(s).None? <==> Occurrences(s, ':') >= 2
    ensures ParseCriterion(s).Some? ==>
              var c := ParseCriterion(s).value;
              if Occurrences(s, ':') == 0 then c == Criterion(s, "") else s == c.name + (":" + c.value)
  {
    SplitCounts(s, ':');
    SplitIs(s, ":");
  }

  /** The criteria of an AND expression, or None when one of them is malformed. */
  function ParseEach(parts: seq<string>): (r: Option<seq<Criterion>>)
    ensures r.Some? <==> forall p | p in parts :: ParseCriterion(p).Some?
    ensures r.Some? ==> |r.value| == |parts|
    ensures r.Some? ==> forall i | 0 <= i < |parts| :: ParseCriterion(parts[i]) == Some(r.value[i])
  {
    if parts == [] then Some([])
    else
      var init, last := ParseEach(parts[..|parts| - 1]), ParseCriterion(parts[|parts| - 1]);
      assert parts == parts[..|parts| - 1] + [parts[|parts| - 1]];
      if init.None? || last.None? then None else Some(init.value + [last.value])
  }

  lemma ParseEachStep(parts: seq<string>, i: nat)
    requires i < |parts| && ParseEach(parts[..i]).Some?
    ensures ParseEach(parts[..i + 1]) ==
            if ParseCriterion(parts[i]).None? then None
            else Some(ParseEach(parts[..i]).value + [ParseCriterion(parts[i]).value])
  {
    assert parts[..i + 1][..i] == parts[..i];
  }

  function ParseAnd(expression: string): Option<seq<Criterion>> {
    ParseEach(Split(expression, "&&"))
  }

  /** Texts without ampersands, joined by the AND sign, are the criteria of the expression. */
  lemma AndOf(texts: seq<string>)
    requires texts != [] && forall t | t in texts :: '&' !in t
    ensures ParseAnd(Join(texts, "&&")) == ParseEach(texts)
  {
    SplitOfJoin(texts, "&&");
  }

  // ----- meaning -----------------------------------------------------------------------------

  predicate TagMatches(t: Tag, c: Criterion) {
    t.name == c.name && (c.value == "" || t.value == c.value)
  }

  predicate Matches(tags: seq<Tag>, c: Criterion) {
    exists t | t in tags :: TagMatches(t, c)
  }

  /** For each name the value of its last criterion: a repeated name overwrites. */
  function LastByName(cs: seq<Criterion>): map<string, string> {
    if cs == [] then map[]
    else LastByName(cs[..|cs| - 1])[cs[|cs| - 1].name := cs[|cs| - 1].value]
  }

  lemma LastByNameSnoc(cs: seq<Criterion>, c: Criterion)
    ensures LastByName(cs + [c]) == LastByName(cs)[c.name := c.value]
  {
    assert (cs + [c])[..|cs|] == cs;
  }

  /** A "name:value" expression without special characters is the one criterion it looks like. */
  lemma ParseNameValue(name: string, value: string)
    requires ':' !in name && ':' !in value && '&' !in name && '&' !in value
    ensures ParseAnd(name + ":" + value) == Some([Criterion(name, value)])
    ensures LastByName(ParseAnd(name + ":" + value).value) == map[name := value]
  {
    var e := name + ":" + value;
    assert "&&"[0] !in e;
    SplitWithout(e, "&&");
    SplitAtColon(name, value);
    assert Split(e, ":") == [name, value];
    var r := ParseAnd(e);
    assert r.value == [Criterion(name, value)] by { assert [e][0] == e; }
    LastByNameSnoc([], Criterion(name, value));
    assert [] + [Criterion(name, value)] == [Criterion(name, value)];
  }

  /** A bare name is a criterion that accepts any value. */
  lemma ParseNameOnly(name: string)
    requires ':' !in name && '&' !in name
    ensures ParseAnd(name) == Some([Criterion(name, "")])
    ensures LastByName(ParseAnd(name).value) == map[name := ""]
  {
    assert "&&"[0] !in name && ":"[0] !in name;
    SplitWithout(name, "&&");
    SplitWithout(name, ":");
    assert ParseAnd(name).value == [Criterion(name, "")] by { assert [name][0] == name; }
    LastByNameSnoc([], Criterion(name, ""));
    assert [] + [Criterion(name, "")] == [Criterion(name, "")];
  }

  predicate MatchesAll(tags: seq<Tag>, wanted: map<string, string>) {
    forall n | n in wanted :: Matches(tags, Criterion(n, wanted[n]))
  }

  /** The last criterion with a name decides, ... */
  lemma {:induction false} LastCriterionWins(cs: seq<Criterion>, i: nat)
    requires i < |cs| && forall j | i < j < |cs| :: cs[j].name != cs[i].name
    ensures cs[i].name in LastByName(cs) && LastByName(cs)[cs[i].name] == cs[i].value
  {
    if i < |cs| - 1 {
      assert cs[|cs| - 1].name != cs[i].name;
      LastCriterionWins(cs[..|cs| - 1], i);
    }
  }

  /** ... and every name in the map comes from such a criterion. */
  lemma {:induction false} LastCriterionOf(cs: seq<Criterion>, n: string) returns (i: nat)
    requires n in LastByName(cs)
    ensures i < |cs| && cs[i].name == n && forall j | i < j < |cs| :: cs[j].name != n
  {
    i := |cs| - 1;
    if cs[i].name != n {
      i := LastCriterionOf(cs[..|cs| - 1], n);
    }
  }

  // ----- dropping a tag ------------------------------------------------------------------------

  function Filtered(tags: seq<Tag>, drop: Tag): seq<Tag> {
    if tags == [] then []
    else Filtered(tags[..|tags| - 1], drop) + if tags[|tags| - 1] == drop then [] else [tags[|tags| - 1]]
  }

  lemma {:induction false} FilteredKeepsOthers(tags: seq<Tag>, drop: Tag)
    requires drop !in tags
    ensures Filtered(tags, drop) == tags
  {
    if tags != [] {
      var init, last := tags[..|tags| - 1], tags[|tags| - 1];
      assert tags == init + [last];
      assert last in tags && last != drop;
      FilteredKeepsOthers(init, drop);
    }
  }

  /** The places of the other tags, in order. */
  function Others(tags: seq<Tag>, drop: Tag): (at: seq<nat>)
    ensures forall p :: p in at <==> 0 <= p < |tags| && tags[p] != drop
  {
    if tags == [] then []
    else
      var n := |tags| - 1;
      Others(tags[..n], drop) + if tags[n] == drop then [] else [n]
  }

  lemma {:induction false} OthersAscend(tags: seq<Tag>, drop: Tag, i: nat, j: nat)
    requires i < j < |Others(tags, drop)|
    ensures Others(tags, drop)[i] < Others(tags, drop)[j]
  {
    var n := |tags| - 1;
    var before := Others(tags[..n], drop);
    if j < |before| {
      OthersAscend(tags[..n], drop, i, j);
    } else {
      assert before[i] in before;
    }
  }

  /** What is left is exactly every other tag, as often as before and in the same order. */
  lemma {:induction false} FilteredIs(tags: seq<Tag>, drop: Tag)
    ensures var r, at := Filtered(tags, drop), Others(tags, drop);
            |r| == |at| && forall i | 0 <= i < |r| :: at[i] in at && r[i] == tags[at[i]]
  {
    if tags != [] {
      var n := |tags| - 1;
      var before, at := Others(tags[..n], drop), Others(tags, drop);
      FilteredIs(tags[..n], drop);
      assert at == before + if tags[n] == drop then [] else [n];
      hide Others, Filtered;
      forall i | 0 <= i < |at|
        ensures at[i] in at
        ensures i < |before| ==> before[i] in before && at[i] == before[i] && tags[..n][at[i]] == tags[at[i]]
      {
      }
    }
  }

  lemma FilteredMembers(tags: seq<Tag>, drop: Tag)
    ensures forall t :: t in Filtered(tags, drop) <==> t in tags && t != drop
  {
    FilteredIs(tags, drop);
    var r, at := Filtered(tags, drop), Others(tags, drop);
    forall t | t in tags && t != drop
      ensures t in r
    {
      var p :| 0 <= p < |tags| && tags[p] == t;
      assert p in at;
      var i :| 0 <= i < |at| && at[i] == p;
      assert r[i] == t;
    }
  }

  method FilterOutKeyTag(tags: seq<Tag>, drop: Tag) returns (r: seq<Tag>)
    ensures r == Filtered(tags, drop)
    ensures forall t :: t in r <==> t in tags && t != drop
    ensures |r| == |Others(tags, drop)|
    ensures forall i | 0 <= i < |r| :: Others(tags, drop)[i] in Others(tags, drop) && r[i] == tags[Others(tags, drop)[i]]
  {
    r := [];
    for i := 0 to |tags|
      invariant r == Filtered(tags[..i], drop)
    {
      assert tags[..i + 1][..i] == tags[..i];
      if tags[i] != drop {
        r := r + [tags[i]];
      }
    }
    assert tags[..|tags|] == tags;
    FilteredIs(tags, drop);
    FilteredMembers(tags, drop);
  }
}
