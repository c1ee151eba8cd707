/** The laws that the other modules assume of their parameters can all be met: here are parameters that meet them. */
module Witnesses {
  import opened Spi
  import EdvFormatter
  import Formatting
  import LevelDb
  import Rehome
  import Session
  import Wallet = Contents

  // ----- supplies -----------------------------------------------------------------------------------------

  function Unary(n: nat): string {
    seq(n + 1, _ => 'x')
  }

  lemma UnaryLength(n: nat)
    ensures |Unary(n)| == n + 1
  {
  }

  lemma IdSupplyAttainable()
    ensures Rehome.IdSupply(Unary, (s: string) => if s == "" then 0 else |s| - 1).Valid()
  {
  }

  lemma {:induction false} Longest(taken: set<string>) returns (bound: nat)
    ensures forall s | s in taken :: |s| <= bound
  {
    bound := 0;
    if taken != {} {
      var s :| s in taken;
      var rest := Longest(taken - {s});
      bound := if |s| > rest then |s| else rest;
    }
  }

  lemma TokenSupplyAttainable()
    ensures Session.TokenSupply(Unary).Valid()
  {
    var supply := Session.TokenSupply(Unary);
    forall taken: set<string>, from: nat
      ensures supply.Leaves(taken, from)
    {
      var bound := Longest(taken);
      UnaryLength(from + bound);
      assert supply.at(from + bound) !in taken;
    }
  }

  // ----- codings of text ----------------------------------------------------------------------------------

  lemma MacAttainable()
    ensures EdvFormatter.Mac((s: string) => "m" + s, (s: string) => if s == "" then "" else s[1..]).Valid()
  {
  }

  /** Text without colons and ampersands: each is written as a percent sign and a letter. */
  function Escape(s: string): (t: string)
    ensures ':' !in t && '&' !in t && (t == "" <==> s == "")
  {
    if s == "" then ""
    else (if s[0] == ':' then "%c" else if s[0] == '&' then "%a" else if s[0] == '%' then "%%" else [s[0]]) + Escape(s[1..])
  }

  function Unescape(t: string): string {
    if t == "" then ""
    else if t[0] != '%' || |t| == 1 then [t[0]] + Unescape(t[1..])
    else [if t[1] == 'c' then ':' else if t[1] == 'a' then '&' else '%'] + Unescape(t[2..])
  }

  lemma {:induction false} EscapeInverts(s: string)
    ensures Unescape(Escape(s)) == s
  {
    if s != "" {
      EscapeInverts(s[1..]);
      var rest := Escape(s[1..]);
      if s[0] in {':', '&', '%'} {
        assert Escape(s)[2..] == rest;
      } else {
        assert Escape(s)[1..] == rest;
      }
    }
  }

  function PlainFormatter(deterministic: bool): Formatting.Formatter {
    Formatting.Formatter(
      deterministic,
      (k: string) => k,
      (k: string) => k,
      (t: Tag) => t,
      (t: Tag) => t,
      (k: string, id: string, v: Bytes, ts: seq<Tag>) => v,
      (k: string, v: Bytes, ts: seq<Tag>) => (k, v, ts),
      Escape,
      Unescape)
  }

  lemma FormatterAttainable(deterministic: bool)
    ensures PlainFormatter(deterministic).Valid()
  {
    var f := PlainFormatter(deterministic);
    forall k
      ensures f.decodeKey(f.encodeKey(k)) == k
    {
      EscapeInverts(k);
    }
    assert forall ts :: f.FormatTags(ts) == ts;
  }

  function Marked(s: string): string { if s == "" then "" else "#" + Escape(s) }

  function Unmarked(t: string): string { if t == "" then "" else Unescape(t[1..]) }

  lemma MarkedIs(s: string, ct: Wallet.ContentType)
    ensures Unmarked(Marked(s)) == s && ':' !in Marked(s) && '&' !in Marked(s) && Marked(s) != ct.Name()
  {
    Wallet.NameLettered(ct);
    hide Wallet.ContentType.Name;
    EscapeInverts(s);
    assert s != "" ==> Marked(s)[1..] == Escape(s) && Marked(s)[0] == '#';
    assert 'A' <= ct.Name()[0];
  }

  lemma Base64Attainable()
    ensures Wallet.Base64(Marked, Unmarked).Valid()
  {
    hide Marked, Unmarked, Wallet.ContentType.Name;
    assert Marked("") == "" by {
      MarkedBlank();
    }
    forall s
      ensures Unmarked(Marked(s)) == s && ':' !in Marked(s) && '&' !in Marked(s)
    {
      MarkedIs(s, Wallet.Key);
    }
    forall s, ct: Wallet.ContentType
      ensures Marked(s) != ct.Name()
    {
      MarkedIs(s, ct);
    }
  }

  lemma MarkedBlank()
    ensures Marked("") == ""
  {
  }

  // ----- a coding of tag maps -----------------------------------------------------------------------------

  /** Codes can be told from whatever follows them. */
  ghost predicate Separates<T(!new)>(code: T -> Bytes) {
    forall a, b, x, y | code(a) + x == code(b) + y :: a == b && x == y
  }

  lemma Apart<T(!new)>(code: T -> Bytes, a: T, b: T, x: Bytes, y: Bytes)
    requires Separates(code) && code(a) + x == code(b) + y
    ensures a == b && x == y
  {
  }

  ghost function ListCode<T>(code: T -> Bytes, xs: seq<T>): Bytes {
    if xs == [] then [0] else [1] + (code(xs[0]) + ListCode(code, xs[1..]))
  }

  lemma {:induction false} ListsSeparate<T(!new)>(code: T -> Bytes, a: seq<T>, b: seq<T>, x: Bytes, y: Bytes)
    requires Separates(code) && ListCode(code, a) + x == ListCode(code, b) + y
    ensures a == b && x == y
  {
    hide Separates;
    var l, r := ListCode(code, a) + x, ListCode(code, b) + y;
    assert l[0] == r[0];
    if a == [] {
      assert b == [] && l[1..] == x && r[1..] == y;
    } else {
      assert b != [];
      assert l[1..] == code(a[0]) + (ListCode(code, a[1..]) + x);
      assert r[1..] == code(b[0]) + (ListCode(code, b[1..]) + y);
      Apart(code, a[0], b[0], ListCode(code, a[1..]) + x, ListCode(code, b[1..]) + y);
      ListsSeparate(code, a[1..], b[1..], x, y);
      assert a == [a[0]] + a[1..] && b == [b[0]] + b[1..];
    }
  }

  ghost function CharCode(c: char): Bytes {
    [(c as int / 0x1_0000 % 256) as byte, (c as int / 256 % 256) as byte, (c as int % 256) as byte]
  }

  lemma CharsSeparate()
    ensures Separates(CharCode)
  {
    forall a, b, x: Bytes, y: Bytes | CharCode(a) + x == CharCode(b) + y
      ensures a == b && x == y
    {
      var l, r := CharCode(a) + x, CharCode(b) + y;
      assert l[0] == r[0] && l[1] == r[1] && l[2] == r[2];
      Digits(a as int, b as int);
      assert l[3..] == x && r[3..] == y;
    }
  }

  lemma Digits(a: int, b: int)
    requires 0 <= a < 0x100_0000 && 0 <= b < 0x100_0000
    requires a / 0x1_0000 % 256 == b / 0x1_0000 % 256 && a / 256 % 256 == b / 256 % 256 && a % 256 == b % 256
    ensures a == b
  {
    assert a / 256 == 256 * (a / 0x1_0000) + a / 256 % 256 && b / 256 == 256 * (b / 0x1_0000) + b / 256 % 256;
  }

  ghost function TextCode(s: string): Bytes { ListCode(CharCode, s) }

  lemma TextsSeparate()
    ensures Separates(TextCode)
  {
    CharsSeparate();
    forall a, b, x: Bytes, y: Bytes | TextCode(a) + x == TextCode(b) + y
      ensures a == b && x == y
    {
      ListsSeparate(CharCode, a, b, x, y);
    }
  }

  /** The members of a set in some order, always the same for the same set. */
  ghost function Listing(s: set<string>): seq<string> {
    if s == {} then []
    else
      var x :| x in s;
      [x] + Listing(s - {x})
  }

  lemma {:induction false} ListingComplete(s: set<string>)
    ensures forall x :: x in Listing(s) <==> x in s
  {
    if s != {} {
      var l := Listing(s);
      assert l[0] in s && l == [l[0]] + Listing(s - {l[0]});
      ListingComplete(s - {l[0]});
    }
  }

  ghost function SetCode(s: set<string>): Bytes { ListCode(TextCode, Listing(s)) }

  lemma SetsSeparate()
    ensures Separates(SetCode)
  {
    TextsSeparate();
    forall a, b, x: Bytes, y: Bytes | SetCode(a) + x == SetCode(b) + y
      ensures a == b && x == y
    {
      ListsSeparate(TextCode, Listing(a), Listing(b), x, y);
      ListingComplete(a);
      ListingComplete(b);
    }
  }

  ghost function PairCode(p: (string, set<string>)): Bytes { TextCode(p.0) + SetCode(p.1) }

  lemma PairsSeparate()
    ensures Separates(PairCode)
  {
    TextsSeparate();
    SetsSeparate();
    forall a, b, x: Bytes, y: Bytes | PairCode(a) + x == PairCode(b) + y
      ensures a == b && x == y
    {
      PairsApart(a, b, x, y);
    }
  }

  lemma PairsApart(a: (string, set<string>), b: (string, set<string>), x: Bytes, y: Bytes)
    requires Separates(TextCode) && Separates(SetCode) && PairCode(a) + x == PairCode(b) + y
    ensures a == b && x == y
  {
    hide Separates, TextCode, SetCode;
    assert PairCode(a) + x == TextCode(a.0) + (SetCode(a.1) + x);
    assert PairCode(b) + y == TextCode(b.0) + (SetCode(b.1) + y);
    Apart(TextCode, a.0, b.0, SetCode(a.1) + x, SetCode(b.1) + y);
    Apart(SetCode, a.1, b.1, x, y);
  }

  ghost function Pairs(tm: LevelDb.TagMap): (ps: seq<(string, set<string>)>)
    ensures forall n :: n in tm ==> (n, tm[n]) in ps
    ensures forall p | p in ps :: p.0 in tm && tm[p.0] == p.1
  {
    var names := Listing(tm.Keys);
    ListingComplete(tm.Keys);
    assert forall i | 0 <= i < |names| :: names[i] in names;
    var ps := seq(|names|, i requires 0 <= i < |names| => (names[i], tm[names[i]]));
    assert forall i | 0 <= i < |names| :: ps[i] == (names[i], tm[names[i]]);
    ps
  }

  ghost function MapCode(tm: LevelDb.TagMap): Bytes { ListCode(PairCode, Pairs(tm)) }

  lemma MapsDiffer(a: LevelDb.TagMap, b: LevelDb.TagMap)
    requires MapCode(a) == MapCode(b)
    ensures a == b
  {
    PairsSeparate();
    ListsSeparate(PairCode, Pairs(a), Pairs(b), [], []);
    forall n
      ensures n in a <==> n in b
      ensures n in a && n in b ==> a[n] == b[n]
    {
      assert n in a ==> (n, a[n]) in Pairs(b);
      assert n in b ==> (n, b[n]) in Pairs(a);
    }
    assert a.Keys == b.Keys;
  }

  ghost function MapOf(b: Bytes): Option<LevelDb.TagMap> {
    if exists tm :: MapCode(tm) == b then
      var tm :| MapCode(tm) == b;
      Some(tm)
    else None
  }

  lemma JsonAttainable()
    ensures exists json: LevelDb.Json :: json.Valid()
  {
    var json := LevelDb.Json(MapCode, MapOf, MapCode(map[]));
    forall tm
      ensures json.decode(json.encode(tm)) == Some(tm)
    {
      assert MapCode(tm) == json.encode(tm);
      var found := MapOf(MapCode(tm)).value;
      MapsDiffer(found, tm);
    }
    assert json.Valid();
  }
}
