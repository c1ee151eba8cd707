/** The storage contract that every layer of the stack implements.

    A store denotes a finite map from keys to entries, and a batch is a list of puts and deletes
    that is applied in order.  Each layer is proved against that meaning.  Nothing here
    can fail half-way by itself; `AppliedPrefix` says what a store may have done when it reports an error. */
module Spi {

  newtype byte = x: int | 0 <= x < 256
  type Bytes = seq<byte>

  /** The bytes of a text without characters beyond one byte. */
  function TextBytes(s: string): (b: Bytes)
    ensures |b| == |s| && forall i | 0 <= i < |s| :: b[i] as int == s[i] as int % 256
  {
    seq(|s|, i requires 0 <= i < |s| => (s[i] as int % 256) as byte)
  }

  datatype Option<+T> = None | Some(value: T)

  datatype Error =
    | EmptyKey
    | NilValue
    | InvalidTagName
    | InvalidTagValue
    | EmptyBatch
    | DataNotFound
    | BadExpression
    | MultipleResults
    | IteratorExhausted
    | FormatFailed
    | BadTagMap
    | Conflict
    | Unavailable
  {
    /** The error says that something outside failed, and nothing about the call. */
    predicate IsFault() { this in {FormatFailed, Unavailable} }
  }

  datatype Result<+T> = Ok(value: T) | Err(error: Error)

  datatype Tag = Tag(name: string, value: string)

  datatype Entry = Entry(value: Bytes, tags: seq<Tag>)

  /** An operation without a value is a delete, whatever its tags are. */
  datatype Operation = Operation(key: string, value: Option<Bytes>, tags: seq<Tag>)

  type Contents = map<string, Entry>

  // ----- validation shared by the stores ------------------------------------------------------

  predicate ColonFree(s: string) { ':' !in s }

  predicate ColonFreeTags(tags: seq<Tag>) {
    forall t | t in tags :: ColonFree(t.name) && ColonFree(t.value)
  }

  /** The first complaint about the tags, in the order in which the stores look at them. */
  function TagError(tags: seq<Tag>): (e: Option<Error>)
    ensures e.None? <==> ColonFreeTags(tags)
    ensures e.Some? ==> e.value in {InvalidTagName, InvalidTagValue}
  {
    if tags == [] then None
    else if !ColonFree(tags[0].name) then Some(InvalidTagName)
    else if !ColonFree(tags[0].value) then Some(InvalidTagValue)
    else
      assert tags == [tags[0]] + tags[1..];
      TagError(tags[1..])
  }

  function PutError(key: string, value: Option<Bytes>, tags: seq<Tag>): (e: Option<Error>)
    ensures e.None? <==> key != "" && value.Some? && ColonFreeTags(tags)
    ensures key == "" <==> e == Some(EmptyKey)
    ensures key != "" && value.None? <==> e == Some(NilValue)
    ensures e.Some? ==> e.value in {EmptyKey, NilValue, InvalidTagName, InvalidTagValue}
  {
    if key == "" then Some(EmptyKey)
    else if value.None? then Some(NilValue)
    else TagError(tags)
  }

  /** The complaint is about the first tag that has a colon, and about its name before its value. */
  lemma {:induction false} FirstComplaint(tags: seq<Tag>) returns (i: nat)
    requires TagError(tags).Some?
    ensures i < |tags| && ColonFreeTags(tags[..i]) && !ColonFreeTags([tags[i]])
    ensures TagError(tags).value == if ColonFree(tags[i].name) then InvalidTagValue else InvalidTagName
  {
    i := 0;
    if ColonFree(tags[0].name) && ColonFree(tags[0].value) {
      var j := FirstComplaint(tags[1..]);
      i := j + 1;
      assert [tags[i]] == [tags[1..][j]] && tags[..i] == [tags[0]] + tags[1..][..j];
    } else {
      assert tags[0] in [tags[0]] && tags[..0] == [];
    }
  }

  predicate KeysPresent(ops: seq<Operation>) {
    forall op | op in ops :: op.key != ""
  }

  // ----- the meaning of a batch ----------------------------------------------------------------

  function Apply(m: Contents, op: Operation): Contents {
    if op.value.None? then m - {op.key} else m[op.key := Entry(op.value.value, op.tags)]
  }

  function ApplyAll(m: Contents, ops: seq<Operation>): Contents {
    if ops == [] then m
    else Apply(ApplyAll(m, ops[..|ops| - 1]), ops[|ops| - 1])
  }

  function Keys(ops: seq<Operation>): set<string> {
    set op | op in ops :: op.key
  }

  lemma {:induction false} AppliedKeys(m: Contents, ops: seq<Operation>)
    ensures ApplyAll(m, ops).Keys <= m.Keys + Keys(ops)
  {
    if ops != [] {
      var init := ops[..|ops| - 1];
      AppliedKeys(m, init);
      assert forall op | op in init :: op in ops;
      assert ops[|ops| - 1] in ops;
      assert Keys(init) <= Keys(ops) && ops[|ops| - 1].key in Keys(ops);
    }
  }

  /** The operation that decides what is stored under `k` after the batch. */
  function LastFor(ops: seq<Operation>, k: string): Option<Operation> {
    if ops == [] then None
    else if ops[|ops| - 1].key == k then Some(ops[|ops| - 1])
    else LastFor(ops[..|ops| - 1], k)
  }

  lemma ApplyAllSnoc(m: Contents, ops: seq<Operation>, op: Operation)
    ensures ApplyAll(m, ops + [op]) == Apply(ApplyAll(m, ops), op)
  {
    assert (ops + [op])[..|ops|] == ops;
  }

  lemma ApplyAllStep(m: Contents, ops: seq<Operation>, i: nat)
    requires i < |ops|
    ensures ApplyAll(m, ops[..i + 1]) == Apply(ApplyAll(m, ops[..i]), ops[i])
  {
    assert ops[..i + 1][..i] == ops[..i];
  }

  lemma ApplyNone(m: Contents)
    ensures ApplyAll(m, []) == m
  {
  }

  /** A batch writes each key from the last operation that names it and leaves every other key alone. */
  lemma {:induction false} LastWriteWins(m: Contents, ops: seq<Operation>, k: string)
    ensures k in Keys(ops) <==> LastFor(ops, k).Some?
    ensures LastFor(ops, k).None? ==>
              (k in ApplyAll(m, ops) <==> k in m) && (k in m ==> ApplyAll(m, ops)[k] == m[k])
    ensures LastFor(ops, k).Some? ==>
              var op := LastFor(ops, k).value;
              && op in ops && op.key == k
              && (k in ApplyAll(m, ops) <==> op.value.Some?)
              && (op.value.Some? ==> ApplyAll(m, ops)[k] == Entry(op.value.value, op.tags))
    decreases |ops|
  {
    if ops != [] {
      var init, last := ops[..|ops| - 1], ops[|ops| - 1];
      assert ops == init + [last];
      LastWriteWins(m, init, k);
      assert k in Keys(ops) <==> k in Keys(init) || k == last.key;
    }
  }

  /** Replaying a whole batch over a state that already holds any prefix of it gives the clean result. */
  lemma ReplayAfterPrefix(m: Contents, ops: seq<Operation>, n: nat)
    requires n <= |ops|
    ensures ApplyAll(ApplyAll(m, ops[..n]), ops) == ApplyAll(m, ops)
  {
    var partial := ApplyAll(m, ops[..n]);
    var again, clean := ApplyAll(partial, ops), ApplyAll(m, ops);
    forall k
      ensures k in again <==> k in clean
      ensures k in again && k in clean ==> again[k] == clean[k]
    {
      LastWriteWins(partial, ops, k);
      LastWriteWins(m, ops, k);
      LastWriteWins(m, ops[..n], k);
    }
    assert again.Keys == clean.Keys;
  }

  /** Every operation is the delete of a key that is not stored. */
  predicate NothingToDo(ops: seq<Operation>, m: Contents) {
    forall op | op in ops :: op.value.None? && op.key !in m
  }

  lemma {:induction false} NothingDone(ops: seq<Operation>, m: Contents)
    requires NothingToDo(ops, m)
    ensures ApplyAll(m, ops) == m
  {
    if ops != [] {
      NothingDone(ops[..|ops| - 1], m);
      assert ops[|ops| - 1] in ops;
      assert m - {ops[|ops| - 1].key} == m;
    }
  }

  lemma NothingToDoStep(ops: seq<Operation>, m: Contents, op: Operation)
    ensures NothingToDo(ops + [op], m) <==>
            NothingToDo(ops, m) && op.value.None? && op.key !in ApplyAll(m, ops)
  {
    assert forall x :: x in ops + [op] <==> x in ops || x == op;
    if NothingToDo(ops, m) {
      NothingDone(ops, m);
    }
  }

  // ----- what a failing store may have done --------------------------------------------------

  /** `post` is `pre` with some prefix of the batch applied. */
  ghost predicate AppliedPrefix(pre: Contents, ops: seq<Operation>, post: Contents) {
    exists n :: 0 <= n <= |ops| && post == ApplyAll(pre, ops[..n])
  }

  lemma PrefixNone(m: Contents, ops: seq<Operation>)
    ensures AppliedPrefix(m, ops, m)
  {
    assert m == ApplyAll(m, ops[..0]);
  }

  lemma PrefixAll(m: Contents, ops: seq<Operation>)
    ensures AppliedPrefix(m, ops, ApplyAll(m, ops))
  {
    assert ops[..|ops|] == ops;
  }

  /** Faults are counted where they happen, and none is reported that did not happen.  With the count unchanged, a
      call can therefore fail only for the reasons that its contract names. */
  ghost predicate Blames<T>(before: nat, r: Result<T>, after: nat) {
    before <= after && (r.Err? && r.error.IsFault() ==> before < after)
  }

  /** Contract of Store.Put. */
  ghost predicate PutMeets(pre: Contents, key: string, value: Option<Bytes>, tags: seq<Tag>,
                           post: Contents, r: Result<()>)
  {
    && (PutError(key, value, tags).Some? ==> r == Err(PutError(key, value, tags).value) && post == pre)
    && (r.Ok? ==> post == Apply(pre, Operation(key, value, tags)))
    && (r.Err? ==> post == pre || post == Apply(pre, Operation(key, value, tags)))
  }

  /** Contract of Store.Delete. */
  ghost predicate DeleteMeets(pre: Contents, key: string, post: Contents, r: Result<()>) {
    && (key == "" ==> r == Err(EmptyKey) && post == pre)
    && (r.Ok? ==> post == pre - {key})
    && (r.Err? ==> post == pre || post == pre - {key})
  }

  /** Contract of Store.Batch. */
  ghost predicate BatchMeets(pre: Contents, ops: seq<Operation>, post: Contents, r: Result<()>) {
    && (ops == [] ==> r.Err? && post == pre)
    && (r.Ok? ==> KeysPresent(ops) && post == ApplyAll(pre, ops))
    && (r.Err? ==> AppliedPrefix(pre, ops, post))
  }
}
