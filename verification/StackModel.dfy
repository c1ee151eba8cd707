/** What buffer over cache over formatter does when nothing outside fails, as functions, and how far that is what a
    plain map does. */
module StackModel {
  import opened Spi

  /** Whether keys are formatted deterministically, and the buffer's limit. */
  datatype Setup = Setup(deterministic: bool, limit: int)

  /** The map of the main store, what the cache holds, and the operations that wait. */
  datatype State = State(main: Contents, cache: Contents, buffer: seq<Operation>)

  datatype Command =
    | Put(key: string, value: Option<Bytes>, tags: seq<Tag>)
    | Delete(key: string)
    | Batch(ops: seq<Operation>)
    | Get(key: string)
    | GetTags(key: string)
    | Flush
    | Close

  datatype Answer = Done | Found(value: Bytes) | FoundTags(tags: seq<Tag>) | Missing | Failed

  function DoneAnswer(r: Result<()>): Answer { if r.Ok? then Done else Failed }

  function ValueAnswer(r: Result<Bytes>): Answer {
    if r.Ok? then Found(r.value) else if r.error == DataNotFound then Missing else Failed
  }

  function TagsAnswer(r: Result<seq<Tag>>): Answer {
    if r.Ok? then FoundTags(r.value) else if r.error == DataNotFound then Missing else Failed
  }

  // ----- the stack ------------------------------------------------------------------------------------

  /** With random keys a batch that only deletes what is not stored is refused further down. */
  predicate Stuck(setup: Setup, s: State) {
    !setup.deterministic && s.buffer != [] && NothingToDo(s.buffer, s.main)
  }

  function Flushed(s: State): State {
    State(ApplyAll(s.main, s.buffer), ApplyAll(s.cache, s.buffer), [])
  }

  function FlushStep(setup: Setup, s: State): (bool, State) {
    if Stuck(setup, s) then (false, s) else (true, Flushed(s))
  }

  function Append(setup: Setup, s: State, op: Operation): (bool, State) {
    var s' := s.(buffer := s.buffer + [op]);
    if |s'.buffer| >= setup.limit then FlushStep(setup, s') else (true, s')
  }

  /** Stops after the first operation whose flush is refused. */
  function AppendAll(setup: Setup, s: State, ops: seq<Operation>): (bool, State) {
    if ops == [] then (true, s)
    else
      var (ok, s') := AppendAll(setup, s, ops[..|ops| - 1]);
      if ok then Append(setup, s', ops[|ops| - 1]) else (false, s')
  }

  /** The operations went behind what was in the buffer, and no further. */
  function Holding(s: State, ops: seq<Operation>): State {
    s.(buffer := s.buffer + ops)
  }

  lemma HoldingNone(s: State)
    ensures Holding(s, []) == s
  {
    assert s.buffer + [] == s.buffer;
  }

  lemma HoldingStep(s: State, ops: seq<Operation>, i: nat)
    requires i < |ops|
    ensures Holding(Holding(s, ops[..i]), [ops[i]]) == Holding(s, ops[..i + 1])
    ensures |Holding(s, ops[..i]).buffer| == |s.buffer| + i
  {
    assert ops[..i + 1] == ops[..i] + [ops[i]];
    assert s.buffer + ops[..i + 1] == s.buffer + ops[..i] + [ops[i]];
  }

  /** Writes that leave the buffer below its limit go no further than the buffer, whatever they write, and all of them
      are accepted. */
  lemma {:induction false} BelowLimit(setup: Setup, s: State, ops: seq<Operation>)
    requires ops == [] || |s.buffer| + |ops| < setup.limit
    ensures AppendAll(setup, s, ops) == (true, Holding(s, ops))
  {
    if ops == [] {
      HoldingNone(s);
    } else {
      BelowLimit(setup, s, ops[..|ops| - 1]);
      HoldingStep(s, ops, |ops| - 1);
      assert ops[..|ops|] == ops;
    }
  }

  /** A read that misses the cache leaves a copy without tags in it. */
  function Lookup(s: State, key: string): (Option<Bytes>, State) {
    if key in s.cache then (Some(s.cache[key].value), s)
    else if key in s.main then (Some(s.main[key].value), s.(cache := s.cache[key := Entry(s.main[key].value, [])]))
    else (None, s)
  }

  function LookupTags(s: State, key: string): Option<seq<Tag>> {
    if key in s.cache then Some(s.cache[key].tags) else if key in s.main then Some(s.main[key].tags) else None
  }

  function Report(done: (bool, State)): (Answer, State) {
    (if done.0 then Done else Failed, done.1)
  }

  /** One call: its answer and the state it leaves. */
  function Act(setup: Setup, s: State, c: Command): (Answer, State) {
    match c
    case Put(key, value, tags) =>
      if PutError(key, value, tags).Some? then (Failed, s) else Report(Append(setup, s, Operation(key, value, tags)))
    case Delete(key) => if key == "" then (Failed, s) else Report(Append(setup, s, Operation(key, None, [])))
    case Batch(ops) => if ops == [] || !KeysPresent(ops) then (Failed, s) else Report(AppendAll(setup, s, ops))
    case Get(key) =>
      var (ok, s') := FlushStep(setup, s);
      if !ok || key == "" then (Failed, s')
      else
        var (found, s'') := Lookup(s', key);
        (if found.Some? then Found(found.value) else Missing, s'')
    case GetTags(key) =>
      var (ok, s') := FlushStep(setup, s);
      if !ok || key == "" then (Failed, s')
      else
        var found := LookupTags(s', key);
        (if found.Some? then FoundTags(found.value) else Missing, s')
    case _ => Report(FlushStep(setup, s))
  }

  function After(setup: Setup, s: State, cs: seq<Command>): State {
    if cs == [] then s else Act(setup, After(setup, s, cs[..|cs| - 1]), cs[|cs| - 1]).1
  }

  /** The answer to the call with index `i` of a run. */
  function AnswerAt(setup: Setup, s: State, cs: seq<Command>, i: nat): Answer
    requires i < |cs|
  {
    Act(setup, After(setup, s, cs[..i]), cs[i]).0
  }

  // ----- the plain map --------------------------------------------------------------------------------

  function PlainState(m: Contents, c: Command): Contents {
    match c
    case Put(key, value, tags) => if PutError(key, value, tags).Some? then m else Apply(m, Operation(key, value, tags))
    case Delete(key) => if key == "" then m else m - {key}
    case Batch(ops) => if KeysPresent(ops) then ApplyAll(m, ops) else m
    case _ => m
  }

  function PlainAnswer(m: Contents, c: Command): Answer {
    match c
    case Put(key, value, tags) => if PutError(key, value, tags).Some? then Failed else Done
    case Delete(key) => if key == "" then Failed else Done
    case Batch(ops) => if ops == [] || !KeysPresent(ops) then Failed else Done
    case Get(key) => if key == "" then Failed else if key in m then Found(m[key].value) else Missing
    case GetTags(key) => if key == "" then Failed else if key in m then FoundTags(m[key].tags) else Missing
    case _ => Done
  }

  function PlainRun(m: Contents, cs: seq<Command>): Contents {
    if cs == [] then m else PlainState(PlainRun(m, cs[..|cs| - 1]), cs[|cs| - 1])
  }

  // ----- when the two differ --------------------------------------------------------------------------

  /** The operation would fill the buffer and so flush it, with nothing in it but deletes of what is not stored. */
  predicate Jams(setup: Setup, s: State, op: Operation) {
    |s.buffer| + 1 >= setup.limit && Stuck(setup, s.(buffer := s.buffer + [op]))
  }

  /** The call flushes, and what it flushes only deletes what is not stored. */
  predicate Blocked(setup: Setup, s: State, c: Command) {
    match c
    case Put(_, _, _) => false
    case Delete(key) => key != "" && Jams(setup, s, Operation(key, None, []))
    case Batch(ops) => KeysPresent(ops) && exists i :: 0 <= i < |ops| && JamsAt(setup, s, ops, i)
    case Get(key) => key != "" && Stuck(setup, s)
    case GetTags(key) => key != "" && Stuck(setup, s)
    case _ => Stuck(setup, s)
  }

  predicate JamsAt(setup: Setup, s: State, ops: seq<Operation>, i: nat)
    requires i < |ops|
  {
    var (ok, s') := AppendAll(setup, s, ops[..i]);
    ok && Jams(setup, s', ops[i])
  }

  /** The call reads tags that the cache holds without them. */
  predicate Forgets(s: State, c: Command) {
    c.GetTags? && c.key != "" && var f := Flushed(s);
    c.key in f.cache && c.key in f.main && f.cache[c.key].tags != f.main[c.key].tags
  }

  /** The map that the accepted operations amount to. */
  function Denotes(s: State): Contents {
    ApplyAll(s.main, s.buffer)
  }

  /** Once the buffer has run, what is in the cache is right but for lost tags. */
  ghost predicate Sound(s: State) {
    var f := Flushed(s);
    forall k | k in f.cache :: k in f.main && f.cache[k].value == f.main[k].value
                               && (f.cache[k].tags == f.main[k].tags || f.cache[k].tags == [])
  }

  lemma FlushMeans(setup: Setup, s: State)
    ensures Flushed(FlushStep(setup, s).1) == Flushed(s)
  {
  }

  function Both(f: State, op: Operation): State {
    State(Apply(f.main, op), Apply(f.cache, op), [])
  }

  lemma AppendMeans(setup: Setup, s: State, op: Operation)
    ensures Flushed(Append(setup, s, op).1) == Both(Flushed(s), op)
    ensures Append(setup, s, op).0 <==> !Jams(setup, s, op)
  {
    hide NothingToDo, Apply;
    ApplyAllSnoc(s.main, s.buffer, op);
    ApplyAllSnoc(s.cache, s.buffer, op);
    hide ApplyAll;
    FlushMeans(setup, s.(buffer := s.buffer + [op]));
  }

  /** The operations that get into the buffer: all up to the one that jams it. */
  function Taken(setup: Setup, s: State, ops: seq<Operation>): seq<Operation> {
    if ops == [] then []
    else
      var init := ops[..|ops| - 1];
      Taken(setup, s, init) + if AppendAll(setup, s, init).0 then [ops[|ops| - 1]] else []
  }

  lemma {:induction false} AppendAllMeans(setup: Setup, s: State, ops: seq<Operation>)
    ensures var (ok, s') := AppendAll(setup, s, ops);
            && Flushed(s') == State(ApplyAll(Denotes(s), Taken(setup, s, ops)),
                                    ApplyAll(Flushed(s).cache, Taken(setup, s, ops)), [])
            && (ok ==> Taken(setup, s, ops) == ops)
            && (ok <==> !exists i :: 0 <= i < |ops| && JamsAt(setup, s, ops, i))
  {
    hide NothingToDo, Apply, Append, Jams;
    if ops != [] {
      var n := |ops| - 1;
      var init, last := ops[..n], ops[n];
      AppendAllMeans(setup, s, init);
      var (ok, s') := AppendAll(setup, s, init);
      assert ops == init + [last];
      forall i | 0 <= i < n
        ensures JamsAt(setup, s, ops, i) <==> JamsAt(setup, s, init, i)
      {
        assert ops[..i] == init[..i];
      }
      if ok {
        AppendMeans(setup, s', last);
        ApplyAllSnoc(Denotes(s), init, last);
        ApplyAllSnoc(Flushed(s).cache, init, last);
        assert JamsAt(setup, s, ops, n) <==> Jams(setup, s', last);
        assert Taken(setup, s, ops) == ops && AppendAll(setup, s, ops) == Append(setup, s', last);
      } else {
        assert Taken(setup, s, ops) == Taken(setup, s, init);
      }
    }
  }

  lemma {:induction false} SoundApply(f: State, ops: seq<Operation>)
    requires f.buffer == [] && Sound(f)
    ensures Sound(State(ApplyAll(f.main, ops), ApplyAll(f.cache, ops), []))
  {
    forall k | k in ApplyAll(f.cache, ops)
      ensures var c, m := ApplyAll(f.cache, ops), ApplyAll(f.main, ops);
              k in m && c[k].value == m[k].value && (c[k].tags == m[k].tags || c[k].tags == [])
    {
      LastWriteWins(f.cache, ops, k);
      LastWriteWins(f.main, ops, k);
      assert k in Flushed(f).cache <==> k in f.cache;
    }
  }

  lemma AppendAllStep(setup: Setup, s: State, ops: seq<Operation>, i: nat)
    requires i < |ops|
    ensures AppendAll(setup, s, ops[..i + 1]) ==
            var (ok, s') := AppendAll(setup, s, ops[..i]); if ok then Append(setup, s', ops[i]) else (false, s')
    ensures AppendAll(setup, s, ops[..0]) == (true, s)
  {
    assert ops[..i + 1][..i] == ops[..i];
  }

  lemma {:induction false} AppendAllStops(setup: Setup, s: State, ops: seq<Operation>, i: nat)
    requires i <= |ops| && !AppendAll(setup, s, ops[..i]).0
    ensures AppendAll(setup, s, ops) == AppendAll(setup, s, ops[..i])
  {
    if i == |ops| {
      assert ops[..i] == ops;
    } else {
      var init := ops[..|ops| - 1];
      assert init[..i] == ops[..i];
      AppendAllStops(setup, s, init, i);
    }
  }

  /** What a call takes into the buffer. */
  function TakenBy(setup: Setup, s: State, c: Command): seq<Operation> {
    match c
    case Put(key, value, tags) => if PutError(key, value, tags).Some? then [] else [Operation(key, value, tags)]
    case Delete(key) => if key == "" then [] else [Operation(key, None, [])]
    case Batch(ops) => if KeysPresent(ops) then Taken(setup, s, ops) else []
    case _ => []
  }

  /** The read that a call gets through to. */
  predicate Fetches(setup: Setup, s: State, c: Command, key: string) {
    c == Get(key) && key != "" && !Blocked(setup, s, c)
  }

  function Filled(f: State, key: string): State {
    if key in f.main && key !in f.cache then f.(cache := f.cache[key := Entry(f.main[key].value, [])]) else f
  }

  /** Behind the buffer, a call runs what it takes on both sides, and a read fills the cache. */
  lemma ActMeans(setup: Setup, s: State, c: Command)
    ensures var f, ops := Flushed(s), TakenBy(setup, s, c);
            Flushed(Act(setup, s, c).1) ==
            if c.Get? && Fetches(setup, s, c, c.key) then Filled(f, c.key)
            else State(ApplyAll(f.main, ops), ApplyAll(f.cache, ops), [])
  {
    hide NothingToDo, Append, Taken, KeysPresent, PutError;
    match c
    case Put(key, value, tags) =>
      if PutError(key, value, tags).None? {
        AppendOne(setup, s, Operation(key, value, tags));
      }
    case Delete(key) =>
      if key != "" {
        AppendOne(setup, s, Operation(key, None, []));
      }
    case Batch(ops) =>
      AppendAllMeans(setup, s, ops);
      assert ops == [] ==> Taken(setup, s, ops) == [] by { NoneTaken(setup, s); }
    case Get(key) => FlushMeans(setup, s);
    case GetTags(key) => FlushMeans(setup, s);
    case Flush => FlushMeans(setup, s);
    case Close => FlushMeans(setup, s);
  }

  lemma NoneTaken(setup: Setup, s: State)
    ensures Taken(setup, s, []) == []
  {
  }

  lemma AppendOne(setup: Setup, s: State, op: Operation)
    ensures Flushed(Append(setup, s, op).1) ==
            State(ApplyAll(Flushed(s).main, [op]), ApplyAll(Flushed(s).cache, [op]), [])
  {
    AppendMeans(setup, s, op);
    ApplyAllSnoc(Flushed(s).main, [], op);
    ApplyAllSnoc(Flushed(s).cache, [], op);
    assert [] + [op] == [op];
  }

  lemma SoundAct(setup: Setup, s: State, c: Command)
    requires Sound(s)
    ensures Sound(Act(setup, s, c).1)
  {
    hide Act, TakenBy, Fetches, ApplyAll;
    ActMeans(setup, s, c);
    FlushedTwice(s);
    SoundApply(Flushed(s), TakenBy(setup, s, c));
    FlushedTwice(Act(setup, s, c).1);
  }

  lemma FlushedTwice(s: State)
    ensures Flushed(Flushed(s)) == Flushed(s)
  {
  }

  /** A write that is not blocked, or any other call, leaves the map as the plain map would be. */
  lemma ContentsAct(setup: Setup, s: State, c: Command)
    requires !Blocked(setup, s, c)
    ensures Denotes(Act(setup, s, c).1) == PlainState(Denotes(s), c)
  {
    hide Act, ApplyAll, NothingToDo, Taken, Jams;
    ActMeans(setup, s, c);
    ApplyNone(Denotes(s));
    match c
    case Put(key, value, tags) => ApplyOne(Denotes(s), Operation(key, value, tags));
    case Delete(key) => ApplyOne(Denotes(s), Operation(key, None, []));
    case Batch(ops) => AppendAllMeans(setup, s, ops);
    case _ =>
  }

  lemma ApplyOne(m: Contents, op: Operation)
    ensures ApplyAll(m, [op]) == Apply(m, op)
  {
    ApplyAllSnoc(m, [], op);
    assert [] + [op] == [op];
  }

  /** A put is never blocked: it gives the flush something to do. */
  lemma PutGoesThrough(setup: Setup, s: State, op: Operation)
    requires op.value.Some?
    ensures !Jams(setup, s, op)
  {
    assert op in s.buffer + [op];
  }

  /** A call is answered as by the plain map if and only if it is not blocked and asks for no forgotten tags. */
  lemma ActAgrees(setup: Setup, s: State, c: Command)
    requires Sound(s)
    ensures Act(setup, s, c).0 == PlainAnswer(Denotes(s), c) <==> !Blocked(setup, s, c) && !Forgets(s, c)
  {
    hide ApplyAll, NothingToDo, Append, AppendAll, Jams, KeysPresent, PutError;
    match c
    case Put(key, value, tags) =>
      AppendMeans(setup, s, Operation(key, value, tags));
      if PutError(key, value, tags).None? {
        Complete(key, value, tags);
        PutGoesThrough(setup, s, Operation(key, value, tags));
      }
    case Delete(key) => AppendMeans(setup, s, Operation(key, None, []));
    case Batch(ops) => AppendAllMeans(setup, s, ops);
    case Get(key) =>
    case GetTags(key) =>
    case Flush =>
    case Close =>
  }

  lemma Complete(key: string, value: Option<Bytes>, tags: seq<Tag>)
    requires PutError(key, value, tags).None?
    ensures value.Some?
  {
  }

  // ----- whole runs -----------------------------------------------------------------------------------

  /** No call of the run was blocked, and none asked for forgotten tags. */
  ghost predicate Clear(setup: Setup, s: State, cs: seq<Command>) {
    forall i | 0 <= i < |cs| ::
      !Blocked(setup, After(setup, s, cs[..i]), cs[i]) && !Forgets(After(setup, s, cs[..i]), cs[i])
  }

  ghost predicate AnswersLikePlainMap(setup: Setup, s: State, cs: seq<Command>) {
    forall i | 0 <= i < |cs| :: AnswerAt(setup, s, cs, i) == PlainAnswer(PlainRun(Denotes(s), cs[..i]), cs[i])
  }

  /** A run is answered as by the plain map, from the first call to the last, if and only if it is clear. */
  lemma {:induction false} RunAgrees(setup: Setup, s: State, cs: seq<Command>)
    requires Sound(s)
    ensures AnswersLikePlainMap(setup, s, cs) <==> Clear(setup, s, cs)
    ensures Clear(setup, s, cs) ==> Denotes(After(setup, s, cs)) == PlainRun(Denotes(s), cs)
    ensures Sound(After(setup, s, cs))
  {
    hide Act, Blocked, Forgets, Sound, Denotes, PlainState, PlainAnswer, Clear, AnswersLikePlainMap;
    if cs == [] {
      NothingToAnswer(setup, s);
    } else {
      var n := |cs| - 1;
      var before, c := After(setup, s, cs[..n]), cs[n];
      RunAgrees(setup, s, cs[..n]);
      ClearStep(setup, s, cs);
      AnswersStep(setup, s, cs);
      ActAgrees(setup, before, c);
      SoundAct(setup, before, c);
      if !Blocked(setup, before, c) {
        ContentsAct(setup, before, c);
      }
    }
  }

  lemma NothingToAnswer(setup: Setup, s: State)
    ensures Clear(setup, s, []) && AnswersLikePlainMap(setup, s, [])
  {
  }

  lemma ClearStep(setup: Setup, s: State, cs: seq<Command>)
    requires cs != []
    ensures var n := |cs| - 1; var before := After(setup, s, cs[..n]);
            Clear(setup, s, cs) <==> Clear(setup, s, cs[..n]) && !Blocked(setup, before, cs[n]) && !Forgets(before, cs[n])
  {
    hide Blocked, Forgets, After;
    assert forall i | 0 <= i < |cs| - 1 :: cs[..|cs| - 1][..i] == cs[..i];
  }

  lemma AnswersStep(setup: Setup, s: State, cs: seq<Command>)
    requires cs != []
    ensures var n := |cs| - 1;
            AnswersLikePlainMap(setup, s, cs) <==>
            && AnswersLikePlainMap(setup, s, cs[..n])
            && Act(setup, After(setup, s, cs[..n]), cs[n]).0 == PlainAnswer(PlainRun(Denotes(s), cs[..n]), cs[n])
  {
    hide Act, After, PlainAnswer, PlainRun, Denotes;
    assert forall i | 0 <= i < |cs| - 1 :: cs[..|cs| - 1][..i] == cs[..i];
  }

  /** With deterministic keys nothing is ever blocked. */
  lemma DeterministicUnblocked(setup: Setup, s: State, c: Command)
    requires setup.deterministic
    ensures !Blocked(setup, s, c)
  {
  }

  /** With random keys, deleting what is not stored blocks every read that follows, ... */
  lemma AbsentDeleteBlocks(limit: int, m: Contents, absent: string, key: string)
    requires limit > 1 && absent != "" && absent !in m && key != ""
    ensures var setup, s, cs := Setup(false, limit), State(m, map[], []), [Delete(absent), Get(key)];
            && AnswerAt(setup, s, cs, 0) == Done && AnswerAt(setup, s, cs, 1) == Failed
            && PlainAnswer(PlainRun(m, cs[..1]), cs[1]) != Failed
  {
    var setup, s, cs := Setup(false, limit), State(m, map[], []), [Delete(absent), Get(key)];
    AfterOne(setup, s, cs);
    StuckByDelete(setup, s, absent);
    hide Act, After, Stuck;
    FailsWhenStuck(setup, Act(setup, s, cs[0]).1, key);
  }

  lemma AfterOne(setup: Setup, s: State, cs: seq<Command>)
    requires cs != []
    ensures After(setup, s, cs[..0]) == s && After(setup, s, cs[..1]) == Act(setup, s, cs[0]).1
  {
    assert cs[..1][..0] == [] && cs[..0] == [];
  }

  lemma StuckByDelete(setup: Setup, s: State, absent: string)
    requires !setup.deterministic && s.buffer == [] && 1 < setup.limit && absent != "" && absent !in s.main
    ensures var (a, s') := Act(setup, s, Delete(absent)); a == Done && Stuck(setup, s')
  {
    assert s.buffer + [Operation(absent, None, [])] == [Operation(absent, None, [])];
  }

  lemma FailsWhenStuck(setup: Setup, s: State, key: string)
    requires Stuck(setup, s)
    ensures Act(setup, s, Get(key)).0 == Failed
  {
  }

  lemma {:induction false} StuckAppendAll(setup: Setup, s: State, ops: seq<Operation>)
    requires Stuck(setup, s) && NothingToDo(ops, s.main)
    ensures var s' := AppendAll(setup, s, ops).1; Stuck(setup, s') && s'.main == s.main
  {
    if ops != [] {
      assert forall op | op in ops[..|ops| - 1] :: op in ops;
      assert ops[|ops| - 1] in ops;
      StuckAppendAll(setup, s, ops[..|ops| - 1]);
    }
  }

  /** ... and goes on doing so until something is put or something stored is deleted. */
  lemma {:induction false} StuckUntilWritten(setup: Setup, s: State, cs: seq<Command>)
    requires Stuck(setup, s)
    requires forall c | c in cs :: !c.Put? && (c.Delete? ==> c.key !in s.main) && (c.Batch? ==> NothingToDo(c.ops, s.main))
    ensures Stuck(setup, After(setup, s, cs)) && After(setup, s, cs).main == s.main
  {
    if cs != [] {
      assert forall c | c in cs[..|cs| - 1] :: c in cs;
      assert cs[|cs| - 1] in cs;
      StuckUntilWritten(setup, s, cs[..|cs| - 1]);
      StaysStuck(setup, After(setup, s, cs[..|cs| - 1]), cs[|cs| - 1]);
    }
  }

  lemma StaysStuck(setup: Setup, s: State, c: Command)
    requires Stuck(setup, s) && !c.Put?
    requires (c.Delete? ==> c.key !in s.main) && (c.Batch? ==> NothingToDo(c.ops, s.main))
    ensures Stuck(setup, Act(setup, s, c).1) && Act(setup, s, c).1.main == s.main
  {
    if c.Batch? {
      StuckAppendAll(setup, s, c.ops);
    }
  }

  // ----- which tags are forgotten ---------------------------------------------------------------------

  /** Some call took an operation on the key. */
  ghost predicate Written(setup: Setup, s: State, cs: seq<Command>, key: string) {
    exists i :: 0 <= i < |cs| && key in Keys(TakenBy(setup, After(setup, s, cs[..i]), cs[i]))
  }

  /** Some read of the key was answered. */
  ghost predicate Fetched(setup: Setup, s: State, cs: seq<Command>, key: string) {
    exists i :: 0 <= i < |cs| && Fetches(setup, After(setup, s, cs[..i]), cs[i], key)
  }

  lemma WrittenStep(setup: Setup, s: State, cs: seq<Command>, key: string)
    requires cs != []
    ensures var n := |cs| - 1;
            && (Written(setup, s, cs, key) <==>
                  Written(setup, s, cs[..n], key) || key in Keys(TakenBy(setup, After(setup, s, cs[..n]), cs[n])))
            && (Fetched(setup, s, cs, key) <==>
                  Fetched(setup, s, cs[..n], key) || Fetches(setup, After(setup, s, cs[..n]), cs[n], key))
  {
    hide TakenBy, Fetches, After;
    var n := |cs| - 1;
    forall i | 0 <= i < n
      ensures cs[..n][..i] == cs[..i]
    {
    }
  }

  /** What is behind the buffer for one key, after any run over a main store `m` and an empty cache: a written key is
      the same on both sides; any other key is as it was, and cached without its tags once it has been read. */
  ghost predicate KeyIs(f: State, m: Contents, key: string, written: bool, fetched: bool) {
    if written then (key in f.cache <==> key in f.main) && (key in f.cache ==> f.cache[key] == f.main[key])
    else
      && (key in f.main <==> key in m) && (key in m ==> f.main[key] == m[key])
      && (key in f.cache <==> key in m && fetched) && (key in f.cache ==> f.cache[key] == Entry(m[key].value, []))
  }

  lemma {:induction false} KeyAfter(setup: Setup, m: Contents, cs: seq<Command>, key: string)
    ensures var s := State(m, map[], []);
            KeyIs(Flushed(After(setup, s, cs)), m, key, Written(setup, s, cs, key), Fetched(setup, s, cs, key))
  {
    hide Act, TakenBy, Fetches, Taken;
    var s := State(m, map[], []);
    if cs != [] {
      var n := |cs| - 1;
      var before, c := After(setup, s, cs[..n]), cs[n];
      KeyAfter(setup, m, cs[..n], key);
      WrittenStep(setup, s, cs, key);
      ActMeans(setup, before, c);
      var f, ops := Flushed(before), TakenBy(setup, before, c);
      LastWriteWins(f.main, ops, key);
      LastWriteWins(f.cache, ops, key);
      OneKind(setup, before, c, key);
    }
  }

  /** A call either reads or writes. */
  lemma OneKind(setup: Setup, s: State, c: Command, key: string)
    ensures c.Get? ==> Keys(TakenBy(setup, s, c)) == {}
    ensures Fetches(setup, s, c, key) ==> c == Get(key)
    ensures c.Get? && Fetches(setup, s, c, c.key) && c.key == key ==> Fetches(setup, s, c, key)
  {
  }

  /** Over an empty cache, the tags of a key are forgotten if and only if the key was stored with tags to begin with, no
      call has written it, and a read of it has been answered. */
  lemma TagsForgotten(setup: Setup, m: Contents, cs: seq<Command>, key: string)
    requires key != ""
    ensures var s := State(m, map[], []);
            Forgets(After(setup, s, cs), GetTags(key)) <==>
            key in m && m[key].tags != [] && !Written(setup, s, cs, key) && Fetched(setup, s, cs, key)
  {
    hide Act, Written, Fetched, After, ApplyAll;
    KeyAfter(setup, m, cs, key);
  }

  /** Reading a key and then its tags is such a run. */
  lemma ReadForgetsTags(setup: Setup, m: Contents, key: string)
    requires key != "" && key in m && m[key].tags != []
    ensures var s, cs := State(m, map[], []), [Get(key), GetTags(key)];
            AnswerAt(setup, s, cs, 1) == FoundTags([]) && PlainAnswer(PlainRun(m, cs[..1]), cs[1]) == FoundTags(m[key].tags)
  {
    var s, cs := State(m, map[], []), [Get(key), GetTags(key)];
    assert cs[..1] == [Get(key)] && [Get(key)][..0] == [];
    assert After(setup, s, []) == s;
    assert ApplyAll(m, []) == m;
    assert After(setup, s, cs[..1]) == State(m, map[key := Entry(m[key].value, [])], []);
  }
}
