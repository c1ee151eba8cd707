/** Runs of the whole stack (buffer over cache over formatter over a store) against a plain map. */
module Stack {
  import opened Spi
  import opened StackModel
  import BatchedStore

  predicate Uses(c: Command, s: BatchedStore.BatchStore) {
    match c
    case Put(_, _, tags) => s.underlying.Accepts(tags)
    case Batch(ops) => forall op | op in ops :: s.underlying.Accepts(op.tags)
    case _ => true
  }

  /** An answer that is no failure is the plain map's, but for lost tags. */
  predicate Right(m: Contents, c: Command, a: Answer) {
    a == PlainAnswer(m, c) || (c.GetTags? && c.key in m && a == FoundTags([]))
  }

  /** One call.  Without faults it does exactly what the model says; whatever fails, its answer is right unless it is a
      failure that the plain map does not report. */
  method Step(s: BatchedStore.BatchStore, c: Command) returns (a: Answer)
    requires s.Valid() && Uses(c, s)
    modifies s.Repr()
    ensures s.Valid() && s.Faults() >= old(s.Faults())
    ensures s.Faults() == old(s.Faults()) ==> (a, s.State()) == Act(s.Setup(), old(s.State()), c)
    ensures a != Failed || PlainAnswer(old(s.contents), c) == Failed ==>
              Right(old(s.contents), c, a) && s.contents == PlainState(old(s.contents), c)
    ensures c.Get? || c.GetTags? || c.Flush? || c.Close? ==> s.contents == old(s.contents)
  {
    hide BatchedStore.BatchStore.Valid, FlushStep, StackModel.Append, AppendAll;
    match c
    case Put(key, value, tags) =>
      var r := s.Put(key, value, tags);
      return DoneAnswer(r);
    case Delete(key) =>
      var r := s.Delete(key);
      return DoneAnswer(r);
    case Batch(ops) =>
      var r := s.Batch(ops);
      return DoneAnswer(r);
    case Get(key) =>
      var r := s.Get(key);
      return ValueAnswer(r);
    case GetTags(key) =>
      var r := s.GetTags(key);
      return TagsAnswer(r);
    case Flush =>
      var r := s.Flush();
      return DoneAnswer(r);
    case Close =>
      var r := s.Close();
      return DoneAnswer(r);
  }

  /** Only calls that the plain map refuses too were refused. */
  predicate Undisturbed(m: Contents, cs: seq<Command>, answers: seq<Answer>)
    requires |answers| <= |cs|
  {
    forall i | 0 <= i < |answers| && answers[i] == Failed :: PlainAnswer(PlainRun(m, cs[..i]), cs[i]) == Failed
  }

  /** After the calls that gave `answers`, the store stands where the plain map stands and has answered rightly. */
  ghost predicate Follows(m: Contents, cs: seq<Command>, answers: seq<Answer>, now: Contents)
    requires |answers| <= |cs|
  {
    Undisturbed(m, cs, answers) ==>
      && now == PlainRun(m, cs[..|answers|])
      && forall i | 0 <= i < |answers| :: Right(PlainRun(m, cs[..i]), cs[i], answers[i])
  }

  lemma FollowsStep(m: Contents, cs: seq<Command>, answers: seq<Answer>, now: Contents, a: Answer, now': Contents)
    requires |answers| < |cs| && Follows(m, cs, answers, now)
    requires var c := cs[|answers|];
             a != Failed || PlainAnswer(now, c) == Failed ==> Right(now, c, a) && now' == PlainState(now, c)
    ensures Follows(m, cs, answers + [a], now')
  {
    hide PlainState, PlainAnswer, Right;
    var i, answers' := |answers|, answers + [a];
    assert cs[..i + 1][..i] == cs[..i];
    assert forall j | 0 <= j < i :: answers'[j] == answers[j];
    if Undisturbed(m, cs, answers') {
      assert answers'[i] == a;
      assert Undisturbed(m, cs, answers);
    }
  }

  /** The model's answers so far, and its state. */
  ghost predicate Matches(setup: Setup, s: State, cs: seq<Command>, answers: seq<Answer>, now: State)
    requires |answers| <= |cs|
  {
    now == After(setup, s, cs[..|answers|]) && forall i | 0 <= i < |answers| :: answers[i] == AnswerAt(setup, s, cs, i)
  }

  lemma MatchesStep(setup: Setup, s: State, cs: seq<Command>, answers: seq<Answer>, now: State, a: Answer, now': State)
    requires |answers| < |cs| && Matches(setup, s, cs, answers, now)
    requires (a, now') == Act(setup, now, cs[|answers|])
    ensures Matches(setup, s, cs, answers + [a], now')
  {
    hide Act;
    assert cs[..|answers| + 1][..|answers|] == cs[..|answers|];
  }

  /** Over a run in which nothing outside fails, every answer is the model's, and all answers are the plain map's if and
      only if no call was blocked and none asked for forgotten tags.  Whatever fails, a run in which no call failed that
      the plain map accepts was answered rightly throughout. */
  method Run(s: BatchedStore.BatchStore, cs: seq<Command>) returns (answers: seq<Answer>)
    requires s.Valid() && forall c | c in cs :: Uses(c, s)
    modifies s.Repr()
    ensures s.Valid() && |answers| == |cs| && s.Faults() >= old(s.Faults())
    ensures s.Faults() == old(s.Faults()) ==> Matches(s.Setup(), old(s.State()), cs, answers, s.State())
    ensures s.Faults() == old(s.Faults()) ==>
              ((forall i | 0 <= i < |cs| :: answers[i] == PlainAnswer(PlainRun(old(s.contents), cs[..i]), cs[i])) <==>
               Clear(s.Setup(), old(s.State()), cs))
    ensures Undisturbed(old(s.contents), cs, answers) ==>
              && s.contents == PlainRun(old(s.contents), cs)
              && forall i | 0 <= i < |cs| :: Right(PlainRun(old(s.contents), cs[..i]), cs[i], answers[i])
  {
    hide BatchedStore.BatchStore.Valid, PlainState, PlainAnswer, PlainRun, Uses, Undisturbed, Act, Right, Clear, Sound, After;
    answers := [];
    ghost var m, setup, start := s.contents, s.Setup(), s.State();
    Nothing(m, cs);
    NothingMatched(setup, start, cs);
    s.SoundBehindBuffer();
    RunAgrees(setup, start, cs);
    Behind(s);
    for i := 0 to |cs|
      invariant s.Valid() && |answers| == i && s.Faults() >= old(s.Faults())
      invariant Follows(m, cs, answers, s.contents)
      invariant s.Faults() == old(s.Faults()) ==> Matches(setup, start, cs, answers, s.State())
    {
      assert cs[i] in cs;
      ghost var before, from := s.contents, s.State();
      var a := Step(s, cs[i]);
      FollowsStep(m, cs, answers, before, a, s.contents);
      if s.Faults() == old(s.Faults()) {
        MatchesStep(setup, start, cs, answers, from, a, s.State());
      }
      answers := answers + [a];
    }
    assert cs[..|cs|] == cs;
  }

  lemma Behind(s: BatchedStore.BatchStore)
    requires s.Valid()
    ensures Denotes(s.State()) == s.contents
  {
  }

  lemma Nothing(m: Contents, cs: seq<Command>)
    ensures Follows(m, cs, [], m)
  {
    assert cs[..0] == [];
  }

  lemma NothingMatched(setup: Setup, s: State, cs: seq<Command>)
    ensures Matches(setup, s, cs, [], s)
  {
    assert cs[..0] == [];
  }
}
