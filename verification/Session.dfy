/** Wallet sessions: a token cache with sliding expiry and at most one live session per user.

    Each call is one atomic step at one instant.  `trace` records the calls, and says by itself, without the
    cache, which tokens must work. */
module Session {
  import opened Spi

  /** Ten minutes, in nanoseconds. */
  const DEFAULT_CACHE_EXPIRY: int := 600_000_000_000

  datatype UserSession = UserSession(user: string, expiry: int)

  /** The random tokens in the order in which they will be drawn.  They may repeat, but never stay within any finite set. */
  datatype TokenSupply = TokenSupply(at: nat -> string) {
    ghost predicate Valid() {
      forall taken: set<string>, from: nat :: Leaves(taken, from)
    }

    ghost predicate Leaves(taken: set<string>, from: nat) {
      exists i: nat :: i >= from && at(i) !in taken
    }
  }

  /** A cached session with the last instant at which it is alive. */
  datatype Item = Item(session: UserSession, deadline: int)

  datatype Event =
    | Issued(token: string, session: UserSession, at: int)
    | Presented(token: string, at: int)
    | Closed(user: string, at: int)

  // ----- which tokens must work -------------------------------------------------------------------------

  /** From the issue at `i` up to time `t`, no two consecutive presentations of the token are further apart than its
      expiry, nor is `t` from the last of them. */
  ghost predicate Unbroken(trace: seq<Event>, i: int, t: int)
    requires 0 <= i < |trace| && trace[i].Issued?
  {
    var last := trace[|trace| - 1];
    if i == |trace| - 1 then t - last.at <= last.session.expiry
    else if last.Presented? && last.token == trace[i].token then
      t - last.at <= trace[i].session.expiry && Unbroken(trace[..|trace| - 1], i, last.at)
    else Unbroken(trace[..|trace| - 1], i, t)
  }

  /** The issue at `i` is the token's latest, and its user has not closed the wallet since. */
  ghost predicate Current(trace: seq<Event>, i: int, token: string) {
    && 0 <= i < |trace| && trace[i].Issued? && trace[i].token == token
    && forall j | i < j < |trace| ::
         && !(trace[j].Issued? && trace[j].token == token)
         && !(trace[j].Closed? && trace[j].user == trace[i].session.user)
  }

  ghost predicate Works(trace: seq<Event>, i: int, token: string, t: int) {
    Current(trace, i, token) && Unbroken(trace, i, t)
  }

  ghost predicate Accepted(trace: seq<Event>, token: string, t: int) {
    exists i :: Works(trace, i, token, t)
  }

  /** The user has a token that works. */
  ghost predicate Unlocked(trace: seq<Event>, user: string, t: int) {
    exists token, i :: Works(trace, i, token, t) && trace[i].session.user == user
  }

  /** One more call changes the fate of a token only as said here. */
  lemma OneMore(trace: seq<Event>, e: Event, i: int, token: string, t: int)
    requires 0 <= i < |trace| && trace[i].Issued?
    ensures Works(trace + [e], i, token, t) <==>
            && Current(trace, i, token)
            && !(e.Issued? && e.token == token) && !(e.Closed? && e.user == trace[i].session.user)
            && if e.Presented? && e.token == token then t - e.at <= trace[i].session.expiry && Unbroken(trace, i, e.at)
               else Unbroken(trace, i, t)
  {
    var all := trace + [e];
    assert all[..|all| - 1] == trace;
    assert forall j | 0 <= j < |trace| :: all[j] == trace[j];
    assert all[|trace|] == e;
  }

  /** After a close, no token of that user works until the next create, whatever else is called and whenever. */
  lemma ClosedUntilCreated(trace: seq<Event>, user: string, at: int, more: seq<Event>, i: int, token: string, t: int)
    requires forall e | e in more :: !(e.Issued? && e.session.user == user)
    requires 0 <= i < |trace| + 1 + |more|
    requires var e := (trace + [Closed(user, at)] + more)[i]; e.Issued? && e.session.user == user
    ensures !Works(trace + [Closed(user, at)] + more, i, token, t)
  {
    var all := trace + [Closed(user, at)] + more;
    assert all[|trace|] == Closed(user, at);
    assert forall j | |trace| < j < |all| :: all[j] in more;
  }

  // ----- the manager ------------------------------------------------------------------------------------------

  datatype CreateResult = Created(token: string) | AlreadyUnlocked | RandomFailed

  class SessionManager {
    var gstore: map<string, Item>
    var now: int
    const tokens: TokenSupply
    var next: nat
    ghost var trace: seq<Event>
    /** How often the random source has failed so far. */
    ghost var faults: nat

    predicate Live(token: string, t: int)
      reads this
    {
      token in gstore && t <= gstore[token].deadline
    }

    /** The cache and the trace agree on every token now and for ever, as long as nothing more is called. */
    ghost predicate Faithful()
      reads this
    {
      && (forall token, t | t >= now :: Live(token, t) <==> Accepted(trace, token, t))
      && (forall token, i | Live(token, now) && Current(trace, i, token) :: trace[i].session == gstore[token].session)
    }

    ghost predicate OneSessionPerUser()
      reads this
    {
      forall t1, t2 | Live(t1, now) && Live(t2, now) && gstore[t1].session.user == gstore[t2].session.user :: t1 == t2
    }

    ghost predicate Valid()
      reads this
    {
      tokens.Valid() && Faithful() && OneSessionPerUser()
    }

    /** At most one token of a user works at any time. */
    lemma OneTokenPerUser(t1: string, i: int, t2: string, j: int)
      requires Valid() && Works(trace, i, t1, now) && Works(trace, j, t2, now)
      requires trace[i].session.user == trace[j].session.user
      ensures t1 == t2 && i == j
    {
      assert Accepted(trace, t1, now) && Accepted(trace, t2, now);
      assert Live(t1, now) && Live(t2, now);
      assert trace[i].session == gstore[t1].session && trace[j].session == gstore[t2].session;
      assert t1 == t2;
      assert trace[i].token == t1 && trace[j].token == t1;
    }

    constructor (tokens: TokenSupply, now: int)
      requires tokens.Valid()
      ensures Valid() && trace == []
    {
      gstore, this.now, this.tokens, next, trace, faults := map[], now, tokens, 0, [], 0;
    }

    method Wait(d: nat)
      requires Valid()
      modifies this`now
      ensures Valid() && now == old(now) + d
    {
      now := now + d;
    }

    /** Scans the unexpired sessions for one of the user. */
    method FindLive(userID: string) returns (r: Option<string>)
      ensures r.Some? ==> Live(r.value, now) && gstore[r.value].session.user == userID
      ensures r.None? ==> forall token | Live(token, now) :: gstore[token].session.user != userID
    {
      var todo := gstore.Keys;
      while todo != {}
        invariant todo <= gstore.Keys
        invariant forall token | Live(token, now) && token !in todo :: gstore[token].session.user != userID
        decreases todo
      {
        var token :| token in todo;
        if Live(token, now) && gstore[token].session.user == userID {
          return Some(token);
        }
        todo := todo - {token};
      }
      return None;
    }

    lemma FoundUnlocked(user: string, found: Option<string>)
      requires Faithful()
      requires found.Some? ==> Live(found.value, now) && gstore[found.value].session.user == user
      requires found.None? ==> forall token | Live(token, now) :: gstore[token].session.user != user
      ensures Unlocked(trace, user, now) <==> found.Some?
    {
      if found.Some? {
        assert Accepted(trace, found.value, now);
        var i :| Works(trace, i, found.value, now);
        assert trace[i].session == gstore[found.value].session;
      }
      if Unlocked(trace, user, now) {
        var token, i :| Works(trace, i, token, now) && trace[i].session.user == user;
        assert Accepted(trace, token, now) && Live(token, now);
      }
    }

    method CreateSession(userID: string, sessionExpiry: int) returns (r: CreateResult)
      requires Valid()
      modifies this
      ensures Valid() && now == old(now)
      ensures r.AlreadyUnlocked? <==> Unlocked(old(trace), userID, now)
      ensures !r.Created? ==> trace == old(trace)
      ensures faults >= old(faults) && (r.RandomFailed? ==> faults > old(faults))
      ensures r.Created? ==> !Accepted(old(trace), r.token, now)
      ensures r.Created? ==>
                var session := UserSession(userID, if sessionExpiry == 0 then 600_000_000_000 else sessionExpiry);
                trace == old(trace) + [Issued(r.token, session, now)]
    {
      var expiry := if sessionExpiry == 0 then DEFAULT_CACHE_EXPIRY else sessionExpiry;
      var existing := FindLive(userID);
      FoundUnlocked(userID, existing);
      if existing.Some? {
        return AlreadyUnlocked;
      }
      assert tokens.Leaves(gstore.Keys, next);
      ghost var free: nat :| free >= next && tokens.at(free) !in gstore.Keys;
      while true
        invariant Valid() && gstore == old(gstore) && trace == old(trace) && now == old(now) && faults == old(faults)
        invariant next <= free
        decreases free - next
      {
        if * {
          faults := faults + 1;
          return RandomFailed;
        }
        var token := tokens.at(next);
        next := next + 1;
        if !Live(token, now) {
          SetSession(token, UserSession(userID, expiry));
          return Created(token);
        }
      }
    }

    method SetSession(token: string, session: UserSession)
      requires Valid() && !Live(token, now)
      requires forall other | Live(other, now) :: gstore[other].session.user != session.user
      modifies this`gstore, this`trace
      ensures Valid() && trace == old(trace) + [Issued(token, session, now)]
    {
      hide Accepted, Current;
      IssueStep(token, session);
      gstore := gstore[token := Item(session, now + session.expiry)];
      trace := trace + [Issued(token, session, now)];
    }

    lemma IssueStep(token: string, session: UserSession)
      requires Faithful()
      ensures var trace' := trace + [Issued(token, session, now)];
              && (forall tok, t | tok != token :: Accepted(trace', tok, t) <==> Accepted(trace, tok, t))
              && (forall t :: Accepted(trace', token, t) <==> t - now <= session.expiry)
              && (forall i | Current(trace', i, token) :: i == |trace| && trace'[i].session == session)
              && (forall tok, i | tok != token :: Current(trace', i, tok) <==> Current(trace, i, tok))
              && (forall tok, i | Current(trace, i, tok) :: 0 <= i < |trace| && trace'[i] == trace[i])
    {
      var e := Issued(token, session, now);
      var trace' := trace + [e];
      assert trace'[|trace|] == e;
      forall tok, t | tok != token
        ensures Accepted(trace', tok, t) <==> Accepted(trace, tok, t)
      {
        SameFate(trace, e, tok, t);
      }
      forall i | Current(trace', i, token)
        ensures i == |trace| && trace'[i].session == session
      {
        assert !(i < |trace|);
      }
      forall t
        ensures Accepted(trace', token, t) <==> t - now <= session.expiry
      {
        assert Current(trace', |trace|, token);
        assert Works(trace', |trace|, token, t) <==> t - now <= session.expiry;
      }
      forall tok, i | tok != token
        ensures Current(trace', i, tok) <==> Current(trace, i, tok)
      {
        assert forall j | 0 <= j < |trace| :: trace'[j] == trace[j];
      }
    }

    /** Presenting a live token gives its session a whole new expiry; any other token is refused. */
    method GetSession(authToken: string) returns (r: Option<UserSession>)
      requires Valid()
      modifies this
      ensures Valid() && now == old(now)
      ensures r.Some? <==> Accepted(old(trace), authToken, now)
      ensures r.Some? ==> r.value == old(gstore)[authToken].session
      ensures r.Some? ==> forall i | Current(old(trace), i, authToken) :: r.value == old(trace)[i].session
      ensures trace == old(trace) + [Presented(authToken, now)]
    {
      PresentStep(authToken);
      if !Live(authToken, now) {
        gstore := gstore - {authToken};
        trace := trace + [Presented(authToken, now)];
        return None;
      }
      var session := gstore[authToken].session;
      gstore := gstore[authToken := Item(session, now + session.expiry)];
      trace := trace + [Presented(authToken, now)];
      return Some(session);
    }

    lemma PresentStep(token: string)
      requires Faithful()
      ensures var trace' := trace + [Presented(token, now)];
              && (forall tok, t | tok != token :: Accepted(trace', tok, t) <==> Accepted(trace, tok, t))
              && (forall t :: Accepted(trace', token, t) <==>
                    Live(token, now) && t - now <= gstore[token].session.expiry)
              && (forall tok, i :: Current(trace', i, tok) <==> Current(trace, i, tok))
    {
      var e := Presented(token, now);
      var trace' := trace + [e];
      forall tok, i
        ensures Current(trace', i, tok) <==> Current(trace, i, tok)
      {
        assert forall j | 0 <= j < |trace| :: trace'[j] == trace[j];
        assert trace'[|trace|] == e;
      }
      forall tok, t | tok != token
        ensures Accepted(trace', tok, t) <==> Accepted(trace, tok, t)
      {
        SameFate(trace, e, tok, t);
      }
      forall t
        ensures Accepted(trace', token, t) <==> Live(token, now) && t - now <= gstore[token].session.expiry
      {
        if Accepted(trace', token, t) {
          var i :| Works(trace', i, token, t);
          assert Current(trace, i, token);
          OneMore(trace, e, i, token, t);
          assert Works(trace, i, token, now);
        }
        if Live(token, now) && t - now <= gstore[token].session.expiry {
          assert Accepted(trace, token, now);
          var i :| Works(trace, i, token, now);
          OneMore(trace, e, i, token, t);
        }
      }
    }

    /** Ends the user's live session, and reports whether there was one. */
    method CloseSession(userID: string) returns (found: bool)
      requires Valid()
      modifies this
      ensures Valid() && now == old(now)
      ensures found <==> Unlocked(old(trace), userID, now)
      ensures trace == old(trace) + [Closed(userID, now)]
      ensures !Unlocked(trace, userID, now)
    {
      CloseStep(userID);
      var existing := FindLive(userID);
      FoundUnlocked(userID, existing);
      if existing.Some? {
        assert Live(existing.value, now);
        gstore := gstore - {existing.value};
      }
      trace := trace + [Closed(userID, now)];
      CloseUnlocks(userID, old(trace));
      return existing.Some?;
    }

    lemma CloseUnlocks(user: string, before: seq<Event>)
      ensures !Unlocked(before + [Closed(user, now)], user, now)
    {
      var all := before + [Closed(user, now)];
      assert all[|before|] == Closed(user, now);
    }

    lemma CloseStep(user: string)
      requires Faithful()
      ensures var trace' := trace + [Closed(user, now)];
              && (forall tok, t | t >= now :: Accepted(trace', tok, t) <==>
                    Accepted(trace, tok, t) && gstore[tok].session.user != user)
              && (forall tok, i | Current(trace', i, tok) :: Current(trace, i, tok))
    {
      var e := Closed(user, now);
      var trace' := trace + [e];
      forall tok, i | Current(trace', i, tok)
        ensures Current(trace, i, tok)
      {
        assert forall j | 0 <= j < |trace| :: trace'[j] == trace[j];
        assert trace'[|trace|] == e;
      }
      forall tok, t | t >= now
        ensures Accepted(trace', tok, t) <==> Accepted(trace, tok, t) && gstore[tok].session.user != user
      {
        if Accepted(trace', tok, t) {
          var i :| Works(trace', i, tok, t);
          assert Current(trace, i, tok);
          OneMore(trace, e, i, tok, t);
          assert Works(trace, i, tok, t);
          assert Live(tok, t) && Live(tok, now);
        }
        if Accepted(trace, tok, t) && gstore[tok].session.user != user {
          var i :| Works(trace, i, tok, t);
          OneMore(trace, e, i, tok, t);
          assert Live(tok, t) && Live(tok, now);
        }
      }
    }
  }

  /** A call about another token, and not a close of its user, leaves a token's fate as it was. */
  lemma SameFate(trace: seq<Event>, e: Event, token: string, t: int)
    requires !e.Closed? && e.token != token
    ensures Accepted(trace + [e], token, t) <==> Accepted(trace, token, t)
  {
    var all := trace + [e];
    assert all[|trace|] == e;
    if Accepted(all, token, t) {
      var i :| Works(all, i, token, t);
      assert i < |trace| && all[i] == trace[i];
      OneMore(trace, e, i, token, t);
      assert Works(trace, i, token, t);
    }
    if Accepted(trace, token, t) {
      var i :| Works(trace, i, token, t);
      OneMore(trace, e, i, token, t);
      assert Works(all, i, token, t);
    }
  }
}
