/** What a chat turn promises about the store: when it changes nothing, what
    an answered turn writes, which bookkeeping it keeps consistent, and
    what it does to the windows and the status lookup. */
module ChatProperties {
  import opened Records
  import opened RateLimiter
  import opened History
  import opened ChatStore

  /** An unknown user ends the request before the limiter, the provider or
      any write: the store is unchanged, and the outcome depends neither on
      the time, nor on the provider's answer, nor on the writes. */
  lemma UnknownUserChangesNothing(db: Db, req: Request, now': int, candidates': seq<string>, persist': PersistOutcome)
    requires req.userName !in db.users
    ensures Chat(db, req) == Turn(db, UnknownUser(req.userName))
    ensures Chat(db, req.(now := now', candidates := candidates', persist := persist')) == Chat(db, req)
  {
  }

  /** A refused request leaves the window, the count and the messages as
      they were, reports the rule that refused, and does not depend on the
      provider's answer or the writes (neither happens). */
  lemma DeniedChangesNothing(db: Db, req: Request, candidates': seq<string>, persist': PersistOutcome)
    requires req.userName in db.users
    requires Evaluate(db.users[req.userName].lastAccess, req.now).Deny?
    ensures Chat(db, req) == Turn(db, Limited(Evaluate(db.users[req.userName].lastAccess, req.now).reason))
    ensures Chat(db, req.(candidates := candidates', persist := persist')) == Chat(db, req)
  {
  }

  /** An allowed request whose provider returns no candidate answers "" and
      persists nothing: the window append is lost. */
  lemma NoCandidateChangesNothing(db: Db, req: Request)
    requires req.userName in db.users
    requires Evaluate(db.users[req.userName].lastAccess, req.now).Allow?
    requires req.candidates == []
    ensures Chat(db, req) == Turn(db, Answer(""))
  {
  }

  /** An allowed request with a candidate: the first candidate is the reply;
      unless the user update fails, the user's window becomes the limiter's
      and the count goes up by exactly one; exactly one message (this user,
      this time, this text, that reply) is added when both writes succeed
      and none otherwise; every other user is untouched. */
  lemma AnsweredTurn(db: Db, req: Request)
    requires req.userName in db.users
    requires Evaluate(db.users[req.userName].lastAccess, req.now).Allow?
    requires req.candidates != []
    ensures var u := db.users[req.userName];
      var t := Chat(db, req);
      && t.db.users.Keys == db.users.Keys
      && (forall k :: k in db.users && k != req.userName ==> t.db.users[k] == db.users[k])
      && (req.persist == UpdateFailed ==> t.db == db)
      && (req.persist != UpdateFailed ==>
            t.db.users[req.userName] == User(u.name, Evaluate(u.lastAccess, req.now).window, u.messageCount + 1))
      && (req.persist == Persisted ==>
            t.db.messages == db.messages + [Message(req.userName, req.now, req.message, req.candidates[0])]
            && t.reply == Answer(req.candidates[0]))
      && (req.persist != Persisted ==> t.db.messages == db.messages && t.reply == DatabaseError)
  {
  }

  /** No turn removes users or changes another user; the count moves by 0 or
      +1; messages only ever grow, by at most one message of this user
      stamped with this turn's time. */
  lemma ChatFrame(db: Db, req: Request)
    ensures var t := Chat(db, req);
      && t.db.users.Keys == db.users.Keys
      && (forall k :: k in db.users && k != req.userName ==> t.db.users[k] == db.users[k])
      && (req.userName in db.users ==>
            t.db.users[req.userName].messageCount - db.users[req.userName].messageCount in {0, 1})
      && (t.db.messages == db.messages
          || t.db.messages == db.messages + [Message(req.userName, req.now, req.message, t.db.messages[|db.messages|].reply)])
  {
  }

  /** The bookkeeping the store is meant to keep: every user is stored under
      its own name, every message belongs to a registered user, and each
      user's count equals the number of its stored messages. */
  ghost predicate Consistent(db: Db)
  {
    KeyedByName(db) && MessagesOwned(db) && CountsMatch(db)
  }

  ghost predicate KeyedByName(db: Db)
  {
    forall k :: k in db.users ==> db.users[k].name == k
  }

  ghost predicate MessagesOwned(db: Db)
  {
    forall i :: 0 <= i < |db.messages| ==> db.messages[i].userName in db.users
  }

  ghost predicate CountsMatch(db: Db)
  {
    forall k :: k in db.users ==> db.users[k].messageCount == |ByUser(db.messages, k)|
  }

  /** A turn whose message insert does not fail after a successful update
      (both writes succeed, or the update fails and nothing is written) keeps
      the count equal to the number of the user's stored messages. */
  lemma TurnKeepsConsistent(db: Db, req: Request)
    requires Consistent(db)
    requires req.persist != InsertFailed
    ensures Consistent(Chat(db, req).db)
  {
    if req.persist == Persisted {
      PersistedTurnKeepsCounts(db, req);
    } else {
      assert Chat(db, req).db == db;
    }
  }

  lemma PersistedTurnKeepsCounts(db: Db, req: Request)
    requires Consistent(db)
    requires req.persist == Persisted
    ensures Consistent(Chat(db, req).db)
  {
    if req.userName in db.users && Evaluate(db.users[req.userName].lastAccess, req.now).Allow? && req.candidates != [] {
      var u := db.users[req.userName];
      var m := Message(req.userName, req.now, req.message, req.candidates[0]);
      var u' := u.(lastAccess := Evaluate(u.lastAccess, req.now).window, messageCount := u.messageCount + 1);
      AnsweredUserKeepsConsistent(db, u', m);
      assert Chat(db, req).db == Db(db.users[req.userName := u'], db.messages + [m]);
    }
  }

  /** Storing a user with its count one higher together with one new message
      of that user keeps the bookkeeping. */
  lemma AnsweredUserKeepsConsistent(db: Db, u': User, m: Message)
    requires Consistent(db)
    requires u'.name in db.users && m.userName == u'.name
    requires u'.messageCount == db.users[u'.name].messageCount + 1
    ensures Consistent(Db(db.users[u'.name := u'], db.messages + [m]))
  {
    AnsweredUserKeepsOwners(db, u', m);
    AnsweredUserKeepsCounts(db, u', m);
  }

  lemma AnsweredUserKeepsOwners(db: Db, u': User, m: Message)
    requires MessagesOwned(db)
    requires u'.name in db.users && m.userName == u'.name
    ensures MessagesOwned(Db(db.users[u'.name := u'], db.messages + [m]))
  {
    var db' := Db(db.users[u'.name := u'], db.messages + [m]);
    forall i | 0 <= i < |db'.messages|
      ensures db'.messages[i].userName in db'.users
    {
      if i < |db.messages| {
        assert db'.messages[i] == db.messages[i];
      }
    }
  }

  lemma AnsweredUserKeepsCounts(db: Db, u': User, m: Message)
    requires CountsMatch(db)
    requires u'.name in db.users && m.userName == u'.name
    requires u'.messageCount == db.users[u'.name].messageCount + 1
    ensures CountsMatch(Db(db.users[u'.name := u'], db.messages + [m]))
  {
    var db' := Db(db.users[u'.name := u'], db.messages + [m]);
    forall k | k in db'.users
      ensures db'.users[k].messageCount == |ByUser(db'.messages, k)|
    {
      ByUserAppend(db.messages, m, k);
    }
  }

  /** Without a rollback, a failed message insert after a successful user
      update leaves the count one ahead of the stored messages. */
  lemma InsertFailureBreaksConsistency(db: Db, req: Request)
    requires Consistent(db)
    requires req.persist == InsertFailed
    requires req.userName in db.users
    requires Evaluate(db.users[req.userName].lastAccess, req.now).Allow?
    requires req.candidates != []
    ensures var t := Chat(db, req);
      t.db.users[req.userName].messageCount == |ByUser(t.db.messages, req.userName)| + 1
    ensures !Consistent(Chat(db, req).db)
  {
    var t := Chat(db, req);
    assert t.db.users[req.userName].name == req.userName;
  }

  /** Registering a new user with count 0 keeps the bookkeeping. */
  lemma RegisterKeepsConsistent(db: Db, u: User)
    requires Consistent(db)
    requires u.messageCount == 0
    ensures Consistent(Db(if u.name in db.users then db.users else db.users[u.name := u], db.messages))
  {
    if u.name !in db.users {
      ByUserNone(db.messages, u.name);
    }
  }

  /** After any number of turns none of which fails on the message insert
      after updating the user, each user's count is still the number of its
      stored messages; a user registered with count 0 therefore has a count
      equal to its answered turns. */
  lemma {:induction false} RunKeepsConsistent(db: Db, reqs: seq<Request>)
    requires Consistent(db)
    requires forall i :: 0 <= i < |reqs| ==> reqs[i].persist != InsertFailed
    ensures Consistent(Run(db, reqs))
    decreases |reqs|
  {
    if reqs != [] {
      TurnKeepsConsistent(db, reqs[0]);
      RunKeepsConsistent(Chat(db, reqs[0]).db, reqs[1..]);
    }
  }

  ghost predicate WindowsBounded(db: Db)
  {
    forall k :: k in db.users ==> |db.users[k].lastAccess| <= DailyCount
  }

  /** A window never exceeds 20 entries after any number of turns, provided
      none did at the start. */
  lemma {:induction false} RunKeepsWindowsBounded(db: Db, reqs: seq<Request>)
    requires WindowsBounded(db)
    ensures WindowsBounded(Run(db, reqs))
    decreases |reqs|
  {
    if reqs != [] {
      var req := reqs[0];
      if req.userName in db.users && Evaluate(db.users[req.userName].lastAccess, req.now).Allow? {
        AllowedWindow(db.users[req.userName].lastAccess, req.now);
      }
      RunKeepsWindowsBounded(Chat(db, req).db, reqs[1..]);
    }
  }

  /** A turn handled no earlier than the user's last recorded access keeps
      that user's window ascending; no sort is needed for it. */
  lemma TurnKeepsAscending(db: Db, req: Request)
    requires req.userName in db.users
    requires var w := db.users[req.userName].lastAccess;
      Ascending(w) && (|w| > 0 ==> w[|w| - 1] <= req.now)
    ensures Ascending(Chat(db, req).db.users[req.userName].lastAccess)
  {
    var w := db.users[req.userName].lastAccess;
    if Evaluate(w, req.now).Allow? {
      AllowKeepsAscending(w, req.now);
    }
  }

  /** The status lookup sees an answered turn: the count it reports goes up
      by exactly one once the user update is written, and stays the same on
      every other outcome. */
  lemma StatusCountsAnsweredTurns(db: Db, req: Request)
    requires req.userName in db.users
    ensures var before := GetChatStatusToday(db, req.userName).chatCount;
      var after := GetChatStatusToday(Chat(db, req).db, req.userName).chatCount;
      after == if Evaluate(db.users[req.userName].lastAccess, req.now).Allow? && req.candidates != [] && req.persist != UpdateFailed
               then before + 1 else before
  {
  }
}
