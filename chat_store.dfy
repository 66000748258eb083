/** The chat backend's store and its operations: registering users, the
    gated chat turn with its bookkeeping, and the per-user status lookup.
    The database is an in-memory map of users keyed by name and a sequence
    of stored messages; the completion provider's answer, the clock and the
    outcome of the two database writes are parameters. */
module ChatStore {
  import opened Records
  import opened RateLimiter
  import opened History

  datatype Db = Db(users: map<string, User>, messages: seq<Message>)

  /** How the two writes of an answered turn go: both succeed, the user
      update fails (so the message insert is never tried), or the update
      succeeds and the message insert fails. */
  datatype PersistOutcome = Persisted | UpdateFailed | InsertFailed

  /** What a chat request returns to its caller. */
  datatype ChatReply =
    | UnknownUser(name: string)
    | Limited(reason: Reason)
    | Answer(text: string)
    | DatabaseError

  /** One chat request: the user and their text, the time it is handled, the
      candidate replies the provider returns, and how the writes go. */
  datatype Request = Request(userName: string, message: string, now: int, candidates: seq<string>, persist: PersistOutcome)

  datatype Turn = Turn(db: Db, reply: ChatReply)

  /** A chat turn: an unknown user or a refusal by the limiter changes
      nothing; an allowed turn with no candidate answers "" and changes
      nothing; otherwise the first candidate is the reply, the user's window
      and count are written, then the message is inserted, and a failing
      write stops there without undoing the earlier one. No turn adds or
      removes a user, and stored messages are only ever extended, by at most
      one. */
  function Chat(db: Db, req: Request): (t: Turn)
    ensures t.db.users.Keys == db.users.Keys
    ensures |db.messages| <= |t.db.messages| <= |db.messages| + 1
    ensures t.db.messages[..|db.messages|] == db.messages
  {
    if req.userName !in db.users then Turn(db, UnknownUser(req.userName))
    else
      var u := db.users[req.userName];
      match Evaluate(u.lastAccess, req.now)
      case Deny(reason) => Turn(db, Limited(reason))
      case Allow(w) =>
        if |req.candidates| == 0 then Turn(db, Answer(""))
        else
          var text := req.candidates[0];
          var users' := db.users[req.userName := u.(lastAccess := w, messageCount := u.messageCount + 1)];
          var m := Message(req.userName, req.now, req.message, text);
          match req.persist
          case UpdateFailed => Turn(db, DatabaseError)
          case InsertFailed => Turn(Db(users', db.messages), DatabaseError)
          case Persisted => Turn(Db(users', db.messages + [m]), Answer(text))
  }

  /** The state after a sequence of chat requests, handled one at a time. */
  function Run(db: Db, reqs: seq<Request>): Db
    decreases |reqs|
  {
    if reqs == [] then db else Run(Chat(db, reqs[0]).db, reqs[1..])
  }

  datatype StatusReply = Status(userName: string, chatCount: int) | NoStatus

  /** The status lookup: the stored user's name and answered-turn count, or
      nothing for an unknown name. */
  function GetChatStatusToday(db: Db, name: string): (r: StatusReply)
    ensures r.Status? <==> name in db.users
    ensures r.Status? ==> r.userName == db.users[name].name && r.chatCount == db.users[name].messageCount
  {
    if name in db.users then Status(db.users[name].name, db.users[name].messageCount) else NoStatus
  }

  /** The database: a class whose fields the operations update in place. */
  class Store {
    var users: map<string, User>
    var messages: seq<Message>

    function State(): Db
      reads this
    {
      Db(users, messages)
    }

    constructor ()
      ensures users == map[] && messages == []
    {
      users := map[];
      messages := [];
    }

    /** Registration inserts the user record as given. A second record under
        a name already taken is never found by name lookups, which return the
        first one, so the map keeps the first. */
    method Register(u: User)
      modifies this
      ensures users == if u.name in old(users) then old(users) else old(users)[u.name := u]
      ensures messages == old(messages)
    {
      if u.name !in users {
        users := users[u.name := u];
      }
    }

    /** The chat handler, step by step: look the user up, run the limiter,
        take the provider's first candidate, bump the count, write the user,
        then insert the message. */
    method GetAiChatResponse(userName: string, message: string, now: int, candidates: seq<string>, persist: PersistOutcome)
      returns (reply: ChatReply)
      modifies this
      ensures Turn(State(), reply) == Chat(old(State()), Request(userName, message, now, candidates, persist))
    {
      if userName !in users {
        return UnknownUser(userName);
      }
      var userData := users[userName];
      var decision := Admit(userData.lastAccess, now);
      if decision.Deny? {
        return Limited(decision.reason);
      }
      userData := userData.(lastAccess := decision.window);
      var rs := "";
      if |candidates| > 0 {
        rs := candidates[0];
        var c := userData.messageCount;
        c := c + 1;
        userData := userData.(messageCount := c);
        var msg := Message(userName, now, message, rs);
        if persist == UpdateFailed {
          return DatabaseError;
        }
        users := users[userName := userData];
        if persist == InsertFailed {
          return DatabaseError;
        }
        messages := messages + [msg];
      }
      return Answer(rs);
    }
  }
}
