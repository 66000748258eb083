/** The read-only history query: a user's stored exchanges, ordered by
    timestamp ascending, cut to the first last_n, each projected to the
    user's text and the reply. */
module History {
  import opened Records

  /** One returned entry: the user's text and the AI's reply. */
  datatype Exchange = Exchange(user: string, ai: string)

  datatype HistoryReply = InvalidUser(name: string) | Entries(entries: seq<Exchange>)

  /** The stored messages of one user, in storage order. */
  function ByUser(ms: seq<Message>, name: string): (r: seq<Message>)
    ensures forall i :: 0 <= i < |r| ==> r[i].userName == name
    ensures multiset(r) <= multiset(ms)
  {
    if ms == [] then []
    else
      var rest := ByUser(ms[..|ms| - 1], name);
      var m := ms[|ms| - 1];
      assert ms == ms[..|ms| - 1] + [m];
      if m.userName == name then rest + [m] else rest
  }

  /** Every stored message of the user is selected, as often as it is stored. */
  lemma {:induction false} ByUserComplete(ms: seq<Message>, name: string, m: Message)
    requires m.userName == name
    ensures multiset(ByUser(ms, name))[m] == multiset(ms)[m]
  {
    if ms != [] {
      ByUserComplete(ms[..|ms| - 1], name, m);
      assert ms == ms[..|ms| - 1] + [ms[|ms| - 1]];
    }
  }

  /** Appending a message adds it to its own user's selection only. */
  lemma ByUserAppend(ms: seq<Message>, m: Message, name: string)
    ensures ByUser(ms + [m], name) == if m.userName == name then ByUser(ms, name) + [m] else ByUser(ms, name)
  {
    assert (ms + [m])[..|ms + [m]| - 1] == ms;
  }

  /** A user with no stored message has an empty selection. */
  lemma {:induction false} ByUserNone(ms: seq<Message>, name: string)
    requires forall i :: 0 <= i < |ms| ==> ms[i].userName != name
    ensures ByUser(ms, name) == []
  {
    if ms != [] {
      ByUserNone(ms[..|ms| - 1], name);
    }
  }

  ghost predicate SortedByTime(ms: seq<Message>)
  {
    forall i, j :: 0 <= i < j < |ms| ==> ms[i].timestamp <= ms[j].timestamp
  }

  /** Places m before the first entry that is not earlier than it. */
  function Insert(m: Message, ms: seq<Message>): (r: seq<Message>)
    ensures multiset(r) == multiset(ms) + multiset{m}
  {
    if ms == [] then [m]
    else if m.timestamp <= ms[0].timestamp then [m] + ms
    else
      assert ms == [ms[0]] + ms[1..];
      [ms[0]] + Insert(m, ms[1..])
  }

  lemma {:induction false} InsertSorted(m: Message, ms: seq<Message>)
    requires SortedByTime(ms)
    ensures SortedByTime(Insert(m, ms))
  {
    if ms != [] && m.timestamp > ms[0].timestamp {
      var tail := ms[1..];
      InsertSorted(m, tail);
      var t := Insert(m, tail);
      var r := [ms[0]] + t;
      forall j | 0 <= j < |t|
        ensures ms[0].timestamp <= t[j].timestamp
      {
        assert t[j] in multiset(tail) + multiset{m};
        if t[j] != m {
          assert t[j] in tail;
        }
      }
      forall i, j | 0 <= i < j < |r|
        ensures r[i].timestamp <= r[j].timestamp
      {
        if i > 0 {
          assert r[i] == t[i - 1] && r[j] == t[j - 1];
        }
      }
    }
  }

  /** Orders messages by timestamp ascending (messages with equal timestamps
      keep their storage order). */
  function SortByTime(ms: seq<Message>): (r: seq<Message>)
    ensures multiset(r) == multiset(ms)
    ensures SortedByTime(r)
  {
    if ms == [] then []
    else
      assert ms == [ms[0]] + ms[1..];
      InsertSorted(ms[0], SortByTime(ms[1..]));
      Insert(ms[0], SortByTime(ms[1..]))
  }

  /** The first n messages in timestamp order: min(n, |ms|) of them, ascending. */
  function Earliest(ms: seq<Message>, n: nat): (r: seq<Message>)
    ensures |r| == if n < |ms| then n else |ms|
    ensures SortedByTime(r)
  {
    var s := SortByTime(ms);
    assert |s| == |multiset(s)| == |ms|;
    if n < |s| then s[..n] else s
  }

  function Project(ms: seq<Message>): (r: seq<Exchange>)
    ensures |r| == |ms|
    ensures forall i :: 0 <= i < |ms| ==> r[i] == Exchange(ms[i].message, ms[i].reply)
  {
    if ms == [] then [] else [Exchange(ms[0].message, ms[0].reply)] + Project(ms[1..])
  }

  /** The history query. An empty user name skips the existence check and
      selects the messages stored under the empty name. */
  function GetUserChatHistory(users: map<string, User>, messages: seq<Message>, userName: string, lastN: int): (r: HistoryReply)
    requires lastN > 0
    ensures r.InvalidUser? <==> userName != "" && userName !in users
    ensures r.InvalidUser? ==> r.name == userName
  {
    if userName != "" && userName !in users then InvalidUser(userName)
    else Entries(Project(Earliest(ByUser(messages, userName), lastN)))
  }

  /** The first n in timestamp order are min(n, |ms|) of the given messages,
      ascending, and none of the messages left out is earlier than any kept. */
  lemma EarliestSelects(ms: seq<Message>, n: nat)
    ensures var sel := Earliest(ms, n);
      && |sel| == (if n < |ms| then n else |ms|)
      && SortedByTime(sel)
      && multiset(sel) <= multiset(ms)
      && (forall x, y :: x in sel && y in multiset(ms) - multiset(sel) ==> x.timestamp <= y.timestamp)
  {
    var s := SortByTime(ms);
    assert |s| == |multiset(s)| == |multiset(ms)| == |ms|;
    var k := if n < |s| then n else |s|;
    var sel := s[..k];
    assert sel == Earliest(ms, n);
    SplitMultiset(s, k);
    PrefixNotLater(s, k);
  }

  lemma SplitMultiset(s: seq<Message>, k: nat)
    requires k <= |s|
    ensures multiset(s[..k]) <= multiset(s)
    ensures multiset(s) - multiset(s[..k]) == multiset(s[k..])
  {
    assert s == s[..k] + s[k..];
  }

  /** What the query returns: only the user's own stored messages, in
      ascending timestamp order, min(last_n, how many they have) of them,
      and the EARLIEST ones (every message of the user left out is not
      earlier than any returned), each projected to its two texts. */
  lemma HistoryIsEarliest(users: map<string, User>, messages: seq<Message>, userName: string, lastN: int)
    requires lastN > 0
    requires GetUserChatHistory(users, messages, userName, lastN).Entries?
    ensures var own := ByUser(messages, userName);
      var sel := Earliest(own, lastN);
      && GetUserChatHistory(users, messages, userName, lastN).entries == Project(sel)
      && (forall i :: 0 <= i < |sel| ==> sel[i].userName == userName && sel[i] in messages)
      && |sel| == (if lastN < |own| then lastN else |own|)
      && SortedByTime(sel)
      && (forall x, y :: x in sel && y in multiset(own) - multiset(sel) ==> x.timestamp <= y.timestamp)
  {
    var own := ByUser(messages, userName);
    var sel := Earliest(own, lastN);
    EarliestSelects(own, lastN);
    forall i | 0 <= i < |sel|
      ensures sel[i].userName == userName && sel[i] in messages
    {
      assert sel[i] in multiset(own);
      assert sel[i] in own;
      assert sel[i] in multiset(messages);
    }
  }

  /** In a timestamp-ordered sequence, nothing in the first k is later than
      anything after them. */
  lemma PrefixNotLater(s: seq<Message>, k: nat)
    requires SortedByTime(s) && k <= |s|
    ensures forall x, y :: x in s[..k] && y in multiset(s[k..]) ==> x.timestamp <= y.timestamp
  {
    forall x, y | x in s[..k] && y in multiset(s[k..])
      ensures x.timestamp <= y.timestamp
    {
      var a :| 0 <= a < k && s[..k][a] == x;
      assert y in s[k..];
      var b :| 0 <= b < |s| - k && s[k..][b] == y;
      assert s[a] == x && s[k + b] == y;
    }
  }
}
