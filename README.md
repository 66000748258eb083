# Chatbot backend: rate-limited chat turns and their bookkeeping

This project models the core of a small chat backend (`main.py`): users
register, send chat messages that are forwarded to a completion provider,
and read back their history. Every chat request passes a per-user rate
limiter built on the user's window of recent access times (at most 3
requests per 30 seconds, at most 20 per 86400 seconds); an answered turn
bumps the user's message count, stores the new window and inserts a
message record.

The model has four modules:

- `Records` (`records.dfy`): the `User` and `Message` record shapes.
- `RateLimiter` (`rate_limiter.dfy`): the decision as a specification
  function `Evaluate` and as the handler runs it, the method `Admit`, on a
  working copy of the window; lemmas for the exact boundaries (strict `<`),
  the shape and length of the allowed window, ascending order, and the
  quota kept over the whole accepted history (`AllowKeepsQuota`,
  `ReplayWithinQuota`: any four consecutive accepted requests span at least
  30 seconds, any twenty-one at least 86400 seconds).
- `History` (`history.dfy`): the pure history query: filter by user, sort by
  timestamp ascending, keep the first `last_n`, project to (user text, AI
  text). Because it sorts ascending before cutting, it returns the OLDEST
  `last_n` messages; `HistoryIsEarliest` proves exactly that.
- `ChatStore` (`chat_store.dfy`): the store as a class `Store` with a map of
  users keyed by name and a sequence of messages, the specification
  function `Chat` of one turn, `Register`, the imperative handler
  `GetAiChatResponse` (proved equal to `Chat`) and the status lookup;
  `ChatProperties` (`chat_properties.dfy`) holds the lemmas about turns and
  runs of turns.

Inputs the handler gets from outside are parameters: the current time
`now` (whole unix seconds), the provider's candidate replies
`candidates: seq<string>`, and how the two database writes go
(`PersistOutcome`: both succeed, the user update fails, or the update
succeeds and the message insert fails; there is no rollback).

Behaviour of the code that the model keeps, even where it is surprising:

- The history query returns the earliest `last_n` messages, not the most recent.
- An unknown user in a chat request makes the code fail while formatting its
  error text; the model returns `UnknownUser` and changes nothing.
- The window is pruned by one entry only when it already holds 20 or more; a
  window longer than 20 (possible through registration, which stores
  `last_access` as given) stays that long. The length bound is therefore
  proved for windows that start at 20 or fewer.
- The window is never sorted: the handler's call to `sorted` discards its
  result. Ascending order is kept only when requests arrive no earlier than
  the last recorded access (`AllowKeepsAscending`, `TurnKeepsAscending`).
- A provider that answers with no candidate yields the reply `""` and
  nothing is persisted, so the window update is lost.
- The provider call has a 10-second timeout, but the code has no handled
  timeout path: a timeout or transport failure raises an exception that
  nothing catches, so the request fails before anything is persisted. That
  unhandled failure is not modelled (see "## Left out").

## Model

| member | source | states |
|---|---|---|
| `RateLimiter.Admit` | main.py:74-84 | the handler's nested checks on a working copy of the window give exactly the limiter decision: burst refusal, then daily refusal, else the pruned window with `now` appended |
| `RateLimiter.Evaluate` | main.py:74-84 | the limiter decision: only a window of 3 or more entries is ever refused, and an allowed window always ends in `now` |
| `RateLimiter.BurstRule` | main.py:75-78 | fewer than 3 entries never trip the burst rule; from 3 entries it refuses exactly when `now - w[|w|-3] < 30`; exactly 30 seconds passes |
| `RateLimiter.DailyRule` | main.py:79-81 | after the burst rule passes, fewer than 20 entries are allowed; from 20 it refuses exactly when `now - w[|w|-20] < 86400`; exactly 86400 passes |
| `RateLimiter.Scenarios` | main.py:75-83 | worked boundary cases: empty window, 30 seconds allowed, 29 seconds refused |
| `RateLimiter.AllowedWindow` | main.py:79-84 | an allowed window ends in `now`, is `w + [now]` below 20 entries and `w[1..] + [now]` from 20 on, and stays within 20 entries when it started within 20 |
| `RateLimiter.AllowKeepsAscending` | main.py:76-83 | with only head removal and tail append, an ascending window stays ascending when `now` is not before its last entry |
| `RateLimiter.AllowKeepsQuota` | main.py:74-84 | if the window holds the last min(n, 20) accepted times and the accepted history keeps both quotas, an allowed request keeps both for the extended history |
| `RateLimiter.ReplayWithinQuota` | main.py:74-84 | for any sequence of request times from an empty window, the allowed ones are within both quotas and the window tracks the most recent 20 of them |
| `History.ByUser` | main.py:134 | the selection holds only messages of the named user, drawn from the stored messages |
| `History.ByUserComplete` | main.py:134 | every stored message of the user is selected, as many times as it is stored |
| `History.Insert` | main.py:134 | inserting a message into the ordered list adds exactly that message |
| `History.InsertSorted` | main.py:134 | inserting into a timestamp-ordered list keeps it ordered |
| `History.SortByTime` | main.py:134 | the sort is a permutation of its input, ascending by timestamp |
| `History.Earliest` | main.py:134 | sorting by timestamp and cutting at `last_n` keeps min(n, count) messages in ascending timestamp order |
| `History.EarliestSelects` | main.py:134 | the cut keeps min(n, count) messages, ascending, from the input, and none left out is earlier than any kept |
| `History.Project` | main.py:137 | each result entry is the message's user text and reply, position by position |
| `History.GetUserChatHistory` | main.py:122-138 | a non-empty unknown user name is refused with that name, and only then; the empty name skips the check |
| `History.HistoryIsEarliest` | main.py:133-137 | the entries are the user's own stored messages, ascending by timestamp, min(last_n, count) of them, the earliest ones, each projected to (message, reply) |
| `ChatStore.GetChatStatusToday` | main.py:141-150 | a status exists exactly for registered names and reports the stored name and message count |
| `ChatStore.Chat` | main.py:64-119 | one chat turn never adds or removes a user, and only extends the stored messages, by at most one |
| `ChatStore.Store.Register` | main.py:53-56 | a new name is stored with its record as given; a name already taken leaves the users as they were; messages are unchanged |
| `ChatStore.Store.GetAiChatResponse` | main.py:64-119 | the handler's new users, messages and reply are exactly those of one chat turn `Chat` on the old state |
| `ChatProperties.UnknownUserChangesNothing` | main.py:68-70 | an unknown user gets `UnknownUser`, the store is unchanged, and the outcome does not depend on time, provider answer or writes |
| `ChatProperties.DeniedChangesNothing` | main.py:75-81 | a refused request reports the refusing rule, leaves window, count and messages unchanged, and does not depend on provider answer or writes |
| `ChatProperties.NoCandidateChangesNothing` | main.py:100-119 | an allowed request with no candidate replies `""` and persists nothing, so the window append is lost |
| `ChatProperties.AnsweredTurn` | main.py:100-119 | with a candidate: the reply is the first candidate; unless the update fails the user gets the new window and count + 1; one message (user, now, text, reply) is added only when both writes succeed; other users untouched |
| `ChatProperties.ChatFrame` | main.py:64-119 | no turn adds or removes users or changes another user; the count moves by 0 or 1; messages grow by at most one message of this user at this time |
| `ChatProperties.TurnKeepsConsistent` | main.py:104-118 | unless the message insert fails after a successful user update, every user's count still equals the number of its stored messages |
| `ChatProperties.InsertFailureBreaksConsistency` | main.py:111-118 | a failed insert after a successful update leaves the count one ahead of the stored messages (no rollback) |
| `ChatProperties.RegisterKeepsConsistent` | main.py:53-56 | registering a user with count 0 keeps counts equal to stored messages |
| `ChatProperties.RunKeepsConsistent` | main.py:64-119 | after any number of turns none of which fails on the message insert after updating the user, every count equals that user's number of stored messages |
| `ChatProperties.RunKeepsWindowsBounded` | main.py:79-84 | no window exceeds 20 entries after any number of turns when none did at the start |
| `ChatProperties.TurnKeepsAscending` | main.py:74-84 | a turn no earlier than the user's last recorded access keeps that window ascending |
| `ChatProperties.StatusCountsAnsweredTurns` | main.py:104-106 | the status count goes up by exactly one when an allowed turn with a candidate writes the user, and is unchanged otherwise |

## Left out

- HTTP routing, the application lifespan and database connection setup (main.py:34-61): framework glue.
- MongoDB calls and document ids: replaced by the in-memory map and sequence; `Register` does not return the inserted id. Users and messages share one collection in the code; they are kept apart here, which changes no lookup because users are found by `name` and messages by `user_name`.
- Duplicate registrations: the code inserts a second record under the same name; lookups return the first, so the model keeps only the first.
- The provider call (URL, token, model name, JSON decoding) is the `candidates` parameter; a response without `choices`, which makes the code fail, is not modelled.
- The provider call's 10-second timeout and transport failures: the code does not handle them (the exception escapes the handler and nothing is persisted), and the model has no outcome for them.
- The clock and the rounding of the current time are the integer parameter `now`.
- `History.GetUserChatHistory`: requires `last_n > 0`; the database driver's meaning of a zero or negative limit is not modelled.
- `History.SortByTime`: messages with equal timestamps keep their storage order; the database leaves their order unspecified.
- Fields the code accepts as missing or null (`last_access`, `message_count`) are always present here; `message_count` is an integer as registered, possibly negative.
- Concurrent requests for the same user racing on the window: the model is sequential.
- Logging and request validation.
