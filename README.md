# Presence hub model

This project models the two socket.io presence servers of the repository.
Each is a small sequential state machine over the shared `users` hash
(user id to `{online, lastSeen}`) and a log of the effects its handlers produce.

- **Friend-scoped hub** (`server/server.js`):
  - On connection it computes a mock friend list once.
  - It stores `{online: true, lastSeen}` for the user and joins the socket to the room `user:<userId>`.
  - It then emits one `userStatus` event to the room of each friend.
  - `getFriendsStatus` replies with the stored records of the cached friends.
  - `disconnect` stores `{online: false, lastSeen}` and tells the same cached friends.
- **Broadcast hub** (`offline-online-indicator/server/server.js`):
  - It makes the same store updates.
  - It sends each status change to every connected socket except the sender (`socket.broadcast.emit`).
  - `getAllUsers` returns the whole hash.

Modules:

- `Wrappers`: the `Option` type.
- `JsParseInt`: JavaScript's `parseInt(string)` with no radix, as section 19.2.5 of ECMAScript defines it. It handles leading white space, a sign, a `0x`/`0X` prefix and the longest digit prefix; NaN is `None`. It also holds `Number.prototype.toString` on naturals.
- `Presence`: the record, message and effect types shared by both hubs, plus `Delivered(log, c)`.
  - An emit records the sockets it reached at that moment.
  - `Delivered(log, c)` is the ordered list of messages connection `c` received.
- `FriendsList`: `getFriendsList`, as a pure function of the user id and of the shuffle's outcome. The outcome is a permutation the caller supplies.
- `FriendHub`: the friend-scoped hub.
  - It is a class with the hash, the global room map, the open sockets and the effect log.
  - Each socket's session keeps its user id and its cached friends.
- `BroadcastHub`: the broadcast hub as a class.

Each handler is one atomic method. `Date.now()` is a parameter. The friend-scoped handlers call it twice, once for the stored record and once for the event, so they take `storedAt` and `sentAt`.

## Model

| member | source | states |
|---|---|---|
| JsParseInt.ParseInt | server/server.js:42 | `parseInt` of a string that is empty after white space is NaN, and a negative result needs a leading minus sign |
| JsParseInt.ParseIntOfNatToString | server/server.js:39-42 | `parseInt` reads back every id that `(i + 1).toString()` produces: `ParseInt(NatToString(n)) == Some(n)` |
| JsParseInt.NatToString | server/server.js:39 | `toString` of a natural is a non-empty decimal digit string with no leading zero, denoting that natural |
| JsParseInt.NatToStringInjective | server/server.js:39 | distinct naturals print as distinct strings |
| JsParseInt.ParseIntReadsDecimal | server/server.js:42 | after an optional sign, `parseInt` reads the leading decimal digits and ignores the rest (`"03"` is 3, `"-7"` is -7, `"5abc"` is 5) |
| JsParseInt.ParseIntReadsHex | server/server.js:42 | after `0x`/`0X`, `parseInt` reads hexadecimal digits, with the sign applied |
| JsParseInt.ParseIntWithoutDigits | server/server.js:42 | with no digit after white space and an optional sign, `parseInt` gives NaN (`"abc"`, `"undefined"`, `"+-5"`, and `"- 5"`, since no white space is skipped after a sign) |
| JsParseInt.ParseIntHexWithoutDigits | server/server.js:42 | a `0x`/`0X` prefix with no hexadecimal digit after it gives NaN (`"0x"`, `"-0xg"`); together with the decimal, hex, no-digit and white-space lemmas this splits every input |
| JsParseInt.ParseIntSkipsWhitespace | server/server.js:42 | leading white space never changes what `parseInt` reads |
| FriendsList.AllUsers | server/server.js:39 | the candidate list has twenty entries |
| FriendsList.AllUsersDistinct | server/server.js:39 | the twenty ids "1".."20" are pairwise distinct |
| FriendsList.Rejected | server/server.js:42-45 | the guard returns `[]` exactly when `parseInt` reads a number outside 1..20; NaN is never rejected |
| FriendsList.Candidates | server/server.js:48-49 | the ids left to shuffle are exactly the twenty users other than the string `userId` |
| FriendsList.Without | server/server.js:49 | the filter keeps exactly the ids that differ from the given string |
| FriendsList.Shuffle | server/server.js:50 | the shuffle keeps the length and draws only from its input, and repeat-free input gives repeat-free output |
| FriendsList.Slice | server/server.js:51 | `slice(0, n)` is a prefix of length `min(n, length)` |
| FriendsList.GetFriendsList | server/server.js:37-52 | for every shuffle outcome: at most ten distinct ids, each one of "1".."20", never the id string itself; exactly ten unless the guard rejects, when none |
| FriendsList.CandidatesShape | server/server.js:48-49 | the filter leaves 19 distinct ids for one of the twenty ids and all 20 otherwise |
| FriendsList.CanonicalIdGetsTenOthers | server/server.js:42-51 | for "1".."20" the guard passes, 19 candidates remain, and the list holds exactly ten friends, none of them the user |
| FriendsList.OutOfRangeIdGetsNoFriends | server/server.js:42-45 | a decimal id outside 1..20 ("0", "21", ...) gets the empty list |
| FriendsList.NegativeIdGetsNoFriends | server/server.js:42-45 | a negative id ("-3") gets the empty list |
| FriendsList.NaNIdGetsTenFriends | server/server.js:42-51 | an id `parseInt` cannot read passes the guard (both comparisons with NaN are false), filters nothing out and gets ten friends |
| FriendsList.PaddedIdCanListItself | server/server.js:42-50 | "03" is read as user 3 but is not the string "3", so "3" can appear in the friend list of "03" |
| FriendsList.WithoutDistinct | server/server.js:49 | the filter keeps a list free of repeats and removes at most one entry |
| FriendsList.WithoutAbsent | server/server.js:49 | a string that is not in the list filters nothing out |
| Presence.RoomOf | server/server.js:69 | the room name is the user id behind a five-character prefix, so the id can be read back from it |
| Presence.RoomOfInjective | server/server.js:69 | distinct user ids have distinct rooms `user:<id>` |
| Presence.DeliveredSkipsWrite | server/server.js:63-81 | a store write delivers nothing to any connection |
| Presence.DeliveredAppend | server/server.js:79-81 | what a connection receives from two logs in sequence is what it receives from each, in order |
| FriendHub.StatusUpdate | server/server.js:72-76 | the friend-scoped `userStatus` payload carries the user id, the status and a timestamp |
| FriendHub.FanOut | server/server.js:79-81 | one emit per friend |
| FriendHub.FanOutAt | server/server.js:79-81 | the `i`-th emit goes to the room of the `i`-th friend, in friend-list order, and reaches exactly that room's members |
| FriendHub.FanOutDelivery | server/server.js:79-81 | a socket in its own user's room receives the fan-out exactly once if that user is a friend, and not at all otherwise |
| FriendHub.Leave | server/server.js:96 | the socket leaves its room before the disconnect handler runs, and a room left empty is deleted; no other room changes |
| FriendHub.CollectFriendStatuses | server/server.js:85-91 | the reply's keys are exactly the friends with a stored record, and each value is the stored record |
| FriendHub.JoinKeepsConsistent | server/server.js:60-69 | a new socket joining its own user's room, with a well-formed friend list, keeps every socket in exactly its own room and no room empty |
| FriendHub.LeaveKeepsConsistent | server/server.js:96 | a socket leaving its room on close keeps the remaining sockets and rooms consistent |
| FriendHub.Hub.constructor | server/server.js:55 | a server process starts with the `users` hash as already stored, no rooms, no sockets and no effects |
| FriendHub.Hub.EmitToFriends | server/server.js:79-81 | the `forEach` appends exactly the fan-out to the log |
| FriendHub.Hub.WriteThenFanOutDelivery | server/server.js:63-81 | a write followed by a fan-out delivers the message once to every open socket whose user is a friend, and nothing to anyone else |
| FriendHub.Hub.Connect | server/server.js:55-81 | the friend list is cached for the socket; the hash entry is overwritten with `online: true` and the other entries are kept; the socket joins `user:<userId>`; the log gains the write, then the fan-out; each open socket of a friend gets exactly one `online` event and no other socket (the sender included) gets one; the hub stays consistent |
| FriendHub.Hub.GetFriendsStatus | server/server.js:84-93 | the reply holds the current records of exactly the cached friends that have one; only the asking socket receives it; the hash, rooms and sockets are unchanged |
| FriendHub.Hub.Disconnect | server/server.js:96-114 | the socket and its room membership go first; the hash entry is overwritten with `online: false` even when sibling sockets of the user stay open; the offline event goes once to each open socket of a friend cached at connect time |
| FriendHub.OpenTwoSockets | server/server.js:55-69 | two connections of one user leave both sockets open, with the user stored online |
| FriendHub.SiblingDisconnectScenario | server/server.js:96-102 | with two sockets of one user, closing one marks the user offline while the other socket is still connected and still in the user's room |
| BroadcastHub.Broadcast | offline-online-indicator/server/server.js:41-44 | the broadcast `userStatus` payload carries the user id and the status, and no timestamp |
| BroadcastHub.WriteThenEmitDelivery | offline-online-indicator/server/server.js:35-44 | a write followed by one emit delivers the emit's message to its recipients only |
| BroadcastHub.Hub.constructor | offline-online-indicator/server/server.js:30 | a server process starts with the `users` hash as already stored, no sockets and no effects |
| BroadcastHub.Hub.Connect | offline-online-indicator/server/server.js:30-44 | the hash entry is overwritten with `online: true` and the other entries are kept; the write comes before the broadcast; every other open socket receives exactly one timestamp-free `online` event and the sender none |
| BroadcastHub.Hub.GetAllUsers | offline-online-indicator/server/server.js:47-50 | the reply is the whole hash, unchanged, and only the asking socket receives it |
| BroadcastHub.Hub.Disconnect | offline-online-indicator/server/server.js:52-66 | the hash entry is overwritten with `online: false` whatever sibling sockets remain; the write comes before the broadcast; every remaining socket receives exactly one `offline` event and the closing socket none |
| BroadcastHub.OpenTwoSockets | offline-online-indicator/server/server.js:30-44 | from any stored hash, two connections of user "7" store "7" online; the first socket is told of the second, and the second socket is told nothing |
| BroadcastHub.SiblingDisconnectScenario | offline-online-indicator/server/server.js:52-66 | from any stored hash, with two sockets of user "7", closing one marks "7" offline while the other is still connected, and that other socket receives exactly one `offline` event |

## Left out

- The Express app, CORS, the HTTP endpoints (`/status`, `/users`) and `httpServer.listen`: transport, not presence logic.
- Creating and connecting the Redis clients, and their error handlers.
  - The hash is an in-memory map.
  - The Redis adapter's cross-process relay is one global room map.
- SIGTERM shutdown and all `console.log`/`console.error` calls, including the socket `'error'` handler, which only logs.
- Interleaving of asynchronous handlers, across sockets and within one socket: each handler is one atomic step.
  - Within one socket, the `disconnect` listener is registered only at `server/server.js:96`, after the awaited write at line 63. A client that closes during that write never has its record set to `online: false`, and its friends are never told it went offline. The broadcast hub has the same gap: its `disconnect` listener is registered at `offline-online-indicator/server/server.js:52`, after the awaited write at line 35. The model always runs `Connect` to completion before any `Disconnect`, so it does not show this case.
- `JSON.stringify`/`JSON.parse`: records are stored and returned as values.
  - `getAllUsers` replies with the JSON strings of the hash; here they are the records they encode.
- `Math.random`: the comparator-based shuffle becomes an arbitrary permutation supplied by the caller. Properties are stated for every permutation.
- `Date.now()`: a parameter.
- Each socket's own room (named by its socket id) is not modelled. No handler addresses it.
- A `userId` query value is always a string. A client that sends the literal string "undefined" is covered: `parseInt` reads it as NaN, and it is stored under that key.
  - A handshake with no `userId` parameter at all is not modelled. There the field passed to `hSet` is not a string, the awaited write fails, and the `connection` handler stops after the friend lookup. The join, the fan-out and the `getFriendsStatus`/`disconnect` listeners never happen.
- `parseInt` results are exact integers. Rounding huge values to doubles cannot change the `< 0` / `>= 20` guard.
- FriendsList.Shuffle: the contract states length, membership in the input and freedom from repeats, not that every candidate appears in the output. Only the first ten are used, and `GetFriendsList` states what the hub needs.
- Store and broker failures are not modelled; every write and emit succeeds.

Where the code differs from its own comments or from a first reading, the model follows the code:

- The comment at `server/server.js:47` says the shuffle excludes the user. The filter at line 49 drops only the exact string, so "03" is read as user 3 and can still list "3" (`FriendsList.PaddedIdCanListItself`).
- On connect, the friend list is computed at `server/server.js:60`, before the store write at line 63. `Hub.Connect` computes it first too. Neither depends on the other.
- socket.io removes a socket from its rooms before the `disconnect` listeners run. `Hub.Disconnect` therefore leaves the room first and then writes the record at `server/server.js:99`.
