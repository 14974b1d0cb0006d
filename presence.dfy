/**
 * What both presence servers share: the record kept per user in the `users` hash,
 * the messages sent to sockets, and the ordered log of effects a handler produces
 * (writes to the hash and emits to sockets). An emit records the connections it
 * reached at that moment, so what a connection received is a function of the log.
 */
module Presence {
  import opened Wrappers

  /** A socket.io connection (its socket id). */
  type ConnId = nat

  /** The value stored under a user id in the `users` hash: `{online, lastSeen}`. */
  datatype Record = Record(online: bool, lastSeen: int)

  datatype Status = Online | Offline

  /** What a socket receives. */
  datatype Message =
    | UserStatus(userId: string, status: Status, timestamp: Option<int>)  // 'userStatus'
    | FriendsStatus(statuses: map<string, Record>)                      // 'friendsStatus'
    | AllUsersList(users: map<string, Record>)                           // 'allUsers'

  /** Whom an emit is addressed to: a room, the socket itself, or everyone but the socket. */
  datatype Target = Room(name: string) | Socket(conn: ConnId) | Others(sender: ConnId)

  datatype Effect =
    | Write(key: string, record: Record)                                    // hSet('users', key, record)
    | Emit(target: Target, recipients: set<ConnId>, message: Message)

  /** The personal room of a user: `user:<userId>`. */
  function RoomOf(userId: string): (room: string)
    ensures |room| == |userId| + 5 && room[5..] == userId
  {
    "user:" + userId
  }

  lemma RoomOfInjective(a: string, b: string)
    requires RoomOf(a) == RoomOf(b)
    ensures a == b
  {
    assert a == RoomOf(a)[5..];
    assert b == RoomOf(b)[5..];
  }

  /** The connections joined to room `r` (an absent room has none). */
  function Members(rooms: map<string, set<ConnId>>, r: string): (m: set<ConnId>)
    ensures r !in rooms ==> m == {}
  {
    if r in rooms then rooms[r] else {}
  }

  /** The messages that reached connection `c`, in the order of the log. */
  function Delivered(log: seq<Effect>, c: ConnId): (ms: seq<Message>)
    ensures |ms| <= |log|
  {
    if log == [] then []
    else
      var last := log[|log| - 1];
      var earlier := Delivered(log[..|log| - 1], c);
      if last.Emit? && c in last.recipients then earlier + [last.message] else earlier
  }

  /** Delivery distributes over concatenation of logs. */
  lemma {:induction false} DeliveredAppend(a: seq<Effect>, b: seq<Effect>, c: ConnId)
    ensures Delivered(a + b, c) == Delivered(a, c) + Delivered(b, c)
  {
    if b == [] {
      assert a + b == a;
    } else {
      assert (a + b)[..|a + b| - 1] == a + b[..|b| - 1];
      DeliveredAppend(a, b[..|b| - 1], c);
    }
  }

  /** A write delivers nothing: what follows it reaches connections as if it were not there. */
  lemma DeliveredSkipsWrite(before: seq<Effect>, w: Effect, after: seq<Effect>, c: ConnId)
    requires w.Write?
    ensures Delivered(before + [w] + after, c) == Delivered(before, c) + Delivered(after, c)
  {
    DeliveredAppend(before + [w], after, c);
    DeliveredAppend(before, [w], c);
    assert [w][..0] == [];
  }
}
