/**
 * The friend-scoped presence hub. On connection it stores `{online: true, lastSeen}`
 * for the user, joins the socket to the room `user:<userId>` and sends one
 * `userStatus` event to the room of each friend; the friend list is computed once per
 * connection and reused by the connection's `getFriendsStatus` and `disconnect`
 * handlers. With the Redis adapter the rooms of every server process act as one
 * global room map, which is what `rooms` holds here.
 */
module FriendHub {
  import opened Wrappers
  import opened Presence
  import FriendsList

  /** What a connection's handlers close over: its user id and the friends computed at connect time. */
  datatype Session = Session(userId: string, friends: seq<string>)

  /** The `userStatus` payload `{userId, status, timestamp}`. */
  function StatusUpdate(userId: string, status: Status, timestamp: int): (m: Message)
    ensures m.UserStatus? && m.userId == userId && m.status == status
    ensures m.timestamp == Some(timestamp)
  {
    UserStatus(userId, status, Some(timestamp))
  }

  /** One emit of `msg` to the room of each friend, in the order of `friends`. */
  function FanOut(msg: Message, friends: seq<string>, rooms: map<string, set<ConnId>>): (effects: seq<Effect>)
    ensures |effects| == |friends|
  {
    if friends == [] then []
    else
      var f := friends[|friends| - 1];
      FanOut(msg, friends[..|friends| - 1], rooms) + [Emit(Room(RoomOf(f)), Members(rooms, RoomOf(f)), msg)]
  }

  /** The rooms after connection `c` leaves room `r`; a room left empty is deleted, as the adapter does. */
  function Leave(rooms: map<string, set<ConnId>>, r: string, c: ConnId): (result: map<string, set<ConnId>>)
    ensures forall q :: q != r ==> Members(result, q) == Members(rooms, q)
    ensures Members(result, r) == Members(rooms, r) - {c}
    ensures forall q :: q in result ==> result[q] != {} || (q in rooms && rooms[q] == {} && q != r)
  {
    var rest := Members(rooms, r) - {c};
    if rest == {} then rooms - {r} else rooms[r := rest]
  }

  /** The `i`-th effect of a fan-out is the emit to the room of the `i`-th friend, and nothing else. */
  lemma {:induction false} FanOutAt(msg: Message, friends: seq<string>, rooms: map<string, set<ConnId>>, i: nat)
    requires i < |friends|
    ensures FanOut(msg, friends, rooms)[i] ==
      Emit(Room(RoomOf(friends[i])), Members(rooms, RoomOf(friends[i])), msg)
  {
    var n := |friends|;
    if i < n - 1 {
      FanOutAt(msg, friends[..n - 1], rooms, i);
    }
  }

  /**
   * A connection joined to no room other than `home`'s receives the fan-out exactly once
   * when `home` is one of the (distinct) friends and it is in that room, and not at all otherwise.
   */
  lemma {:induction false} FanOutDelivery(msg: Message, friends: seq<string>, rooms: map<string, set<ConnId>>,
                                          c: ConnId, home: string)
    requires FriendsList.Distinct(friends)
    requires forall r :: r in rooms && c in rooms[r] ==> r == RoomOf(home)
    ensures Delivered(FanOut(msg, friends, rooms), c) ==
      if home in friends && c in Members(rooms, RoomOf(home)) then [msg] else []
  {
    if friends != [] {
      var n := |friends|;
      var f := friends[n - 1];
      var prefix := friends[..n - 1];
      var e := Emit(Room(RoomOf(f)), Members(rooms, RoomOf(f)), msg);
      assert FanOut(msg, friends, rooms) == FanOut(msg, prefix, rooms) + [e];
      DeliveredAppend(FanOut(msg, prefix, rooms), [e], c);
      assert Delivered([e], c) == if c in e.recipients then [msg] else [] by {
        assert [e][..0] == [];
      }
      assert FriendsList.Distinct(prefix);
      FanOutDelivery(msg, prefix, rooms, c, home);
      if c in e.recipients {
        RoomOfInjective(f, home);
      }
      assert f !in prefix;
      assert home in friends <==> home in prefix || home == f;
    }
  }

  /**
   * `getFriendsStatus`: `statuses[friendId] = stored record` for each cached friend that
   * has a record in `users`; friends without a record are left out.
   */
  method CollectFriendStatuses(friends: seq<string>, users: map<string, Record>)
    returns (statuses: map<string, Record>)
    ensures forall f :: f in statuses <==> f in friends && f in users
    ensures forall f :: f in statuses ==> statuses[f] == users[f]
  {
    statuses := map[];
    var i := 0;
    while i < |friends|
      invariant 0 <= i <= |friends|
      invariant forall f :: f in statuses <==> f in friends[..i] && f in users
      invariant forall f :: f in statuses ==> statuses[f] == users[f]
    {
      var friendId := friends[i];
      if friendId in users {
        statuses := statuses[friendId := users[friendId]];
      }
      assert friends[..i + 1] == friends[..i] + [friendId];
      i := i + 1;
    }
    assert friends[..i] == friends;
  }

  /**
   * Each connected socket is joined to exactly its own user's room and to no other,
   * no room is empty, and each cached friend list is well formed.
   */
  ghost predicate Consistent(rooms: map<string, set<ConnId>>, sockets: map<ConnId, Session>) {
    (forall r :: r in rooms ==> rooms[r] != {})
    && (forall r, c :: r in rooms && c in rooms[r] ==> c in sockets && r == RoomOf(sockets[c].userId))
    && (forall c :: c in sockets ==> c in Members(rooms, RoomOf(sockets[c].userId)))
    && (forall c :: c in sockets ==> FriendsList.WellFormedFriends(sockets[c].userId, sockets[c].friends))
  }

  /** A new socket that joins its own user's room keeps the rooms and sockets consistent. */
  lemma JoinKeepsConsistent(rooms: map<string, set<ConnId>>, sockets: map<ConnId, Session>, conn: ConnId, session: Session)
    requires Consistent(rooms, sockets)
    requires conn !in sockets
    requires FriendsList.WellFormedFriends(session.userId, session.friends)
    ensures Consistent(rooms[RoomOf(session.userId) := Members(rooms, RoomOf(session.userId)) + {conn}],
                       sockets[conn := session])
  {
    var room := RoomOf(session.userId);
    var rooms' := rooms[room := Members(rooms, room) + {conn}];
    var sockets' := sockets[conn := session];
    forall r, c | r in rooms' && c in rooms'[r]
      ensures c in sockets' && r == RoomOf(sockets'[c].userId)
    {
      if r == room && c == conn {
      } else {
        assert r in rooms && c in rooms[r];
        assert c != conn;
      }
    }
  }

  /** A socket that closes and leaves its room keeps the rooms and the remaining sockets consistent. */
  lemma LeaveKeepsConsistent(rooms: map<string, set<ConnId>>, sockets: map<ConnId, Session>, conn: ConnId)
    requires Consistent(rooms, sockets)
    requires conn in sockets
    ensures Consistent(Leave(rooms, RoomOf(sockets[conn].userId), conn), sockets - {conn})
  {
    var rooms' := Leave(rooms, RoomOf(sockets[conn].userId), conn);
    var sockets' := sockets - {conn};
    forall r, c | r in rooms' && c in rooms'[r]
      ensures c in sockets' && r == RoomOf(sockets'[c].userId)
    {
      assert c in Members(rooms', r);
      assert c in Members(rooms, r);
    }
    forall c | c in sockets'
      ensures c in Members(rooms', RoomOf(sockets'[c].userId))
    {
      assert c in Members(rooms, RoomOf(sockets[c].userId));
    }
  }

  class Hub {
    /** The `users` hash: user id to its last stored record. */
    var users: map<string, Record>
    /** Room name to the connections joined to it. */
    var rooms: map<string, set<ConnId>>
    /** The connected sockets, each with what its handlers close over. */
    var sockets: map<ConnId, Session>
    /** Every write and emit so far, in order. */
    var log: seq<Effect>

    ghost predicate Valid()
      reads this
    {
      Consistent(rooms, sockets)
    }

    /**
     * A server process starting up: the `users` hash keeps whatever records are already
     * stored, while no socket is connected yet and so no room exists.
     */
    constructor (stored: map<string, Record>)
      ensures Valid()
      ensures users == stored && rooms == map[] && sockets == map[] && log == []
    {
      users, rooms, sockets, log := stored, map[], map[], [];
    }

    /** `friends.forEach(friendId => io.to(`user:${friendId}`).emit('userStatus', msg))`. */
    method EmitToFriends(msg: Message, friends: seq<string>)
      modifies this`log
      ensures log == old(log) + FanOut(msg, friends, rooms)
    {
      var i := 0;
      while i < |friends|
        invariant 0 <= i <= |friends|
        invariant log == old(log) + FanOut(msg, friends[..i], rooms)
      {
        var room := RoomOf(friends[i]);
        log := log + [Emit(Room(room), Members(rooms, room), msg)];
        assert friends[..i + 1][..i] == friends[..i];
        i := i + 1;
      }
      assert friends[..i] == friends;
    }

    /** Shows what every connection received from the effects appended after `before`. */
    lemma WriteThenFanOutDelivery(before: seq<Effect>, w: Effect, msg: Message, friends: seq<string>, c: ConnId)
      requires Valid()
      requires w.Write?
      requires FriendsList.Distinct(friends)
      ensures Delivered(before + [w] + FanOut(msg, friends, rooms), c) == Delivered(before, c) +
        (if c in sockets && sockets[c].userId in friends then [msg] else [])
    {
      DeliveredSkipsWrite(before, w, FanOut(msg, friends, rooms), c);
      if c in sockets {
        var home := sockets[c].userId;
        assert c in Members(rooms, RoomOf(home));
        FanOutDelivery(msg, friends, rooms, c, home);
      } else {
        assert forall r :: r in rooms ==> c !in rooms[r];
        FanOutDelivery(msg, friends, rooms, c, "");
        assert c !in Members(rooms, RoomOf(""));
      }
    }

    /**
     * The `connection` handler: compute the friend list once, store `{online: true,
     * lastSeen}` (overwriting any earlier record), join `user:<userId>`, then tell each
     * friend's room. Exactly the connected sockets of the listed friends receive one
     * `online` event each; no one else, the connecting socket included, receives anything.
     */
    method Connect(conn: ConnId, userId: string, perm: seq<nat>, storedAt: int, sentAt: int)
      requires Valid()
      requires conn !in sockets
      requires FriendsList.IsPermutation(perm, |FriendsList.Candidates(userId)|)
      modifies this
      ensures Valid()
      ensures sockets == old(sockets)[conn := Session(userId, FriendsList.GetFriendsList(userId, perm))]
      ensures users == old(users)[userId := Record(true, storedAt)]
      ensures rooms == old(rooms)[RoomOf(userId) := Members(old(rooms), RoomOf(userId)) + {conn}]
      ensures log == old(log) + [Write(userId, Record(true, storedAt))]
                   + FanOut(StatusUpdate(userId, Online, sentAt), sockets[conn].friends, rooms)
      ensures forall c ::
                Delivered(log, c) == Delivered(old(log), c) +
                (if c in sockets && sockets[c].userId in sockets[conn].friends
                 then [StatusUpdate(userId, Online, sentAt)] else [])
    {
      var friends := FriendsList.GetFriendsList(userId, perm);
      sockets := sockets[conn := Session(userId, friends)];
      var record := Record(true, storedAt);
      users := users[userId := record];
      log := log + [Write(userId, record)];
      var room := RoomOf(userId);
      rooms := rooms[room := Members(rooms, room) + {conn}];
      JoinKeepsConsistent(old(rooms), old(sockets), conn, Session(userId, friends));
      ghost var before := old(log);
      var msg := StatusUpdate(userId, Online, sentAt);
      EmitToFriends(msg, friends);
      forall c
        ensures Delivered(log, c) == Delivered(before, c) +
          (if c in sockets && sockets[c].userId in friends then [msg] else [])
      {
        WriteThenFanOutDelivery(before, Write(userId, record), msg, friends, c);
      }
    }

    /**
     * The `getFriendsStatus` handler: reply to this socket alone with the stored record
     * of each cached friend that has one. The hash and the rooms are unchanged.
     */
    method GetFriendsStatus(conn: ConnId) returns (statuses: map<string, Record>)
      requires Valid()
      requires conn in sockets
      modifies this`log
      ensures Valid()
      ensures forall f :: f in statuses <==> f in sockets[conn].friends && f in users
      ensures forall f :: f in statuses ==> statuses[f] == users[f]
      ensures log == old(log) + [Emit(Socket(conn), {conn}, FriendsStatus(statuses))]
    {
      statuses := CollectFriendStatuses(sockets[conn].friends, users);
      log := log + [Emit(Socket(conn), {conn}, FriendsStatus(statuses))];
    }

    /**
     * The `disconnect` handler. The socket has already left its room when the handler
     * runs. It stores `{online: false, lastSeen}` for the user even when other sockets
     * of the same user are still connected, then tells the rooms of the friends cached at
     * connect time (the list is not recomputed).
     */
    method Disconnect(conn: ConnId, storedAt: int, sentAt: int)
      requires Valid()
      requires conn in sockets
      modifies this
      ensures Valid()
      ensures sockets == old(sockets) - {conn}
      ensures rooms == Leave(old(rooms), RoomOf(old(sockets)[conn].userId), conn)
      ensures users == old(users)[old(sockets)[conn].userId := Record(false, storedAt)]
      ensures log == old(log) + [Write(old(sockets)[conn].userId, Record(false, storedAt))]
                   + FanOut(StatusUpdate(old(sockets)[conn].userId, Offline, sentAt), old(sockets)[conn].friends, rooms)
      ensures forall c ::
                Delivered(log, c) == Delivered(old(log), c) +
                (if c in sockets && sockets[c].userId in old(sockets)[conn].friends
                 then [StatusUpdate(old(sockets)[conn].userId, Offline, sentAt)] else [])
    {
      var session := sockets[conn];
      var userId := session.userId;
      var room := RoomOf(userId);
      rooms := Leave(rooms, room, conn);
      sockets := sockets - {conn};
      LeaveKeepsConsistent(old(rooms), old(sockets), conn);
      var record := Record(false, storedAt);
      users := users[userId := record];
      log := log + [Write(userId, record)];
      ghost var before := old(log);
      var msg := StatusUpdate(userId, Offline, sentAt);
      EmitToFriends(msg, session.friends);
      forall c
        ensures Delivered(log, c) == Delivered(before, c) +
          (if c in sockets && sockets[c].userId in session.friends then [msg] else [])
      {
        WriteThenFanOutDelivery(before, Write(userId, record), msg, session.friends, c);
      }
    }
  }

  /** A fresh hub with the two sockets 1 and 2 of `userId` connected, in that order. */
  method OpenTwoSockets(userId: string, perm: seq<nat>) returns (hub: Hub)
    requires FriendsList.IsPermutation(perm, |FriendsList.Candidates(userId)|)
    ensures fresh(hub) && hub.Valid()
    ensures hub.sockets.Keys == {1, 2} && hub.sockets[1].userId == userId && hub.sockets[2].userId == userId
    ensures userId in hub.users && hub.users[userId] == Record(true, 20)
  {
    hub := new Hub(map[]);
    hub.Connect(1, userId, perm, 10, 10);
    assert hub.sockets.Keys == {1};
    hub.Connect(2, userId, perm, 20, 20);
  }

  /**
   * Two sockets of one user: closing one of them marks the user offline in the hash
   * while the other is still connected and still joined to the user's room.
   */
  method SiblingDisconnectScenario(userId: string, perm: seq<nat>) returns (hub: Hub)
    requires FriendsList.IsPermutation(perm, |FriendsList.Candidates(userId)|)
    ensures hub.sockets.Keys == {2} && hub.sockets[2].userId == userId
    ensures 2 in Members(hub.rooms, RoomOf(userId))
    ensures userId in hub.users && hub.users[userId] == Record(false, 30)
  {
    hub := OpenTwoSockets(userId, perm);
    hub.Disconnect(1, 30, 30);
  }
}
