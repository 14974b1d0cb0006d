/**
 * The broadcast variant of the presence hub. It stores the same records as the
 * friend-scoped hub, but `socket.broadcast.emit` sends each status change to every
 * connected socket except the sender, and a socket can ask for the whole `users` hash.
 */
module BroadcastHub {
  import opened Wrappers
  import opened Presence

  /** The `userStatus` payload of this variant: `{userId, status}`, with no timestamp. */
  function Broadcast(userId: string, status: Status): (m: Message)
    ensures m.UserStatus? && m.userId == userId && m.status == status
    ensures m.timestamp.None?
  {
    UserStatus(userId, status, None)
  }

  /** What a write followed by one emit delivers: the emit's message to its recipients only. */
  lemma WriteThenEmitDelivery(before: seq<Effect>, w: Effect, e: Effect, c: ConnId)
    requires w.Write? && e.Emit?
    ensures Delivered(before + [w, e], c) ==
      Delivered(before, c) + (if c in e.recipients then [e.message] else [])
  {
    DeliveredAppend(before, [w, e], c);
    assert [w, e][..1] == [w];
    assert [w][..0] == [];
  }

  class Hub {
    /** The `users` hash: user id to its last stored record. */
    var users: map<string, Record>
    /** The connected sockets and the user id each was opened with. */
    var sockets: map<ConnId, string>
    /** Every write and emit so far, in order. */
    var log: seq<Effect>

    /** A server process starting up: the `users` hash keeps whatever records are already stored. */
    constructor (stored: map<string, Record>)
      ensures users == stored && sockets == map[] && log == []
    {
      users, sockets, log := stored, map[], [];
    }

    /**
     * The `connection` handler: store `{online: true, lastSeen}` for the user, then
     * broadcast `online`. Every other connected socket receives the event exactly once;
     * the connecting socket does not receive it.
     */
    method Connect(conn: ConnId, userId: string, now: int)
      requires conn !in sockets
      modifies this
      ensures sockets == old(sockets)[conn := userId]
      ensures users == old(users)[userId := Record(true, now)]
      ensures log == old(log) + [Write(userId, Record(true, now)),
                                 Emit(Others(conn), sockets.Keys - {conn}, Broadcast(userId, Online))]
      ensures forall c ::
                Delivered(log, c) == Delivered(old(log), c) +
                (if c in sockets && c != conn then [Broadcast(userId, Online)] else [])
    {
      sockets := sockets[conn := userId];
      var record := Record(true, now);
      users := users[userId := record];
      var w := Write(userId, record);
      var e := Emit(Others(conn), sockets.Keys - {conn}, Broadcast(userId, Online));
      log := log + [w, e];
      forall c
        ensures Delivered(log, c) == Delivered(old(log), c) +
          (if c in sockets && c != conn then [Broadcast(userId, Online)] else [])
      {
        WriteThenEmitDelivery(old(log), w, e, c);
      }
    }

    /** The `getAllUsers` handler: the whole hash, unchanged, sent to the asking socket only. */
    method GetAllUsers(conn: ConnId) returns (all: map<string, Record>)
      requires conn in sockets
      modifies this`log
      ensures all == users
      ensures log == old(log) + [Emit(Socket(conn), {conn}, AllUsersList(all))]
      ensures forall c ::
                Delivered(log, c) == Delivered(old(log), c) + (if c == conn then [AllUsersList(all)] else [])
    {
      all := users;
      var e := Emit(Socket(conn), {conn}, AllUsersList(all));
      log := log + [e];
      forall c
        ensures Delivered(log, c) == Delivered(old(log), c) + (if c == conn then [AllUsersList(all)] else [])
      {
        DeliveredAppend(old(log), [e], c);
        assert [e][..0] == [];
      }
    }

    /**
     * The `disconnect` handler. The socket is gone from the connected set when it runs.
     * It stores `{online: false, lastSeen}` even when other sockets of the same user are
     * still connected, then broadcasts `offline` to every remaining socket.
     */
    method Disconnect(conn: ConnId, now: int)
      requires conn in sockets
      modifies this
      ensures sockets == old(sockets) - {conn}
      ensures users == old(users)[old(sockets)[conn] := Record(false, now)]
      ensures log == old(log) + [Write(old(sockets)[conn], Record(false, now)),
                                 Emit(Others(conn), sockets.Keys, Broadcast(old(sockets)[conn], Offline))]
      ensures forall c ::
                Delivered(log, c) == Delivered(old(log), c) +
                (if c in sockets then [Broadcast(old(sockets)[conn], Offline)] else [])
      ensures Delivered(log, conn) == Delivered(old(log), conn)
    {
      var userId := sockets[conn];
      sockets := sockets - {conn};
      var record := Record(false, now);
      users := users[userId := record];
      var w := Write(userId, record);
      var e := Emit(Others(conn), sockets.Keys, Broadcast(userId, Offline));
      log := log + [w, e];
      forall c
        ensures Delivered(log, c) == Delivered(old(log), c) +
          (if c in sockets then [Broadcast(userId, Offline)] else [])
      {
        WriteThenEmitDelivery(old(log), w, e, c);
      }
    }
  }

  /**
   * A hub started on `stored` with the two sockets 1 and 2 of user "7" connected, in that
   * order: socket 1 is told that "7" came online through socket 2, and socket 2 is told nothing.
   */
  method OpenTwoSockets(stored: map<string, Record>) returns (hub: Hub)
    ensures fresh(hub)
    ensures hub.sockets == map[1 := "7", 2 := "7"]
    ensures hub.users == stored["7" := Record(true, 20)]
    ensures Delivered(hub.log, 1) == [Broadcast("7", Online)]
    ensures Delivered(hub.log, 2) == []
  {
    hub := new Hub(stored);
    hub.Connect(1, "7", 10);
    hub.Connect(2, "7", 20);
  }

  /**
   * Two sockets of user "7": closing one of them marks "7" offline in the hash while the
   * other is still connected, and that other socket is told "7" went offline.
   */
  method SiblingDisconnectScenario(stored: map<string, Record>) returns (hub: Hub)
    ensures hub.sockets == map[2 := "7"]
    ensures hub.users == stored["7" := Record(false, 30)]
    ensures Delivered(hub.log, 2) == [Broadcast("7", Offline)]
  {
    hub := OpenTwoSockets(stored);
    hub.Disconnect(1, 30);
  }
}
