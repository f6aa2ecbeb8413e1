/**
 * The in-process room registry of usecase/room_usecase.go: room name to the
 * clients in that room, one relay Subscribe call per registered room, presence
 * notices on join and leave, and local fanout of relay deliveries.
 *
 * The specification functions below say what each operation does to the
 * registry (as a value) and which relay calls it makes; the class
 * `RoomUseCase` does it in place and is proved against them.
 */
module Rooms {
  import opened Wrappers
  import opened Model
  import opened Framing
  import opened Relay

  /** The registry as a value: room name to that room's members. */
  type Registry = map<RoomName, Members>

  /** The presence notices published on join and on leave. */
  function JoinNotice(id: ClientId): string { id + " joined the room" }
  function LeaveNotice(id: ClientId): string { id + " left the room" }

  /**
   * The registry invariant: no room is empty, and the Subscribe calls made
   * on the relay, less its Unsubscribe calls, count one for every
   * registered room and none for any other topic. This is a count of calls;
   * whether the relay keeps a live subscription for each is not modelled.
   */
  ghost predicate Consistent(reg: Registry, log: seq<RelayCall>)
  {
    && (forall n :: n in reg ==> reg[n] != map[])
    && (forall n :: Subscriptions(log, n) == if n in reg then 1 else 0)
  }

  /** Publishing changes no topic's count, so it keeps the invariant. */
  lemma PublishPreserves(reg: Registry, log: seq<RelayCall>, topic: string, payload: string)
    requires Consistent(reg, log)
    ensures forall n :: Subscriptions(log + [Publish(topic, payload)], n) == Subscriptions(log, n)
    ensures Consistent(reg, log + [Publish(topic, payload)])
  {
    forall n ensures Subscriptions(log + [Publish(topic, payload)], n) == Subscriptions(log, n) {
      SubscriptionsSnoc(log, Publish(topic, payload), n);
    }
  }

  // ---------------------------------------------------------------- JoinRoom

  /** The registry after JoinRoom(c, room): the room exists and holds c, nothing else changes. */
  function Joined(reg: Registry, c: Client, room: RoomName): (r: Registry)
    ensures r.Keys == reg.Keys + {room}
    ensures room in r && c.id in r[room]
    ensures r[room][c.id] == ClientConn(c.id, c)
    ensures r[room].Keys == (if room in reg then reg[room].Keys else {}) + {c.id}
    ensures room in reg ==> forall k :: k in reg[room] && k != c.id ==> r[room][k] == reg[room][k]
    ensures forall n :: n in reg && n != room ==> r[n] == reg[n]
  {
    var members := if room in reg then reg[room] else map[];
    reg[room := members[c.id := ClientConn(c.id, c)]]
  }

  /** The relay calls of JoinRoom: a Subscribe call only when it creates the room, then the join notice. */
  function JoinCalls(reg: Registry, c: Client, room: RoomName): seq<RelayCall>
  {
    (if room in reg then [] else [Subscribe(room)]) + [Publish(room, Frame(room, JoinNotice(c.id)))]
  }

  /** JoinRoom keeps the invariant: a new room gets its one Subscribe call, an old one no second. */
  lemma {:induction false} JoinPreserves(reg: Registry, log: seq<RelayCall>, c: Client, room: RoomName)
    requires Consistent(reg, log)
    ensures Consistent(Joined(reg, c, room), log + JoinCalls(reg, c, room))
  {
    var pub := Publish(room, Frame(room, JoinNotice(c.id)));
    var r := Joined(reg, c, room);
    JoinedNonEmpty(reg, c, room);
    if room in reg {
      assert Consistent(r, log) by {
        assert r.Keys == reg.Keys;
      }
      assert log + JoinCalls(reg, c, room) == log + [pub];
      PublishPreserves(r, log, room, pub.payload);
    } else {
      var log1 := log + [Subscribe(room)];
      assert Consistent(r, log1) by {
        forall n ensures Subscriptions(log1, n) == if n in r then 1 else 0 {
          SubscriptionsSnoc(log, Subscribe(room), n);
        }
      }
      assert log + JoinCalls(reg, c, room) == log1 + [pub];
      PublishPreserves(r, log1, room, pub.payload);
    }
  }

  lemma JoinedNonEmpty(reg: Registry, c: Client, room: RoomName)
    requires forall n :: n in reg ==> reg[n] != map[]
    ensures forall n :: n in Joined(reg, c, room) ==> Joined(reg, c, room)[n] != map[]
  {
    var r := Joined(reg, c, room);
    forall n | n in r ensures r[n] != map[] {
      if n == room {
        assert c.id in r[n];
      }
    }
  }

  /** Re-joining a room one is already in keeps the member set and makes no Subscribe call. */
  lemma RejoinKeepsMembers(reg: Registry, c: Client, room: RoomName)
    requires room in reg && c.id in reg[room]
    ensures Joined(reg, c, room).Keys == reg.Keys
    ensures Joined(reg, c, room)[room].Keys == reg[room].Keys
    ensures forall call :: call in JoinCalls(reg, c, room) ==> call.Publish?
  {
  }

  // ------------------------------------------------------ LeaveRoom and RemoveClient

  /**
   * The registry after client `id` leaves `room`: an absent room changes
   * nothing; otherwise `id` is dropped, and the room goes away when that
   * leaves it empty.
   */
  function Left(reg: Registry, id: ClientId, room: RoomName): (r: Registry)
    ensures room !in reg ==> r == reg
    ensures forall n :: n != room ==> (n in r <==> n in reg)
    ensures forall n :: n in r && n != room ==> r[n] == reg[n]
    ensures room in r ==> room in reg && id !in r[room] && r[room] == reg[room] - {id} && r[room] != map[]
    ensures room in reg ==> (room in r <==> reg[room] - {id} != map[])
  {
    if room !in reg then reg
    else
      var rest := reg[room] - {id};
      if rest == map[] then reg - {room} else reg[room := rest]
  }

  /** The relay calls of one client leaving an existing room: unsubscribe if it emptied, then the leave notice. */
  function LeaveCalls(room: RoomName, id: ClientId, emptied: bool): seq<RelayCall>
  {
    (if emptied then [Unsubscribe(room)] else []) + [Publish(room, Frame(room, LeaveNotice(id)))]
  }

  /** The relay calls of LeaveRoom: none for an absent room, a leave notice even for a non-member. */
  function LeftCalls(reg: Registry, id: ClientId, room: RoomName): seq<RelayCall>
  {
    if room !in reg then [] else LeaveCalls(room, id, reg[room] - {id} == map[])
  }

  /** LeaveRoom keeps the invariant: a room that empties gets its Unsubscribe call. */
  lemma {:induction false} LeavePreserves(reg: Registry, log: seq<RelayCall>, id: ClientId, room: RoomName)
    requires Consistent(reg, log)
    ensures Consistent(Left(reg, id, room), log + LeftCalls(reg, id, room))
  {
    if room in reg {
      var r := Left(reg, id, room);
      var pub := Publish(room, Frame(room, LeaveNotice(id)));
      if reg[room] - {id} == map[] {
        var log1 := log + [Unsubscribe(room)];
        forall n ensures Subscriptions(log1, n) == if n in r then 1 else 0 {
          SubscriptionsSnoc(log, Unsubscribe(room), n);
        }
        assert log + LeftCalls(reg, id, room) == log1 + [pub];
        PublishPreserves(r, log1, room, pub.payload);
      } else {
        assert log + LeftCalls(reg, id, room) == log + [pub];
        PublishPreserves(r, log, room, pub.payload);
      }
    } else {
      assert log + LeftCalls(reg, id, room) == log;
    }
  }

  /** The registry part way through RemoveClient, once the rooms in `done` have been visited. */
  function RemovedFrom(reg: Registry, id: ClientId, done: set<RoomName>): Registry
  {
    map n | n in reg && !(n in done && id in reg[n] && reg[n] - {id} == map[])
      :: if n in done then reg[n] - {id} else reg[n]
  }

  /**
   * The registry after RemoveClient(id): `id` is in no room, rooms without it
   * are untouched, and a room that had it goes away exactly when `id` was its
   * last member.
   */
  function Removed(reg: Registry, id: ClientId): (r: Registry)
    ensures forall n :: n in r ==> n in reg && id !in r[n] && r[n] == reg[n] - {id}
    ensures forall n :: n in reg && id !in reg[n] ==> n in r && r[n] == reg[n]
    ensures forall n :: n in reg && id in reg[n] ==> (n in r <==> reg[n] - {id} != map[])
  {
    var r := RemovedFrom(reg, id, reg.Keys);
    assert forall n :: n in reg && id !in reg[n] ==> reg[n] - {id} == reg[n];
    r
  }

  /** Visiting one more room of RemoveClient's loop is one LeaveRoom step on that room, or nothing. */
  lemma RemovedFromStep(reg: Registry, id: ClientId, done: set<RoomName>, name: RoomName)
    requires name in reg && name !in done
    ensures name in RemovedFrom(reg, id, done) && RemovedFrom(reg, id, done)[name] == reg[name]
    ensures RemovedFrom(reg, id, done + {name})
         == if id in reg[name] then Left(RemovedFrom(reg, id, done), id, name) else RemovedFrom(reg, id, done)
  {
    if id in reg[name] {
      RemovedFromLeaves(reg, id, done, name);
    } else {
      RemovedFromSkips(reg, id, done, name);
    }
  }

  lemma RemovedFromLeaves(reg: Registry, id: ClientId, done: set<RoomName>, name: RoomName)
    requires name in reg && name !in done && id in reg[name]
    ensures RemovedFrom(reg, id, done + {name}) == Left(RemovedFrom(reg, id, done), id, name)
  {
    var after := RemovedFrom(reg, id, done + {name});
    var left := Left(RemovedFrom(reg, id, done), id, name);
    assert after.Keys == left.Keys;
    forall n | n in after ensures after[n] == left[n] {
    }
  }

  lemma RemovedFromSkips(reg: Registry, id: ClientId, done: set<RoomName>, name: RoomName)
    requires name in reg && name !in done && id !in reg[name]
    ensures RemovedFrom(reg, id, done + {name}) == RemovedFrom(reg, id, done)
  {
    var before := RemovedFrom(reg, id, done);
    var after := RemovedFrom(reg, id, done + {name});
    assert reg[name] - {id} == reg[name];
    assert after.Keys == before.Keys;
    forall n | n in after ensures after[n] == before[n] {
    }
  }

  /** The relay calls of RemoveClient, when it finds `id` in the rooms of `order`, in that order. */
  function RemoveCalls(reg: Registry, id: ClientId, order: seq<RoomName>): seq<RelayCall>
    requires forall n :: n in order ==> n in reg
  {
    if order == [] then []
    else
      var n := order[|order| - 1];
      RemoveCalls(reg, id, order[..|order| - 1]) + LeaveCalls(n, id, reg[n] - {id} == map[])
  }

  /** No room name appears twice. */
  predicate Distinct(order: seq<RoomName>)
  {
    forall i, j :: 0 <= i < j < |order| ==> order[i] != order[j]
  }

  /** RemoveClient touches only the topics of the rooms it found the client in. */
  lemma {:induction false} RemoveCallsTopics(reg: Registry, id: ClientId, order: seq<RoomName>)
    requires forall n :: n in order ==> n in reg
    ensures forall call :: call in RemoveCalls(reg, id, order) ==> call.topic in order
  {
    if order != [] {
      var init := order[..|order| - 1];
      RemoveCallsTopics(reg, id, init);
      forall call | call in RemoveCalls(reg, id, order) ensures call.topic in order {
        if call in RemoveCalls(reg, id, init) {
          assert call.topic in init;
          assert forall k :: 0 <= k < |init| ==> init[k] == order[k];
        }
      }
    }
  }

  lemma RemoveCallsSnoc(reg: Registry, id: ClientId, order: seq<RoomName>, name: RoomName)
    requires forall n :: n in order ==> n in reg
    requires name in reg
    ensures RemoveCalls(reg, id, order + [name]) == RemoveCalls(reg, id, order) + LeaveCalls(name, id, reg[name] - {id} == map[])
  {
    assert (order + [name])[..|order|] == order;
  }

  lemma DistinctSnoc(order: seq<RoomName>, name: RoomName)
    requires Distinct(order) && name !in order
    ensures Distinct(order + [name])
  {
  }

  /**
   * RemoveClient part way through its loop, from registry `reg0` and relay
   * log `log0`: the rooms left to visit are `pending`, the rooms it found
   * the client in so far are `visited`, in the order it met them.
   */
  ghost predicate Removing(reg0: Registry, log0: seq<RelayCall>, id: ClientId, pending: set<RoomName>,
                           visited: seq<RoomName>, reg: Registry, log: seq<RelayCall>)
  {
    && pending <= reg0.Keys
    && reg == RemovedFrom(reg0, id, reg0.Keys - pending)
    && Distinct(visited)
    && (forall n :: n in visited <==> n in reg0 && n !in pending && id in reg0[n])
    && log == log0 + RemoveCalls(reg0, id, visited)
  }

  /** One turn of RemoveClient's loop is LeaveRoom on a room that holds the client, and nothing otherwise. */
  lemma RemovingStep(reg0: Registry, log0: seq<RelayCall>, id: ClientId, pending: set<RoomName>,
                     visited: seq<RoomName>, reg: Registry, log: seq<RelayCall>, name: RoomName)
    requires Removing(reg0, log0, id, pending, visited, reg, log) && name in pending
    ensures name in reg && reg[name] == reg0[name]
    ensures id in reg[name] ==>
      Removing(reg0, log0, id, pending - {name}, visited + [name], Left(reg, id, name), log + LeftCalls(reg, id, name))
    ensures id !in reg[name] ==> Removing(reg0, log0, id, pending - {name}, visited, reg, log)
  {
    var done := reg0.Keys - pending;
    RemovedFromStep(reg0, id, done, name);
    assert reg0.Keys - (pending - {name}) == done + {name};
    if id in reg[name] {
      var leave := LeaveCalls(name, id, reg0[name] - {id} == map[]);
      DistinctSnoc(visited, name);
      RemoveCallsSnoc(reg0, id, visited, name);
      AppendAssoc(log0, RemoveCalls(reg0, id, visited), leave);
    }
  }

  lemma AppendAssoc(a: seq<RelayCall>, b: seq<RelayCall>, c: seq<RelayCall>)
    ensures a + (b + c) == a + b + c
  {
  }

  /** Once every room holding the client has been visited, the rest of the registry needs no visit. */
  lemma RemovedFromAll(reg: Registry, id: ClientId, done: set<RoomName>)
    requires forall n :: n in reg && id in reg[n] ==> n in done
    ensures RemovedFrom(reg, id, done) == Removed(reg, id)
  {
    var a := RemovedFrom(reg, id, done);
    var b := RemovedFrom(reg, id, reg.Keys);
    assert a.Keys == b.Keys;
    forall n | n in a ensures a[n] == b[n] {
      if id !in reg[n] {
        assert reg[n] - {id} == reg[n];
      }
    }
  }

  // ---------------------------------------------------------------- local fanout

  /** One write of a broadcast to a member's socket, and whether it went through. */
  datatype Write = Write(client: ClientId, socket: Socket, content: string, ok: bool)

  /**
   * `writes` is a local broadcast of `content` to `room`: nothing when the
   * room is absent; otherwise one write to every member that has a socket,
   * at most one per member, and each write fails exactly when its own socket
   * is in `failing`, whatever happens to the others.
   */
  ghost predicate IsFanout(reg: Registry, room: RoomName, content: string, failing: set<Socket>, writes: set<Write>)
  {
    && (room !in reg ==> writes == {})
    && (forall w :: w in writes ==>
          && room in reg && w.client in reg[room]
          && reg[room][w.client].client.socket == Some(w.socket)
          && w.content == content
          && (w.ok <==> w.socket !in failing))
    && (forall id :: room in reg && id in reg[room] && reg[room][id].client.socket.Some? ==>
          var s := reg[room][id].client.socket.value;
          Write(id, s, content, s !in failing) in writes)
    && (forall w1, w2 :: w1 in writes && w2 in writes && w1.client == w2.client ==> w1 == w2)
  }

  // ---------------------------------------------------------------- the use case

  class RoomUseCase {
    /** The relay shared by all rooms. */
    const relay: PubSub
    /** Room name to the room's members. */
    var rooms: Registry

    ghost predicate Valid()
      reads this, relay
    {
      Consistent(rooms, relay.log)
    }

    /** NewRoomUseCase, over a relay that has received no Subscribe call not undone by an Unsubscribe. */
    constructor (relay: PubSub)
      requires forall n :: Subscriptions(relay.log, n) == 0
      ensures this.relay == relay && rooms == map[]
      ensures Valid()
    {
      this.relay := relay;
      rooms := map[];
    }

    /**
     * JoinRoom: create the room and subscribe to it if it is absent, put the
     * client in it, publish the join notice.
     */
    method JoinRoom(c: Client, room: RoomName)
      requires Valid()
      modifies this, relay
      ensures Valid()
      ensures rooms == Joined(old(rooms), c, room)
      ensures relay.log == old(relay.log) + JoinCalls(old(rooms), c, room)
    {
      JoinPreserves(rooms, relay.log, c, room);
      var members;
      if room in rooms {
        members := rooms[room];
      } else {
        members := map[];
        relay.Subscribe(room);   // startPubSubListener
      }
      rooms := rooms[room := members[c.id := ClientConn(c.id, c)]];
      relay.Publish(room, Frame(room, JoinNotice(c.id)));
      AppendAssoc(old(relay.log), if room in old(rooms) then [] else [Subscribe(room)], [Publish(room, Frame(room, JoinNotice(c.id)))]);
    }

    /** The steps LeaveRoom and RemoveClient share, on a room that exists. */
    method Evict(id: ClientId, name: RoomName)
      requires Valid() && name in rooms
      modifies this, relay
      ensures Valid()
      ensures rooms == Left(old(rooms), id, name)
      ensures relay.log == old(relay.log) + LeftCalls(old(rooms), id, name)
    {
      LeavePreserves(rooms, relay.log, id, name);
      var rest := rooms[name] - {id};
      if rest == map[] {
        rooms := rooms - {name};
        relay.Unsubscribe(name);
      } else {
        rooms := rooms[name := rest];
      }
      relay.Publish(name, Frame(name, LeaveNotice(id)));
      AppendAssoc(old(relay.log), if rest == map[] then [Unsubscribe(name)] else [], [Publish(name, Frame(name, LeaveNotice(id)))]);
    }

    /**
     * LeaveRoom: nothing for an absent room; otherwise drop the client, delete
     * and unsubscribe the room if it emptied, and publish the leave notice
     * (even when the client was not a member).
     */
    method LeaveRoom(id: ClientId, room: RoomName)
      requires Valid()
      modifies this, relay
      ensures Valid()
      ensures rooms == Left(old(rooms), id, room)
      ensures relay.log == old(relay.log) + LeftCalls(old(rooms), id, room)
    {
      if room !in rooms {
        return;
      }
      Evict(id, room);
    }

    /**
     * RemoveClient: visit every room; where the client is a member, do what
     * LeaveRoom does. `visited` lists those rooms in the order the loop met
     * them, each once.
     */
    method RemoveClient(id: ClientId) returns (ghost visited: seq<RoomName>)
      requires Valid()
      modifies this, relay
      ensures Valid()
      ensures rooms == Removed(old(rooms), id)
      ensures Distinct(visited)
      ensures forall n :: n in visited <==> n in old(rooms) && id in old(rooms)[n]
      ensures relay.log == old(relay.log) + RemoveCalls(old(rooms), id, visited)
    {
      ghost var reg0 := rooms;
      ghost var log0 := relay.log;
      var pending := rooms.Keys;
      visited := [];
      assert RemovedFrom(reg0, id, {}) == reg0;
      while pending != {}
        invariant Valid()
        invariant Removing(reg0, log0, id, pending, visited, rooms, relay.log)
        decreases pending
      {
        var name :| name in pending;
        RemovingStep(reg0, log0, id, pending, visited, rooms, relay.log, name);
        pending := pending - {name};
        if id in rooms[name] {
          Evict(id, name);
          visited := visited + [name];
        }
      }
      RemovedFromAll(reg0, id, reg0.Keys);
    }

    /** BroadcastMessage: one publish of the framed text to the room's topic. */
    method BroadcastMessage(room: RoomName, message: string)
      requires Valid()
      modifies relay
      ensures Valid()
      ensures relay.log == old(relay.log) + [Publish(room, Frame(room, message))]
    {
      relay.Publish(room, Frame(room, message));
      PublishPreserves(rooms, old(relay.log), room, Frame(room, message));
    }

    /**
     * BroadcastToLocalRoom: write `message` to every local member of `room`
     * that has a socket; `failing` are the sockets whose write errors.
     */
    method BroadcastToLocalRoom(room: RoomName, message: string, failing: set<Socket>) returns (writes: set<Write>)
      ensures IsFanout(rooms, room, message, failing, writes)
    {
      writes := {};
      if room !in rooms {
        return;
      }
      var members := rooms[room];
      var pending := members.Keys;
      while pending != {}
        invariant pending <= members.Keys
        invariant forall w :: w in writes ==>
          && w.client in members && w.client !in pending
          && members[w.client].client.socket == Some(w.socket)
          && w.content == message
          && (w.ok <==> w.socket !in failing)
        invariant forall id :: id in members && id !in pending && members[id].client.socket.Some? ==>
          var s := members[id].client.socket.value;
          Write(id, s, message, s !in failing) in writes
        invariant forall w1, w2 :: w1 in writes && w2 in writes && w1.client == w2.client ==> w1 == w2
        decreases pending
      {
        var id :| id in pending;
        var cc := members[id];
        if cc.client.socket.Some? {
          var s := cc.client.socket.value;
          writes := writes + {Write(id, s, message, s !in failing)};
        }
        pending := pending - {id};
      }
    }

    /**
     * The handler startPubSubListener registers for `room`: a payload without
     * a separator is dropped, otherwise the text after the first separator is
     * broadcast locally.
     */
    method HandleRelayPayload(room: RoomName, payload: string, failing: set<Socket>) returns (writes: set<Write>)
      ensures Separator !in payload ==> writes == {}
      ensures Separator in payload ==> IsFanout(rooms, room, RelayContent(payload).value, failing, writes)
    {
      var parts := SplitFirst(payload);
      if |parts| != 2 {
        return {};
      }
      writes := BroadcastToLocalRoom(room, parts[1], failing);
    }
  }
}
