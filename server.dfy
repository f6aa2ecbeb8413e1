/**
 * The wiring of cmd/server/main.go around one connection: the room use case
 * and the message service share one relay, and the calls a connection's
 * handler makes are carried out on the room use case in the order it makes
 * them.
 */
module Server {
  import opened Wrappers
  import opened Model
  import opened Framing
  import opened Relay
  import opened Rooms
  import MessageUseCase
  import WS = WebSocketHandler

  /** What one call of the handler does to the registry, as the room use case defines it. */
  function Step(reg: Registry, call: WS.Call): Registry
  {
    match call
    case JoinRoom(c, room) => Joined(reg, c, room)
    case LeaveRoom(id, room) => Left(reg, id, room)
    case ProcessMessage(_) => reg
    case RemoveClient(id) => Removed(reg, id)
  }

  /** The registry after a connection's calls, one after the other. */
  function After(reg: Registry, calls: seq<WS.Call>): Registry
  {
    if calls == [] then reg
    else Step(After(reg, calls[..|calls| - 1]), calls[|calls| - 1])
  }

  /**
   * One call of the handler. A chat message goes through
   * MessageUseCase.ProcessMessage, whose broadcast publishes on the shared
   * relay; the store is not part of this model.
   */
  method Perform(uc: RoomUseCase, call: WS.Call)
    requires uc.Valid()
    modifies uc, uc.relay
    ensures uc.Valid()
    ensures uc.rooms == Step(old(uc.rooms), call)
    ensures call.JoinRoom? ==> uc.relay.log == old(uc.relay.log) + JoinCalls(old(uc.rooms), call.client, call.room)
    ensures call.LeaveRoom? ==> uc.relay.log == old(uc.relay.log) + LeftCalls(old(uc.rooms), call.clientId, call.room)
    ensures call.JoinRoom? ==> call.room in uc.rooms && call.client.id in uc.rooms[call.room]
    ensures call.LeaveRoom? && call.room in uc.rooms ==> call.clientId !in uc.rooms[call.room]
    ensures call.RemoveClient? ==> forall n :: n in uc.rooms ==> call.clientId !in uc.rooms[n]
    ensures call.ProcessMessage? ==>
      && uc.rooms == old(uc.rooms)
      && uc.relay.log == old(uc.relay.log) + [Publish(call.msg.roomId, Frame(call.msg.roomId, call.msg.content))]
  {
    match call
    case JoinRoom(c, room) =>
      uc.JoinRoom(c, room);
    case LeaveRoom(id, room) =>
      uc.LeaveRoom(id, room);
    case ProcessMessage(msg) =>
      var effects := MessageUseCase.ProcessMessage(msg, None, None);
      var relayed := effects[1].call;
      uc.relay.Publish(relayed.topic, relayed.payload);
      PublishPreserves(uc.rooms, old(uc.relay.log), relayed.topic, relayed.payload);
    case RemoveClient(id) =>
      ghost var visited := uc.RemoveClient(id);
  }

  /** A connection's calls, one after the other; the registry invariant holds throughout. */
  method Run(uc: RoomUseCase, calls: seq<WS.Call>)
    requires uc.Valid()
    modifies uc, uc.relay
    ensures uc.Valid()
    ensures uc.rooms == After(old(uc.rooms), calls)
    ensures calls == [] ==> uc.rooms == old(uc.rooms) && uc.relay.log == old(uc.relay.log)
    ensures |calls| > 0 && calls[|calls| - 1].RemoveClient? ==>
      forall n :: n in uc.rooms ==> calls[|calls| - 1].clientId !in uc.rooms[n]
  {
    var i := 0;
    while i < |calls|
      invariant i <= |calls|
      invariant uc.Valid()
      invariant uc.rooms == After(old(uc.rooms), calls[..i])
      invariant i == 0 ==> uc.rooms == old(uc.rooms) && uc.relay.log == old(uc.relay.log)
      invariant i > 0 && calls[i - 1].RemoveClient? ==> forall n :: n in uc.rooms ==> calls[i - 1].clientId !in uc.rooms[n]
      decreases |calls| - i
    {
      Perform(uc, calls[i]);
      assert calls[..i + 1][..i] == calls[..i];
      i := i + 1;
    }
    assert calls[..i] == calls;
  }

  /**
   * One connection from upgrade to close: once its reading has stopped, the
   * client it created is in no room, and the registry invariant still holds.
   */
  method Serve(uc: RoomUseCase, senderId: string, remoteAddr: string, results: seq<WS.ReadResult>,
               decode: WS.Bytes -> Option<Message>)
    returns (closed: bool)
    requires uc.Valid()
    modifies uc, uc.relay
    ensures uc.Valid()
    ensures closed == (senderId == "" || WS.EndOf(results).Some?)
    ensures senderId == "" ==> uc.rooms == old(uc.rooms) && uc.relay.log == old(uc.relay.log)
    ensures senderId != "" && closed ==> forall n :: n in uc.rooms ==> remoteAddr !in uc.rooms[n]
  {
    var calls;
    calls, closed := WS.HandleConnection(senderId, remoteAddr, results, decode);
    if senderId != "" {
      WS.RemoveComesLast(senderId, remoteAddr, results, decode, calls);
    }
    Run(uc, calls);
  }
}
