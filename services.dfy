/**
 * service/message_service.go and service/room_service.go: each broadcast
 * frames its text and makes one Publish call on the relay, returning that
 * call's error. The outcome of the Publish is a parameter.
 */
module Service {
  import opened Wrappers
  import opened Framing
  import opened Relay

  /** What a service call did on the relay, and the error it returned. */
  datatype Sent = Sent(calls: seq<RelayCall>, err: Option<Error>)

  /** messageServiceImpl.SaveMessage: it only logs, touches no relay and never fails. */
  function SaveMessage(roomName: string, message: string): (r: Sent)
    ensures r.calls == [] && r.err == None
  {
    Sent([], None)
  }

  /**
   * messageServiceImpl.BroadcastMessage, where `published` is what the relay's
   * Publish returned: one publish to the room's topic, its error passed back
   * unchanged, and a payload from which the room's handler recovers the text
   * (of the raw payload; the JSON encoding on the wire is left out).
   */
  function BroadcastMessage(roomName: string, message: string, published: Option<Error>): (r: Sent)
    ensures r.calls == [Publish(roomName, Frame(roomName, message))]
    ensures r.err == published
    ensures Separator !in roomName ==> RelayContent(r.calls[0].payload) == Some(message)
  {
    var sent := Sent([Publish(roomName, Frame(roomName, message))], published);
    if Separator in roomName then sent
    else FrameRoundTrip(roomName, message); sent
  }

  /** roomServiceImpl.BroadcastToRoom: the same framing and error passing as BroadcastMessage. */
  function BroadcastToRoom(roomName: string, message: string, published: Option<Error>): (r: Sent)
    ensures r.calls == [Publish(roomName, Frame(roomName, message))]
    ensures r.err == published
    ensures Separator !in roomName ==> RelayContent(r.calls[0].payload) == Some(message)
  {
    var sent := Sent([Publish(roomName, Frame(roomName, message))], published);
    if Separator in roomName then sent
    else FrameRoundTrip(roomName, message); sent
  }
}
