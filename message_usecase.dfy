/** usecase/message_usecase.go: save a chat message, then broadcast it whatever the save did. */
module MessageUseCase {
  import opened Wrappers
  import opened Model
  import opened Framing
  import opened Relay
  import Service

  /** A call ProcessMessage makes on a collaborator. */
  datatype Effect = CreateMessage(msg: Message) | Relayed(call: RelayCall)

  function AsEffects(calls: seq<RelayCall>): (effects: seq<Effect>)
    ensures |effects| == |calls|
    ensures forall i :: 0 <= i < |calls| ==> effects[i] == Relayed(calls[i])
  {
    if calls == [] then [] else [Relayed(calls[0])] + AsEffects(calls[1..])
  }

  /**
   * The calls made by MessageUseCase.ProcessMessage, in order, when the
   * repository's CreateMessage returns `saved` and the relay's Publish returns
   * `published`. Both errors are only logged; the function returns no error.
   */
  function ProcessMessage(msg: Message, saved: Option<Error>, published: Option<Error>): (effects: seq<Effect>)
    ensures |effects| == 2
    ensures effects[0] == CreateMessage(msg)
    ensures effects[1] == Relayed(Publish(msg.roomId, Frame(msg.roomId, msg.content)))
  {
    [CreateMessage(msg)] + AsEffects(Service.BroadcastMessage(msg.roomId, msg.content, published).calls)
  }

  /** Neither a failed save nor a failed publish changes what ProcessMessage does. */
  lemma OutcomesDoNotMatter(msg: Message, s1: Option<Error>, p1: Option<Error>, s2: Option<Error>, p2: Option<Error>)
    ensures ProcessMessage(msg, s1, p1) == ProcessMessage(msg, s2, p2)
  {
  }
}
