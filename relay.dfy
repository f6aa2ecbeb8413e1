/**
 * The relay (redis/pubsub.go's PubSubRepository) as a recorder of the calls
 * made on it. Topics are room names.
 */
module Relay {
  /** One call on the relay. */
  datatype RelayCall =
    | Subscribe(topic: string)
    | Unsubscribe(topic: string)
    | Publish(topic: string, payload: string)

  /** How one call changes the count of Subscribe less Unsubscribe calls for `topic`. */
  function Delta(call: RelayCall, topic: string): int
  {
    match call
    case Subscribe(t) => if t == topic then 1 else 0
    case Unsubscribe(t) => if t == topic then -1 else 0
    case Publish(_, _) => 0
  }

  /** Subscribe calls less Unsubscribe calls for `topic` over a log of calls. */
  function Subscriptions(log: seq<RelayCall>, topic: string): int
  {
    if log == [] then 0
    else Subscriptions(log[..|log| - 1], topic) + Delta(log[|log| - 1], topic)
  }

  /** One more call changes the count by that call's delta. */
  lemma SubscriptionsSnoc(log: seq<RelayCall>, call: RelayCall, topic: string)
    ensures Subscriptions(log + [call], topic) == Subscriptions(log, topic) + Delta(call, topic)
  {
    assert (log + [call])[..|log|] == log;
  }

  /** The relay client, seen as the log of the calls it has received. */
  class PubSub {
    var log: seq<RelayCall>

    constructor ()
      ensures log == []
    {
      log := [];
    }

    method Publish(topic: string, payload: string)
      modifies this
      ensures log == old(log) + [RelayCall.Publish(topic, payload)]
    {
      log := log + [RelayCall.Publish(topic, payload)];
    }

    method Subscribe(topic: string)
      modifies this
      ensures log == old(log) + [RelayCall.Subscribe(topic)]
    {
      log := log + [RelayCall.Subscribe(topic)];
    }

    method Unsubscribe(topic: string)
      modifies this
      ensures log == old(log) + [RelayCall.Unsubscribe(topic)]
    {
      log := log + [RelayCall.Unsubscribe(topic)];
    }
  }
}
