/**
 * The per-connection pump of api/websocket_handler.go: the read loop that
 * counts consecutive read timeouts, the validation and dispatch of one
 * decoded frame, and the connection handler that ties them together and
 * removes the client from every room once reading has stopped.
 *
 * The socket is a finite sequence of read outcomes; JSON decoding of a frame
 * is a function parameter that may fail; the room manager is a trace of the
 * calls made on it.
 */
module WebSocketHandler {
  import opened Wrappers
  import opened Model

  newtype byte = x: int | 0 <= x < 256
  type Bytes = seq<byte>

  /** What one conn.ReadMessage returned: a frame, a timeout, or any other error. */
  datatype ReadResult = Received(data: Bytes) | TimedOut | Failed

  /** Why readMessages stopped reading (and closed its channel). */
  datatype ReadEnd = TimeoutLimit | ReadError

  /** readMessages gives up on this many consecutive timeouts. */
  const MaxTimeouts: nat := 5

  // ---------------------------------------------------------------- readMessages

  /** The number of timeouts that end `seen`: the read loop's counter after those reads. */
  function TrailingTimeouts(seen: seq<ReadResult>): (k: nat)
    ensures k <= |seen|
  {
    if seen == [] || seen[|seen| - 1] != TimedOut then 0
    else TrailingTimeouts(seen[..|seen| - 1]) + 1
  }

  /** The last of `seen` stops the loop: a non-timeout error, or the timeout that brings the run to the limit. */
  predicate StopsLast(seen: seq<ReadResult>)
  {
    && seen != []
    && (|| seen[|seen| - 1] == Failed
        || (seen[|seen| - 1] == TimedOut && TrailingTimeouts(seen) >= MaxTimeouts))
  }

  /** The loop reads past all of `seen` without stopping. */
  predicate Open(seen: seq<ReadResult>)
  {
    seen == [] || (Open(seen[..|seen| - 1]) && !StopsLast(seen))
  }

  /** How many reads readMessages makes on `results`: up to and including the first stop, or all of them. */
  function Consumed(results: seq<ReadResult>): (n: nat)
    ensures n <= |results|
  {
    if results == [] then 0
    else if Open(results[..|results| - 1]) then |results|
    else Consumed(results[..|results| - 1])
  }

  /** How readMessages ended, or None if it is still reading after `results`. */
  function EndOf(results: seq<ReadResult>): Option<ReadEnd>
  {
    var n := Consumed(results);
    if StopsLast(results[..n]) then
      Some(if results[n - 1] == Failed then ReadError else TimeoutLimit)
    else None
  }

  /** The frames of the successful reads in `seen`, in order. */
  function Payloads(seen: seq<ReadResult>): (frames: seq<Bytes>)
    ensures |frames| <= |seen|
  {
    if seen == [] then []
    else
      var last := seen[|seen| - 1];
      Payloads(seen[..|seen| - 1]) + (if last.Received? then [last.data] else [])
  }

  /**
   * readMessages on a connection whose reads return `results`: the frames it
   * pushes on the channel, how it ended, and how many reads it made. The
   * channel is closed exactly when `ended` is not None.
   */
  method ReadMessages(results: seq<ReadResult>) returns (frames: seq<Bytes>, ended: Option<ReadEnd>, consumed: nat)
    ensures consumed == Consumed(results)
    ensures frames == Payloads(results[..consumed])
    ensures ended == EndOf(results)
  {
    var timeoutCount := 0;
    var i := 0;
    frames := [];
    ended := None;
    while i < |results|
      invariant i <= |results|
      invariant Open(results[..i])
      invariant timeoutCount == TrailingTimeouts(results[..i])
      invariant frames == Payloads(results[..i])
      decreases |results| - i
    {
      SeenOneMore(results, i);
      match results[i]
      case Failed =>
        i := i + 1;
        ended := Some(ReadError);
        break;
      case TimedOut =>
        timeoutCount := timeoutCount + 1;
        i := i + 1;
        if timeoutCount >= MaxTimeouts {
          ended := Some(TimeoutLimit);
          break;
        }
      case Received(data) =>
        timeoutCount := 0;
        frames := frames + [data];
        i := i + 1;
    }
    if ended.Some? {
      StopEndsReading(results, i);
    } else {
      assert results[..i] == results;
      OpenReadsAll(results);
    }
    consumed := i;
  }

  /** Taking one more read into account: the counter, whether the loop goes on, and the frames forwarded. */
  lemma SeenOneMore(results: seq<ReadResult>, i: nat)
    requires i < |results|
    ensures TrailingTimeouts(results[..i + 1]) == if results[i] == TimedOut then TrailingTimeouts(results[..i]) + 1 else 0
    ensures Open(results[..i + 1]) == (Open(results[..i]) && !StopsLast(results[..i + 1]))
    ensures Payloads(results[..i + 1]) == Payloads(results[..i]) + if results[i].Received? then [results[i].data] else []
  {
    assert results[..i + 1][..i] == results[..i];
  }

  /** A stopping read after an open prefix is where the loop ends, whatever follows. */
  lemma {:induction false} StopEndsReading(results: seq<ReadResult>, n: nat)
    requires 0 < n <= |results|
    requires Open(results[..n - 1]) && StopsLast(results[..n])
    ensures Consumed(results) == n
    ensures EndOf(results) == Some(if results[n - 1] == Failed then ReadError else TimeoutLimit)
  {
    var init := results[..|results| - 1];
    if n < |results| {
      assert init[..n - 1] == results[..n - 1] && init[..n] == results[..n];
      StopEndsReading(init, n);
      assert !Open(init) by {
        ClosedStaysClosed(init, n);
      }
    } else {
      assert init == results[..n - 1];
    }
  }

  /** Once the loop has stopped, no further read reopens it. */
  lemma {:induction false} ClosedStaysClosed(seen: seq<ReadResult>, n: nat)
    requires 0 < n <= |seen|
    requires StopsLast(seen[..n])
    ensures !Open(seen)
    decreases |seen|
  {
    if n < |seen| {
      var init := seen[..|seen| - 1];
      assert init[..n] == seen[..n];
      ClosedStaysClosed(init, n);
    } else {
      assert seen[..n] == seen;
    }
  }

  /** While no read stops it, the loop reads everything and has not ended. */
  lemma OpenReadsAll(results: seq<ReadResult>)
    requires Open(results)
    ensures Consumed(results) == |results| && EndOf(results) == None
  {
    assert results[..|results|] == results;
  }

  /**
   * `Open` is the loop's own condition, read step by step; read as a whole it
   * says that no read of `seen` stops the loop.
   */
  lemma {:induction false} OpenMeansNoStop(seen: seq<ReadResult>)
    ensures Open(seen) <==> forall j :: 0 < j <= |seen| ==> !StopsLast(seen[..j])
  {
    if seen != [] {
      var init := seen[..|seen| - 1];
      OpenMeansNoStop(init);
      assert seen[..|seen|] == seen;
      forall j | 0 < j <= |init| ensures init[..j] == seen[..j] {
      }
    }
  }

  /** The read loop has ended exactly when some read stopped it. */
  lemma {:induction false} EndedIffStopped(results: seq<ReadResult>)
    ensures EndOf(results).Some? <==> !Open(results)
  {
    if Open(results) {
      OpenReadsAll(results);
    } else {
      var n := FirstStop(results);
      StopEndsReading(results, n);
    }
  }

  /** The read on which the loop stops, when it does. */
  lemma {:induction false} FirstStop(seen: seq<ReadResult>) returns (n: nat)
    requires !Open(seen)
    ensures 0 < n <= |seen| && Open(seen[..n - 1]) && StopsLast(seen[..n])
  {
    var init := seen[..|seen| - 1];
    if Open(init) {
      n := |seen|;
      assert seen[..n - 1] == init && seen[..n] == seen;
    } else {
      n := FirstStop(init);
      assert init[..n - 1] == seen[..n - 1] && init[..n] == seen[..n];
    }
  }

  /** Any read error other than a timeout ends the loop on that read, with no retry. */
  lemma FailureEndsAtOnce(results: seq<ReadResult>, k: nat)
    requires k < |results| && results[k] == Failed
    requires Open(results[..k])
    ensures Consumed(results) == k + 1
    ensures EndOf(results) == Some(ReadError)
  {
    StopEndsReading(results, k + 1);
  }

  /** The loop ends on the fifth consecutive timeout, whatever came before the run. */
  lemma FifthTimeoutEnds(results: seq<ReadResult>, k: nat)
    requires MaxTimeouts <= k <= |results|
    requires forall j :: k - MaxTimeouts <= j < k ==> results[j] == TimedOut
    requires Open(results[..k - 1])
    ensures Consumed(results) == k
    ensures EndOf(results) == Some(TimeoutLimit)
  {
    TrailingCountsRun(results[..k], MaxTimeouts);
    StopEndsReading(results, k);
  }

  /** An ending by timeout is a run of the limit's number of timeouts, and the loop stopped on no earlier read. */
  lemma TimeoutEndIsFullRun(results: seq<ReadResult>)
    requires EndOf(results) == Some(TimeoutLimit)
    ensures Consumed(results) >= MaxTimeouts
    ensures forall j :: Consumed(results) - MaxTimeouts <= j < Consumed(results) ==> results[j] == TimedOut
    ensures Open(results[..Consumed(results) - 1])
  {
    var n := Consumed(results);
    EndedIffStopped(results);
    var m := FirstStop(results);
    StopEndsReading(results, m);
    TrailingRun(results[..n]);
    forall j | n - MaxTimeouts <= j < n ensures results[j] == TimedOut {
      assert results[..n][j] == results[j];
    }
  }

  /**
   * A successful read resets the counter and forwards its frame after the
   * earlier ones; so a run of fewer timeouts than the limit, ended by a
   * successful read, never stops the loop.
   */
  lemma {:induction false} ShortTimeoutRunsSurvive(p: seq<ReadResult>, k: nat, d: Bytes)
    requires Open(p)
    requires TrailingTimeouts(p) + k < MaxTimeouts
    ensures var q := p + Timeouts(k) + [Received(d)];
      && Open(q)
      && EndOf(q) == None
      && TrailingTimeouts(q) == 0
      && Payloads(q) == Payloads(p) + [d]
  {
    var t := p + Timeouts(k);
    var q := t + [Received(d)];
    TimeoutsSurvive(p, k);
    PayloadsOfTimeouts(p, k);
    assert q[..|q| - 1] == t;
    OpenReadsAll(q);
  }

  /** `k` timeouts in a row. */
  function Timeouts(k: nat): (t: seq<ReadResult>)
    ensures |t| == k
  {
    if k == 0 then [] else Timeouts(k - 1) + [TimedOut]
  }

  lemma {:induction false} TimeoutsSurvive(p: seq<ReadResult>, k: nat)
    requires Open(p)
    requires TrailingTimeouts(p) + k < MaxTimeouts
    ensures Open(p + Timeouts(k))
    ensures TrailingTimeouts(p + Timeouts(k)) == TrailingTimeouts(p) + k
  {
    if k > 0 {
      var t := p + Timeouts(k - 1);
      TimeoutsSurvive(p, k - 1);
      OneMoreTimeout(t);
      assert p + Timeouts(k) == t + [TimedOut];
    } else {
      assert p + Timeouts(k) == p;
    }
  }

  lemma OneMoreTimeout(t: seq<ReadResult>)
    requires Open(t) && TrailingTimeouts(t) + 1 < MaxTimeouts
    ensures Open(t + [TimedOut])
    ensures TrailingTimeouts(t + [TimedOut]) == TrailingTimeouts(t) + 1
  {
    assert (t + [TimedOut])[..|t|] == t;
  }

  lemma {:induction false} PayloadsOfTimeouts(p: seq<ReadResult>, k: nat)
    ensures Payloads(p + Timeouts(k)) == Payloads(p)
  {
    if k > 0 {
      PayloadsOfTimeouts(p, k - 1);
      var u := p + Timeouts(k);
      assert u[..|u| - 1] == p + Timeouts(k - 1);
    } else {
      assert p + Timeouts(k) == p;
    }
  }

  /** The counter is the length of the run of timeouts that ends `seen`: the reads before it are not timeouts. */
  lemma {:induction false} TrailingRun(seen: seq<ReadResult>)
    ensures forall i :: |seen| - TrailingTimeouts(seen) <= i < |seen| ==> seen[i] == TimedOut
    ensures TrailingTimeouts(seen) < |seen| ==> seen[|seen| - TrailingTimeouts(seen) - 1] != TimedOut
  {
    if seen != [] && seen[|seen| - 1] == TimedOut {
      var init := seen[..|seen| - 1];
      TrailingRun(init);
      assert forall i :: 0 <= i < |init| ==> init[i] == seen[i];
    }
  }

  /** When `k` timeouts end `seen`, the counter is at least `k`. */
  lemma {:induction false} TrailingCountsRun(seen: seq<ReadResult>, k: nat)
    requires k <= |seen|
    requires forall j :: |seen| - k <= j < |seen| ==> seen[j] == TimedOut
    ensures TrailingTimeouts(seen) >= k
  {
    if k > 0 {
      var init := seen[..|seen| - 1];
      TrailingCountsRun(init, k - 1);
    }
  }

  // ---------------------------------------------------------------- handleMessage

  /** A call the handler makes on the room manager or the message use case. */
  datatype Call =
    | JoinRoom(client: Client, room: RoomName)
    | LeaveRoom(clientId: ClientId, room: RoomName)
    | ProcessMessage(msg: Message)
    | RemoveClient(clientId: ClientId)

  /**
   * handleMessage: a message without a room is dropped; otherwise it is
   * stamped with the connection's sender id and dispatched on its action.
   */
  function HandleMessage(client: Client, msg: Message): (calls: seq<Call>)
    ensures |calls| <= 1
    ensures msg.roomId == "" ==> calls == []
    ensures |calls| == 1 <==> msg.roomId != "" && msg.action in {"join", "leave", "message"}
    ensures msg.roomId != "" && msg.action == "join" ==> calls == [JoinRoom(client, msg.roomId)]
    ensures msg.roomId != "" && msg.action == "leave" ==> calls == [LeaveRoom(client.id, msg.roomId)]
    ensures msg.roomId != "" && msg.action == "message" ==> calls == [ProcessMessage(msg.(senderId := client.senderId))]
    ensures forall c :: c in calls ==> !c.RemoveClient?
    ensures forall c :: c in calls && c.JoinRoom? ==> c == JoinRoom(client, msg.roomId)
    ensures forall c :: c in calls && c.LeaveRoom? ==> c == LeaveRoom(client.id, msg.roomId)
    ensures forall c :: c in calls && c.ProcessMessage? ==>
      c.msg.senderId == client.senderId && c.msg == msg.(senderId := c.msg.senderId)
  {
    if msg.roomId == "" then []
    else
      var stamped := msg.(senderId := client.senderId);
      match stamped.action
      case "join" => [JoinRoom(client, stamped.roomId)]
      case "leave" => [LeaveRoom(client.id, stamped.roomId)]
      case "message" => [ProcessMessage(stamped)]
      case _ => []
  }

  /** The calls the frame loop makes for `frames`: undecodable frames are skipped. */
  function Dispatch(client: Client, frames: seq<Bytes>, decode: Bytes -> Option<Message>): seq<Call>
  {
    if frames == [] then []
    else
      var m := decode(frames[|frames| - 1]);
      Dispatch(client, frames[..|frames| - 1], decode) + (if m.Some? then HandleMessage(client, m.value) else [])
  }

  /** Dispatching two batches of frames is dispatching each in turn. */
  lemma {:induction false} DispatchAppend(client: Client, a: seq<Bytes>, b: seq<Bytes>, decode: Bytes -> Option<Message>)
    ensures Dispatch(client, a + b, decode) == Dispatch(client, a, decode) + Dispatch(client, b, decode)
  {
    if b == [] {
      assert a + b == a;
    } else {
      var init := b[..|b| - 1];
      assert (a + b)[..|a + b| - 1] == a + init;
      DispatchAppend(client, a, init, decode);
    }
  }

  /** An undecodable frame is skipped and the frames after it are still handled. */
  lemma UndecodableSkipped(client: Client, a: seq<Bytes>, f: Bytes, b: seq<Bytes>, decode: Bytes -> Option<Message>)
    requires decode(f) == None
    ensures Dispatch(client, a + [f] + b, decode) == Dispatch(client, a + b, decode)
  {
    DispatchAppend(client, a + [f], b, decode);
    DispatchAppend(client, a, [f], decode);
    DispatchAppend(client, a, b, decode);
    assert [f][..0] == [];
  }

  /**
   * Every call the frame loop makes names a room, never removes a client, and
   * a forwarded chat message carries the connection's sender id.
   */
  lemma {:induction false} DispatchedCalls(client: Client, frames: seq<Bytes>, decode: Bytes -> Option<Message>)
    ensures forall c :: c in Dispatch(client, frames, decode) ==> !c.RemoveClient?
    ensures forall c :: c in Dispatch(client, frames, decode) && c.ProcessMessage? ==>
      c.msg.senderId == client.senderId && c.msg.roomId != ""
    ensures forall c :: c in Dispatch(client, frames, decode) && c.JoinRoom? ==> c.client == client && c.room != ""
    ensures forall c :: c in Dispatch(client, frames, decode) && c.LeaveRoom? ==> c.clientId == client.id && c.room != ""
  {
    if frames != [] {
      DispatchedCalls(client, frames[..|frames| - 1], decode);
    }
  }

  // ---------------------------------------------------------------- HandleConnection

  /** The client HandleConnection creates: identified by the peer address, with its socket. */
  function Connect(remoteAddr: string, senderId: string): (c: Client)
    ensures c.id == remoteAddr && c.socket.Some? && c.senderId == senderId
  {
    Client(remoteAddr, Some(Socket(remoteAddr)), senderId)
  }

  /**
   * HandleConnection after the upgrade: the calls it makes, and whether the
   * connection was closed. An empty sender id closes it at once, before any
   * client exists; otherwise every frame read is decoded and handled in
   * order, and when reading stops the client is removed from every room.
   */
  method HandleConnection(senderId: string, remoteAddr: string, results: seq<ReadResult>, decode: Bytes -> Option<Message>)
    returns (calls: seq<Call>, closed: bool)
    ensures senderId == "" ==> calls == [] && closed
    ensures senderId != "" ==> closed == EndOf(results).Some?
    ensures senderId != "" ==>
      calls == Dispatch(Connect(remoteAddr, senderId), Payloads(results[..Consumed(results)]), decode)
               + (if closed then [RemoveClient(remoteAddr)] else [])
  {
    if senderId == "" {
      return [], true;
    }
    var client := Connect(remoteAddr, senderId);
    var frames, ended, consumed := ReadMessages(results);
    calls := [];
    var i := 0;
    while i < |frames|
      invariant i <= |frames|
      invariant calls == Dispatch(client, frames[..i], decode)
      decreases |frames| - i
    {
      assert frames[..i + 1][..i] == frames[..i];
      var incoming := decode(frames[i]);
      if incoming.Some? {
        calls := calls + HandleMessage(client, incoming.value);
      }
      i := i + 1;
    }
    assert frames[..i] == frames;
    closed := ended.Some?;
    if closed {
      calls := calls + [RemoveClient(client.id)];
    }
  }

  /** A connection removes its client once, as its last call, and only once reading has stopped. */
  lemma RemoveComesLast(senderId: string, remoteAddr: string, results: seq<ReadResult>, decode: Bytes -> Option<Message>,
                        calls: seq<Call>)
    requires senderId != ""
    requires calls == Dispatch(Connect(remoteAddr, senderId), Payloads(results[..Consumed(results)]), decode)
                      + (if EndOf(results).Some? then [RemoveClient(remoteAddr)] else [])
    ensures forall i :: 0 <= i < |calls| && calls[i].RemoveClient? ==>
      i == |calls| - 1 && EndOf(results).Some? && calls[i].clientId == remoteAddr
    ensures EndOf(results).Some? ==> |calls| > 0 && calls[|calls| - 1] == RemoveClient(remoteAddr)
  {
    var d := Dispatch(Connect(remoteAddr, senderId), Payloads(results[..Consumed(results)]), decode);
    DispatchedCalls(Connect(remoteAddr, senderId), Payloads(results[..Consumed(results)]), decode);
    forall i | 0 <= i < |d| ensures !calls[i].RemoveClient? {
      assert calls[i] == d[i];
      assert d[i] in d;
    }
  }
}
