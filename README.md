# Chat relay room registry and connection pump, in Dafny

This project models the core of a horizontally scaled websocket chat server,
edmondsun/chat-webSocket (Go), and proves properties of that model.

- **Room registry** (`usecase/room_usecase.go`, module `Rooms`). The server keeps a
  map from room name to that room's members.
  - `JoinRoom` creates a room the first time someone joins it. At that moment it
    calls `Subscribe` on the relay for the room. It then inserts the client and
    publishes a "joined" notice.
  - `LeaveRoom` and `RemoveClient` delete the client. A room that this empties
    is deleted and `Unsubscribe` is called on the relay for it. Each publishes a "left" notice.
  - `BroadcastToLocalRoom` writes a text to every local member that has a
    socket.
  - The subscription handler splits a relay payload `<room>|<content>` on the
    first `|`. It hands the content to local fanout, or drops the payload when
    it has no `|`.
  - `RoomUseCase` is a class with map fields, updated in place. Its methods are
    proved against pure functions on the registry (`Joined`, `Left`,
    `Removed`) and on the relay calls (`JoinCalls`, `LeftCalls`,
    `RemoveCalls`).
  - The invariant `Valid()` says two things. No room is empty. The `Subscribe`
    calls made on the relay, less its `Unsubscribe` calls, count exactly one per
    registered room and none for any other topic. This is a count of calls.
    Whether the Redis client keeps a working subscription for each room is not
    part of the model (see "## Left out").
- **Relay** (module `Relay`). The Redis pub/sub client appears only as the log
  of the `Subscribe`, `Unsubscribe` and `Publish` calls made on it.
- **Payload framing** (module `Framing`) is `room + "|" + content`. Services
  build it and the subscription handler splits it (`strings.SplitN` with a limit
  of 2).
- **Services and message use case** (`service/*.go`, `usecase/message_usecase.go`;
  modules `Service` and `MessageUseCase`).
  - The broadcasts make one publish and return the publish error unchanged.
  - `ProcessMessage` saves, then broadcasts whatever the save did.
  - The outcomes of the store and the relay are parameters.
- **Connection pump** (`api/websocket_handler.go`, module `WebSocketHandler`).
  - `readMessages` is a loop over a finite sequence of read outcomes. It counts
    consecutive timeouts, stops on the fifth one or on any other error, and
    forwards successful frames in order.
  - `handleMessage` drops a frame without a room id. Otherwise it stamps the
    connection's sender id on the frame and dispatches on the action.
  - `HandleConnection` rejects an empty `sender_id`. Otherwise it handles every
    decoded frame and removes the client from every room once reading stops.
  - The calls the handler makes are returned as a trace. JSON decoding is a
    function parameter that may fail.
- **Wiring** (module `Server`, after `cmd/server/main.go`). The room use case
  and the message service share one relay. `Serve` runs one connection's trace
  against a `RoomUseCase`. It proves that once the connection's reading has
  stopped, the client is in no room, and that the registry invariant holds
  throughout.

Files: `wrappers.dfy`, `model.dfy`, `framing.dfy`, `relay.dfy`, `services.dfy`,
`message_usecase.dfy`, `room_usecase.dfy`, `websocket_handler.dfy`, `server.dfy`.

## Model

| member | source | states |
|---|---|---|
| Framing.SplitFirst | usecase/room_usecase.go:33 | Splitting on the first separator gives one part exactly when the payload has no separator. Otherwise it gives a separator-free head and a tail that rejoin to the payload. |
| Framing.RelayContent | usecase/room_usecase.go:33-38 | The handler's content is None exactly when the payload has no separator. Otherwise it is what follows the first separator, after a separator-free head. |
| Framing.FrameRoundTrip | usecase/room_usecase.go:33-38 | For a room name without a separator, splitting `room\|content` gives back exactly `content`, even when `content` holds separators. |
| Framing.SeparatorInRoomLeaks | usecase/room_usecase.go:33-38 | For a room name with a separator, the handler delivers the rest of the room name after its first separator, then a separator and the content. It does not deliver the content alone. |
| Relay.PubSub.Publish | redis/pubsub.go:36-49 | A publish appends exactly one publish event to the relay log. |
| Relay.PubSub.Subscribe | redis/pubsub.go:52-69 | A subscribe appends exactly one subscribe event. |
| Relay.PubSub.Unsubscribe | redis/pubsub.go:72-78 | An unsubscribe appends exactly one unsubscribe event. |
| Service.SaveMessage | service/message_service.go:28-32 | Makes no relay call and always returns nil. |
| Service.BroadcastMessage | service/message_service.go:34-41 | Makes exactly one publish, to `roomName`, with payload `roomName\|message`. It returns the publish error unchanged, and nil when the publish succeeds. Splitting the payload gives back `message` when the room name has no separator. This holds of the raw payload the model relays, not of the JSON-encoded text on the wire. |
| Service.BroadcastToRoom | service/room_service.go:27-34 | Makes exactly one publish, to `roomName`, with payload `roomName\|message`. It returns the publish error unchanged, and nil on success. |
| MessageUseCase.ProcessMessage | usecase/message_usecase.go:27-42 | Makes exactly two calls: first the save of the message, then one publish to `msg.RoomID` of `msg.Content`. Nothing is returned. |
| MessageUseCase.OutcomesDoNotMatter | usecase/message_usecase.go:29-41 | The calls are the same whatever the save and the publish return, so the broadcast happens even when the save fails. |
| Rooms.PublishPreserves | usecase/room_usecase.go:64 | Publishing does not change any topic's count of `Subscribe` less `Unsubscribe` calls, and so it keeps the registry invariant. |
| Rooms.Joined | usecase/room_usecase.go:46-60 | After a join the room exists and maps the client's id to an entry for that client. Its member ids are the old ones plus the client's, and every other member keeps its entry. No other room changes. |
| Rooms.JoinPreserves | usecase/room_usecase.go:46-64 | A join keeps the invariant: no room empty, and a count of one `Subscribe` call, net of `Unsubscribe` calls, per registered room and none for any other topic. A created room gets its one `Subscribe` call and an existing room gets no second one. |
| Rooms.RejoinKeepsMembers | usecase/room_usecase.go:46-59 | Re-joining a room one is already in keeps the set of rooms and the room's member ids. It makes only a publish and no subscribe. |
| Rooms.Left | usecase/room_usecase.go:70-87 | Leaving an absent room changes nothing. Otherwise the client id is dropped. The room is deleted exactly when that leaves it empty. No other room changes. |
| Rooms.LeavePreserves | usecase/room_usecase.go:77-90 | A leave, with its unsubscribe when the room empties and its notice, keeps the invariant. |
| Rooms.Removed | usecase/room_usecase.go:98-110 | After removal the id is in no room. Rooms without it are unchanged. A room that had it is deleted exactly when the id was its last member, and otherwise loses only the id. |
| Rooms.RemovedFromStep | usecase/room_usecase.go:99-108 | Visiting one more room is a leave of that room when it holds the client. It changes nothing otherwise. |
| Rooms.RemoveCallsTopics | usecase/room_usecase.go:98-110 | The relay calls of a removal are all on the topics of the rooms it found the client in, so other rooms get no publish and no unsubscribe. |
| Rooms.RemovingStep | usecase/room_usecase.go:98-110 | One turn of the removal loop keeps the loop's account: which rooms were visited, the partly removed registry, and the relay calls so far. |
| Rooms.RoomUseCase.constructor | usecase/room_usecase.go:23-28 | A new use case has no rooms. It satisfies the invariant on a relay whose every `Subscribe` call has been undone by an `Unsubscribe` call. |
| Rooms.RoomUseCase.JoinRoom | usecase/room_usecase.go:44-65 | The registry becomes `Joined`. The relay receives a subscribe only if the room was absent, then the notice `room\|id joined the room`. The invariant is kept. |
| Rooms.RoomUseCase.Evict | usecase/room_usecase.go:77-90 | On an existing room, the client is dropped, the room is deleted and unsubscribed if it emptied, and the leave notice is published. |
| Rooms.RoomUseCase.LeaveRoom | usecase/room_usecase.go:68-91 | The registry becomes `Left` and the relay calls are `LeftCalls`. An absent room gets no call at all. An existing room gets the notice even when the client was not a member. The invariant is kept. |
| Rooms.RoomUseCase.RemoveClient | usecase/room_usecase.go:94-111 | The registry becomes `Removed`. The relay receives the leave calls of exactly the rooms that held the client, each once, in visiting order. Other rooms get no publish. The invariant is kept. |
| Rooms.RoomUseCase.BroadcastMessage | usecase/room_usecase.go:114-118 | Makes one publish of `room\|message` to the room's topic and keeps the invariant. |
| Rooms.RoomUseCase.BroadcastToLocalRoom | usecase/room_usecase.go:121-145 | An absent room gets no write. Otherwise there is exactly one write of the message per member with a socket and none for others. Each write fails only if its own socket fails, so one failure does not stop the rest. |
| Rooms.RoomUseCase.HandleRelayPayload | usecase/room_usecase.go:32-39 | A payload without a separator causes no write. Otherwise the content after the first separator is fanned out to the subscribing room. |
| WebSocketHandler.TrailingRun | api/websocket_handler.go:103-118 | The timeout counter after a sequence of reads is the length of the run of timeouts that ends it. |
| WebSocketHandler.SeenOneMore | api/websocket_handler.go:103-120 | One more read unfolds the counter's specification (`TrailingTimeouts`: a timeout adds one, anything else resets it to 0), `Open` and `Payloads` (a successful read's frame is forwarded after the earlier ones). |
| WebSocketHandler.ReadMessages | api/websocket_handler.go:94-122 | The loop makes `Consumed` reads, forwards the frames of the successful ones in order, and ends as `EndOf` says. The loop keeps its timeout counter equal to `TrailingTimeouts` of the reads so far (a loop invariant, not part of the contract). |
| WebSocketHandler.StopEndsReading | api/websocket_handler.go:99-116 | A stopping read after reads that did not stop the loop is the last read made. The ending is a read error for a failure and the timeout limit for a timeout, whatever follows. |
| WebSocketHandler.OpenMeansNoStop | api/websocket_handler.go:99-121 | The loop's step-by-step condition for going on holds exactly when no read so far was a stopping read. |
| WebSocketHandler.EndedIffStopped | api/websocket_handler.go:94-121 | The loop has ended, and closed its channel, exactly when some read stopped it. |
| WebSocketHandler.FirstStop | api/websocket_handler.go:99-116 | A loop that has stopped did so on a first stopping read. No read before it stopped the loop. |
| WebSocketHandler.FailureEndsAtOnce | api/websocket_handler.go:112-115 | A non-timeout error ends the loop on that very read, with the read-error ending. |
| WebSocketHandler.FifthTimeoutEnds | api/websocket_handler.go:103-109 | Five consecutive timeouts end the loop on the fifth, with the timeout ending. |
| WebSocketHandler.TimeoutEndIsFullRun | api/websocket_handler.go:103-109 | A timeout ending is always preceded by five consecutive timeouts, and no earlier read stopped the loop. |
| WebSocketHandler.ShortTimeoutRunsSurvive | api/websocket_handler.go:103-120 | Fewer than five consecutive timeouts followed by a successful read never end the loop. The counter is back at 0 and the frame is forwarded. |
| WebSocketHandler.HandleMessage | api/websocket_handler.go:126-146 | An empty room id gives no call. Otherwise `join` gives exactly `JoinRoom(client, room)`, `leave` gives exactly `LeaveRoom(client id, room)`, `message` gives exactly `ProcessMessage` of the message stamped with the sender id, and any other action gives no call. A forwarded message carries the connection's sender id and is otherwise unchanged. |
| WebSocketHandler.DispatchAppend | api/websocket_handler.go:82-89 | Handling two batches of frames gives the calls of the first batch, then those of the second. |
| WebSocketHandler.UndecodableSkipped | api/websocket_handler.go:82-89 | An undecodable frame adds no call, and the frames after it are still handled. |
| WebSocketHandler.DispatchedCalls | api/websocket_handler.go:126-145 | Frame handling never removes a client. Every call names a non-empty room. Every forwarded message carries the connection's sender id. |
| WebSocketHandler.Connect | api/websocket_handler.go:67-71 | The client is identified by the remote address, holds its socket and carries the sender id. |
| WebSocketHandler.HandleConnection | api/websocket_handler.go:59-89 | An empty sender id closes the connection with no call at all. Otherwise the calls are those of the decoded frames read. Once reading has stopped they are followed by exactly one removal of the client. |
| WebSocketHandler.RemoveComesLast | api/websocket_handler.go:73-76 | A connection removes its client only as its last call, only after reading stopped, and always once reading stopped. |
| Server.Perform | api/websocket_handler.go:135-145 | The registry becomes `Step` of the call: `Joined` for a join, `Left` of that one room for a leave, `Removed` for a removal, and unchanged for a chat message. A join adds exactly `JoinCalls` to the relay log, a leave exactly `LeftCalls`, and a chat message exactly one publish of `room\|content`. After a join the client is in the room. After a leave it is not. After a removal it is in no room. The invariant is kept. |
| Server.Run | api/websocket_handler.go:82-89 | The registry becomes `After` of the calls, the result of applying each call's `Step` in order. The invariant is kept, and no calls change nothing. When the last call is a removal, that client is in no room at the end. |
| Server.Serve | api/websocket_handler.go:73-76 | When a connection with a sender id has stopped reading, its client is in no room and the invariant holds. A connection without a sender id changes nothing. |

## Left out

- Concurrency: the two levels of `sync.RWMutex`, the per-client write mutex, and the goroutines for subscriptions and fanout are not modelled. Operations run one at a time. As a result the model does not show races. For example, `LeaveRoom` decides under the room's own lock that the room is now empty (usecase/room_usecase.go:77-80), releases it, and only afterwards deletes the room from the map and calls `Unsubscribe` (82-86). A `JoinRoom` in that gap finds the room still registered and inserts its client, and `LeaveRoom` then deletes the room, so that client's membership is silently lost. The read loop and the frame loop, which run concurrently through a channel of capacity 50, are also run one after the other.
- Redis: the relay is the log of calls made on it. The `room:` channel prefix, the JSON encoding of the payload string on the wire, the reconnect loop and the `subscribeMu` lock in redis/pubsub.go are left out. The model relays the raw `room|content` string.
- What the Redis client does with the calls is not modelled. Over the calls it receives, the model proves one `Subscribe` per registered room. The program does not behave that way.
  - `Subscribe` (redis/pubsub.go:52-69) takes `subscribeMu` and never releases it, because its reconnect loop never ends. Every `Subscribe` after the first one in a process therefore blocks forever. `BroadcastToLocalRoom` is called only from the subscription handler (usecase/room_usecase.go:38), and every chat message is published (service/message_service.go:35) and reaches clients only through that handler. So in the program, relay delivery, the only path by which any client receives a room's messages, works only for the first room a process creates.
  - `Unsubscribe` (redis/pubsub.go:72-78) opens a fresh subscription, unsubscribes that one and closes it. The running `Subscribe` loop for the room is not stopped.
  - `Publish` JSON-encodes the payload string (redis/pubsub.go:38). The handler's `parts[1]` is therefore the content followed by a closing quote, with JSON escapes, not the content the model delivers.
- redis/lock.go: the distributed lock is not modelled. Its correctness rests on Redis and a server-side script.
- Transport: these become read outcomes, an opaque decode that may fail, and a set of sockets whose writes fail.
  - the websocket upgrade and its error response;
  - the read deadline and the pong handler;
  - the one-minute sleep between timeouts;
  - JSON decoding of frames;
  - `WriteMessage`.
- The model treats each read outcome as independent of the previous ones. This is more general than a real connection, whose reads may keep failing after a first error.
- Metrics: the Prometheus counters are not modelled.
- Storage and bootstrap: repository/*.go, db/mysql.go, config/config.go, api/router.go and redis/redis.go are not part of this model. The store is only the first call of `ProcessMessage`. From cmd/server/main.go only the shared relay is kept.
- The optional database fields of `model.Client` (`ClientID`, `Email`, `Name`, `Status`) are left out, because no operation here reads them.
- `Message.CreatedAt` is an integer, not a time.
- Identity of objects: a `model.Room` is its members map, registered under its name, and a `ClientConn` holds the client by value. Nothing in the core compares these objects by identity or changes a client after it joins.
- Publish errors inside the room use case are only logged there, so `PubSub.Publish` returns nothing. Only the services pass the outcome of a publish back.
- Rooms.RoomUseCase.constructor: requires a relay with no outstanding `Subscribe` call. The source's relay is fresh when the use case is built.
- Rooms.RoomUseCase.RemoveClient: the visiting order of Go's map iteration is unspecified. The model picks any order and reports it as a ghost result, and its contract holds for every order.
- Rooms.RoomUseCase.JoinRoom: the source inserts the empty new room into the map before calling `Subscribe`. The model inserts the room with its first member after that call. No one can observe the difference, since the operations run one at a time.
- Server.Perform: for a removal the contract gives the new registry (`Removed`) but not the relay calls. `RoomUseCase.RemoveClient` states them against its ghost visiting order.
- WebSocketHandler.HandleConnection: the read sequence is finite. When it runs out before the loop stops, the connection is still open and no removal has happened yet.
