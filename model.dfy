/** The data shapes of model/client.go, model/room.go and model/message.go. */
module Model {
  import opened Wrappers

  type ClientId = string
  type RoomName = string

  /** A websocket connection, known here only by its peer address. */
  datatype Socket = Socket(remoteAddr: string)

  /**
   * A connected client: its id (the peer address), its socket (a nil
   * `*websocket.Conn` is `None`) and the sender identity given at connect time.
   */
  datatype Client = Client(id: ClientId, socket: Option<Socket>, senderId: string)

  /** The entry a room keeps for one member. */
  datatype ClientConn = ClientConn(id: ClientId, client: Client)

  /** A chat frame; `action` is "join", "leave", "message" or anything else. */
  datatype Message = Message(id: int, senderId: string, roomId: RoomName, content: string,
                             createdAt: int, action: string)

  /**
   * A room's members, keyed by client id: the `Clients` map of a room. The
   * room's name is the key it is registered under.
   */
  type Members = map<ClientId, ClientConn>
}
