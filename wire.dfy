/** Values exchanged between the relay and its peers: connection handles,
    room codes, the typed signals of the relay protocol and the abstract
    send/close effects the relay performs on connections. */
module Wire {

  datatype Option<+T> = None | Some(value: T)

  /** An abstract connection handle (a `ws` socket in the relay). */
  type Conn = nat

  /** A room code as the registry keys it. */
  type Code = string

  /** A forwarded frame, passed through without being inspected. */
  type Payload = string

  /** The `message` values carried by `{type: "error"}` signals. */
  datatype ErrorCode = ServerFull | RoomNotFound | RoomFull | RoomExpired

  /** The JSON signals the relay sends, one constructor per `type`. */
  datatype Signal =
    | Error(message: ErrorCode)
    | RoomCreated(room: Code)
    | PeerJoined
    | Joined(room: Code)
    | PeerDisconnected

  /** What goes out on a connection: a relay signal or a forwarded frame. */
  datatype Message = SignalMsg(signal: Signal) | Data(payload: Payload)

  /** One effect on a connection, in the order the relay performs them. */
  datatype Action = Send(to: Conn, msg: Message) | Close(conn: Conn)
}
