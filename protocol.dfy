/**
 * The wire envelope of the session hub and the decision `processMessage`
 * takes on a decoded envelope. JSON itself is not modelled: decoding is an
 * abstract function from bytes to an optional envelope, supplied by the caller.
 */
module Protocol {
  import opened Wrappers

  newtype byte = b: int | 0 <= b < 256

  type Bytes = seq<byte>

  /** `MessageType` is an open string type: any tag may arrive on the wire. */
  type MessageType = string

  const PlayerMove: MessageType := "PLAYER_MOVE"
  const GameStateSync: MessageType := "GAME_STATE_SYNC"
  const PlayerJoin: MessageType := "PLAYER_JOIN"
  const PlayerLeave: MessageType := "PLAYER_LEAVE"
  const ChatMessage: MessageType := "CHAT_MESSAGE"

  /** The four-field envelope; the payload stays an undecoded sub-document. */
  datatype StructuredMessage = StructuredMessage(
    msgType: MessageType,
    playerId: string,
    payload: Bytes,
    timestamp: int)

  /** A decoder (the role of `json.Unmarshal`): `None` when the bytes are not an envelope. */
  type Decoder = Bytes -> Option<StructuredMessage>

  /**
   * Every error value the hub returns. The texts are those of main.go:80, 126,
   * 139, 148 and 192; `WriteFailed` stands for the transport's own write error,
   * which the hub passes through unchanged.
   */
  datatype Error =
    | ServerFull
    | InvalidMessageFormat
    | PlayerNotFound
    | MarshalPayloadFailed
    | MarshalMessageFailed
    | WriteFailed
  {
    function Text(): string {
      match this
      case ServerFull => "server is full"
      case InvalidMessageFormat => "invalid message format"
      case PlayerNotFound => "player not found"
      case MarshalPayloadFailed => "failed to marshal payload"
      case MarshalMessageFailed => "failed to marshal message"
      case WriteFailed => "write failed"
    }
  }

  /** What the log line of a handled-but-not-relayed message would report. */
  datatype Note = Moved | StateSynced | Unhandled(tag: MessageType)

  /** The outcome of routing one inbound frame. */
  datatype Reaction =
    | Reject(error: Error)   // undecodable: the error is returned, nothing is sent
    | Relay(frame: Bytes)    // chat: these exact bytes go to the broadcast
    | Noted(note: Note)      // every other tag: logged only, success

  predicate IsChat(decoded: Option<StructuredMessage>) {
    decoded.Some? && decoded.value.msgType == ChatMessage
  }

  /** The routing switch of `processMessage`, given the decoder's verdict on `data`. */
  function React(decoded: Option<StructuredMessage>, data: Bytes): (r: Reaction)
    ensures r.Reject? <==> decoded.None?
    ensures r.Reject? ==> r.error == InvalidMessageFormat
    ensures r.Relay? <==> IsChat(decoded)
    ensures r.Relay? ==> r.frame == data
  {
    match decoded
    case None => Reject(InvalidMessageFormat)
    case Some(msg) =>
      if msg.msgType == PlayerMove then Noted(Moved)
      else if msg.msgType == ChatMessage then Relay(data)
      else if msg.msgType == GameStateSync then Noted(StateSynced)
      else Noted(Unhandled(msg.msgType))
  }

  /** The tags without a case of their own, PLAYER_JOIN and PLAYER_LEAVE among them, are logged and accepted. */
  lemma UnknownTagsAccepted(msg: StructuredMessage, data: Bytes)
    requires msg.msgType !in {PlayerMove, ChatMessage, GameStateSync}
    ensures React(Some(msg), data) == Noted(Unhandled(msg.msgType))
    ensures msg.msgType in {PlayerJoin, PlayerLeave} ==> !React(Some(msg), data).Relay?
  {
  }
}
