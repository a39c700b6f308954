/** What travels through a connection's send queue, and the queue's one operation for senders. */
module Messages {
  import opened ByteOrder
  import opened Prelude

  const QUEUE_SIZE := 5000
  const PROTO_TYPE_PROTO := 1
  const MESSAGE_TYPE := 3

  /** core.ServerProto; `data` stands for the protobuf message. */
  datatype ServerProto = ServerProto(
    data: int, playerGuid: int, clientAck: int, messageType: int,
    requestId: int, errorCode: int, protoType: int, messageDataType: int)

  /** The dynamic types an interface{} in the queue can have, as far as the writer looks. */
  datatype Item = Raw(data: Bytes) | Message(proto: ServerProto) | Unknown

  /** A send that does not wait: on a full queue the item is left out. */
  function Offer(queue: seq<Item>, item: Item): seq<Item> {
    if |queue| < QUEUE_SIZE then queue + [item] else queue
  }

  /** The bytes the writer makes of an item, if any. */
  function Assemble(pack: ServerProto -> Option<Bytes>, item: Item): Option<Bytes> {
    match item
    case Raw(data) => Some(data)
    case Message(proto) => pack(proto)
    case Unknown => None
  }
}
