/** The records the server stores: clients (client.py) and messages
    (message.py). Ids, names, keys and contents are raw byte strings; the
    source's utf-8 encode/decode calls are not modelled. */
module Entities {
  import opened Bytes
  import opened Wrappers
  import opened Sizes

  /** A registered client. `lastSeen` is `None` until set; the server never sets it. */
  datatype Client = Client(id: seq<byte>, name: seq<byte>, publicKey: seq<byte>, lastSeen: Option<nat>)

  /** A message waiting in its recipient's mailbox. Never mutated once built. */
  datatype Message = Message(id: seq<byte>, toClient: seq<byte>, fromClient: seq<byte>, msgType: byte, content: seq<byte>)

  /** The widths a client created by registration has. */
  predicate ClientFits(c: Client) {
    |c.id| == ClientIdSize && |c.name| == NameSize && |c.publicKey| == PublicKeySize
  }

  /** The widths a message created by send-message has: a 4-byte id and a
      content whose length fits the 4-byte content-size field. */
  predicate MessageFits(m: Message) {
    |m.id| == MessageIdSize && |m.content| < U32Limit
  }

  /** The `Message` constructor. A truthy id (a non-empty byte string; `None`
      and `b""` are both modelled as the empty string) is kept; otherwise the
      id is the first MessageIdSize bytes of a fresh uuid, passed in as `uuid`. */
  function NewMessage(id: seq<byte>, toClient: seq<byte>, fromClient: seq<byte>, msgType: byte,
                      content: seq<byte>, uuid: seq<byte>): (m: Message)
    requires |uuid| == UuidSize
    ensures |id| > 0 ==> m.id == id
    ensures |id| == 0 ==> |m.id| == MessageIdSize && m.id == uuid[..MessageIdSize]
    ensures m.toClient == toClient && m.fromClient == fromClient
    ensures m.msgType == msgType && m.content == content
  {
    var chosen := if |id| > 0 then id else uuid[..MessageIdSize];
    Message(chosen, toClient, fromClient, msgType, content)
  }
}
