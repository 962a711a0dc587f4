/** Responses (response.py): the record a handler returns and `pack`, its
    little-endian wire form. */
module Responses {
  import opened Bytes
  import opened Wrappers
  import opened Sizes
  import opened Entities

  /** `messagesToDelete` is the slot response.py:14-15 reserves for messages to
      delete once the response is sent; no handler sets it. */
  datatype Response = Response(
    version: nat,
    code: nat,
    payloadSize: nat,
    payload: Option<seq<byte>>,
    messagesToDelete: Option<seq<Message>>)

  /** The constructor: the given fields, and no messages to delete yet. */
  function NewResponse(version: nat, code: nat, payloadSize: nat, payload: Option<seq<byte>>): (r: Response)
    ensures r.version == version && r.code == code
    ensures r.payloadSize == payloadSize && r.payload == payload
    ensures GetMessagesToDelete(r) == None
  {
    Response(version, code, payloadSize, payload, None)
  }

  /** `get_messages_to_delete`: storing back what it returns leaves the
      response as it was. */
  function GetMessagesToDelete(r: Response): (messages: Option<seq<Message>>)
    ensures r.(messagesToDelete := messages) == r
  {
    r.messagesToDelete
  }

  /** `set_messages_to_delete`: the getter then returns what was set, and
      nothing else about the response changes. */
  function SetMessagesToDelete(r: Response, messages: Option<seq<Message>>): (r': Response)
    ensures GetMessagesToDelete(r') == messages
    ensures r'.version == r.version && r'.code == r.code
    ensures r'.payloadSize == r.payloadSize && r'.payload == r.payload
  {
    r.(messagesToDelete := messages)
  }

  /** Python truthiness of the payload: `None` and `b""` are both false. */
  predicate HasPayload(r: Response) {
    r.payload.Some? && |r.payload.value| > 0
  }

  /** The values `struct.pack("<BHI", ...)` accepts. */
  predicate Packable(r: Response) {
    r.version < U8Limit && r.code < U16Limit && r.payloadSize < U32Limit
  }

  /** The three header fields of a response frame. */
  datatype Header = Header(version: nat, code: nat, payloadSize: nat)

  /** Reads a 7-byte response header: version (u8), code (u16 LE), size (u32 LE). */
  function UnpackHeader(h: seq<byte>): Header
    requires |h| == ResponseHeaderSize
  {
    Header(h[0] as nat, FromLE(h[1..3]), FromLE(h[3..7]))
  }

  /** `pack`: the 7-byte header, followed, when the payload is truthy, by the
      payload fitted to exactly `payloadSize` bytes (the `Ns` format). A field
      too large for its format makes `struct.pack` raise. */
  function Pack(r: Response): (bytes: Result<seq<byte>>)
    ensures bytes.Ok? <==> Packable(r)
    ensures bytes.Ok? ==> |bytes.value| == ResponseHeaderSize + (if HasPayload(r) then r.payloadSize else 0)
    ensures bytes.Ok? ==> UnpackHeader(bytes.value[..ResponseHeaderSize]) == Header(r.version, r.code, r.payloadSize)
    ensures bytes.Ok? && HasPayload(r) ==> bytes.value[ResponseHeaderSize..] == FitTo(r.payload.value, r.payloadSize)
  {
    if !Packable(r) then Err(OutOfRange)
    else
      LimitsArePowers();
      var code := ToLE(r.code, CodeSize);
      var size := ToLE(r.payloadSize, PayloadSizeSize);
      var header := [r.version as byte] + code + size;
      assert header[1..3] == code && header[3..7] == size;
      FromLEToLE(r.code, CodeSize);
      FromLEToLE(r.payloadSize, PayloadSizeSize);
      if HasPayload(r) then
        var bytes := header + FitTo(r.payload.value, r.payloadSize);
        assert bytes[..ResponseHeaderSize] == header;
        Ok(bytes)
      else
        assert header[..ResponseHeaderSize] == header;
        Ok(header)
  }

  /** A response without a payload packs to exactly the 7-byte header, whatever
      size it declares. */
  lemma PackWithoutPayload(r: Response)
    requires Packable(r) && !HasPayload(r)
    ensures Pack(r).Ok? && |Pack(r).value| == ResponseHeaderSize
    ensures UnpackHeader(Pack(r).value) == Header(r.version, r.code, r.payloadSize)
  {
    assert Pack(r).value[..ResponseHeaderSize] == Pack(r).value;
  }

  /** A payload of exactly the declared size is sent unchanged after the header. */
  lemma PackExactPayload(r: Response)
    requires Packable(r) && HasPayload(r) && |r.payload.value| == r.payloadSize
    ensures Pack(r).Ok?
    ensures Pack(r).value == Pack(r).value[..ResponseHeaderSize] + r.payload.value
  {
    var b := Pack(r).value;
    assert b == b[..ResponseHeaderSize] + b[ResponseHeaderSize..];
  }
}
