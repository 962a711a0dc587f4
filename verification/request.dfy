/** Requests (request.py) and the request-header decoder `read_request`
    (server.py:113-130), modelled over a complete byte buffer: the bytes the
    connection would deliver, with anything after the frame left for the next
    request. */
module Requests {
  import opened Bytes
  import opened Wrappers
  import opened Sizes

  datatype Request = Request(
    clientId: seq<byte>,
    version: nat,
    code: nat,
    payloadSize: nat,
    payload: Option<seq<byte>>)

  /** What a decoded request looks like: the declared widths, and a payload
      present exactly when its declared size is nonzero, of exactly that size. */
  predicate WellFormed(q: Request) {
    && |q.clientId| == ClientIdSize
    && q.version < U8Limit
    && q.code < U16Limit
    && q.payloadSize < U32Limit
    && (q.payload.None? <==> q.payloadSize == 0)
    && (q.payload.Some? ==> |q.payload.value| == q.payloadSize)
  }

  /** A decoded request and the bytes that follow its frame. */
  datatype Decoded = Decoded(request: Request, rest: seq<byte>)

  /** The frame a client sends for `q`: the 23-byte header, then the payload. */
  function EncodeRequest(q: Request): (r: seq<byte>)
    requires WellFormed(q)
    ensures |r| == RequestHeaderSize + q.payloadSize
  {
    LimitsArePowers();
    q.clientId + [q.version as byte] + ToLE(q.code, CodeSize) + ToLE(q.payloadSize, PayloadSizeSize)
      + q.payload.GetOr([])
  }

  /** The declared payload size of a buffer holding at least a header. */
  function DeclaredSize(buf: seq<byte>): nat
    requires |buf| >= RequestHeaderSize
  {
    FromLE(buf[19..23])
  }

  /** `read_request`: client id (16 bytes), version (u8), code (u16 LE),
      payload size (u32 LE), then the payload when its size is nonzero.
      Fails when the header or the declared payload is cut short. */
  function DecodeRequest(buf: seq<byte>): (r: Result<Decoded>)
    ensures |buf| < RequestHeaderSize ==> r == Err(Truncated)
    ensures |buf| >= RequestHeaderSize ==>
              (r.Ok? <==> |buf| >= RequestHeaderSize + DeclaredSize(buf))
    ensures r.Ok? ==> WellFormed(r.value.request)
    ensures r.Ok? ==> EncodeRequest(r.value.request) + r.value.rest == buf
  {
    if |buf| < RequestHeaderSize then Err(Truncated)
    else
      var clientId := buf[0..16];
      var version := buf[16] as nat;
      var code := FromLE(buf[17..19]);
      var size := FromLE(buf[19..23]);
      LimitsArePowers();
      if size == 0 then
        var q := Request(clientId, version, code, 0, None);
        DecodeHeaderInverse(buf, q);
        Ok(Decoded(q, buf[23..]))
      else if |buf| - RequestHeaderSize < size then Err(Truncated)
      else
        var q := Request(clientId, version, code, size, Some(buf[23..23 + size]));
        DecodeHeaderInverse(buf, q);
        assert buf == buf[..23] + buf[23..23 + size] + buf[23 + size..];
        Ok(Decoded(q, buf[23 + size..]))
  }

  /** The header fields read from a buffer re-encode to its first 23 bytes. */
  lemma DecodeHeaderInverse(buf: seq<byte>, q: Request)
    requires |buf| >= RequestHeaderSize
    requires q.clientId == buf[0..16] && q.version == buf[16] as nat
    requires q.code == FromLE(buf[17..19]) && q.payloadSize == FromLE(buf[19..23])
    ensures q.code < U16Limit && q.payloadSize < U32Limit
    ensures ToLE(q.code, CodeSize) == buf[17..19] && ToLE(q.payloadSize, PayloadSizeSize) == buf[19..23]
    ensures q.clientId + [q.version as byte] + ToLE(q.code, CodeSize) + ToLE(q.payloadSize, PayloadSizeSize)
            == buf[..23]
  {
    LimitsArePowers();
    ToLEFromLE(buf[17..19]);
    ToLEFromLE(buf[19..23]);
  }

  /** Decoding an encoded request gives back the request and the bytes after it. */
  lemma DecodeEncodeRequest(q: Request, rest: seq<byte>)
    requires WellFormed(q)
    ensures DecodeRequest(EncodeRequest(q) + rest) == Ok(Decoded(q, rest))
  {
    LimitsArePowers();
    var buf := EncodeRequest(q) + rest;
    var code := ToLE(q.code, CodeSize);
    var size := ToLE(q.payloadSize, PayloadSizeSize);
    assert buf[0..16] == q.clientId;
    assert buf[16] == q.version as byte;
    assert buf[17..19] == code;
    assert buf[19..23] == size;
    FromLEToLE(q.code, CodeSize);
    FromLEToLE(q.payloadSize, PayloadSizeSize);
    if q.payloadSize == 0 {
      assert buf[23..] == rest;
    } else {
      assert buf[23..23 + q.payloadSize] == q.payload.value;
      assert buf[23 + q.payloadSize..] == rest;
    }
  }

  /** A nonzero declared size with fewer payload bytes behind the header makes
      decoding fail; it never yields a shorter payload. */
  lemma ShortPayloadFails(q: Request, short: seq<byte>)
    requires WellFormed(q) && q.payloadSize > 0
    requires |short| < q.payloadSize
    ensures DecodeRequest(EncodeRequest(q)[..RequestHeaderSize] + short) == Err(Truncated)
  {
    LimitsArePowers();
    var buf := EncodeRequest(q)[..RequestHeaderSize] + short;
    assert buf[19..23] == ToLE(q.payloadSize, PayloadSizeSize);
    FromLEToLE(q.payloadSize, PayloadSizeSize);
  }
}
