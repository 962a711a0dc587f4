/** The operation-specific payloads of server.py: how the handlers cut
    request payloads into fields and how they lay out response payloads.
    Each response layout comes with the decoder a client would use, and a
    lemma that the decoder recovers what the server put in. */
module Payloads {
  import opened Bytes
  import opened Wrappers
  import opened Sizes
  import opened Entities

  // ---------------------------------------------------------------- register

  /** The fields of a registration payload. */
  datatype Registration = Registration(name: seq<byte>, publicKey: seq<byte>)

  /** server.py:150-152 as intended: a 255-byte name, then a 160-byte key.
      `struct.unpack` with an `Ns` format demands exactly N bytes, so both
      slices must be full and nothing may follow the key. */
  function ParseRegistration(payload: Option<seq<byte>>): (r: Result<Registration>)
    ensures r.Ok? <==> payload.Some? && |payload.value| == NameSize + PublicKeySize
    ensures r.Ok? ==> |r.value.name| == NameSize && |r.value.publicKey| == PublicKeySize
    ensures r.Ok? ==> r.value.name + r.value.publicKey == payload.value
  {
    if payload.None? then Err(MissingPayload)
    else
      var p := payload.value;
      var name := PySlice(p, 0, NameSize);
      // server.py:152 slices the key from offset PublicKeySize (160); the
      // key follows the 255-byte name, so the model slices from NameSize.
      var key := PySlice(p, NameSize, |p|);
      if |name| != NameSize || |key| != PublicKeySize then Err(Truncated)
      else
        assert p == name + key;
        Ok(Registration(name, key))
  }

  /** server.py:151-152 as written: the key is sliced from offset 160. */
  function ParseRegistrationAsWritten(payload: Option<seq<byte>>): (r: Result<Registration>)
    ensures r.Ok? <==> payload.Some? && |payload.value| == 2 * PublicKeySize
  {
    if payload.None? then Err(MissingPayload)
    else
      var p := payload.value;
      var name := PySlice(p, 0, NameSize);
      var key := PySlice(p, PublicKeySize, |p|);
      if |name| != NameSize || |key| != PublicKeySize then Err(Truncated)
      else Ok(Registration(name, key))
  }

  /** The as-written slicing rejects every well-formed 415-byte registration,
      which the intended slicing splits back into its name and key. */
  lemma RegistrationAsWrittenRejectsWellFormed(name: seq<byte>, key: seq<byte>)
    requires |name| == NameSize && |key| == PublicKeySize
    ensures ParseRegistrationAsWritten(Some(name + key)).Err?
    ensures ParseRegistration(Some(name + key)) == Ok(Registration(name, key))
  {
    var r := ParseRegistration(Some(name + key)).value;
    assert r.name == (name + key)[..NameSize] == name;
  }

  // ------------------------------------------------------------ send message

  /** The fields of a send-message payload. */
  datatype Outgoing = Outgoing(toClient: seq<byte>, msgType: byte, content: seq<byte>)

  /** The send-message payload a client builds: recipient id, type (u8),
      content size (u32 LE), content. */
  function EncodeOutgoing(o: Outgoing): (r: seq<byte>)
    requires |o.toClient| == ClientIdSize && |o.content| < U32Limit
    ensures |r| == SendHeaderSize + |o.content|
  {
    LimitsArePowers();
    o.toClient + [o.msgType] + ToLE(|o.content|, MessageContentSizeSize) + o.content
  }

  /** server.py:220-228 as intended: each field is read at its running
      offset, and the content must be exactly the declared size. */
  function ParseSendMessage(payload: Option<seq<byte>>): (r: Result<Outgoing>)
    ensures r.Ok? <==> payload.Some? && |payload.value| >= SendHeaderSize
                       && FromLE(payload.value[17..21]) == |payload.value| - SendHeaderSize
    ensures r.Ok? ==> |r.value.toClient| == ClientIdSize && |r.value.content| < U32Limit
    ensures r.Ok? ==> EncodeOutgoing(r.value) == payload.value
  {
    if payload.None? then Err(MissingPayload)
    else
      var p := payload.value;
      var pos := 0;
      var toClient := PySlice(p, pos, pos + ClientIdSize);
      var pos := pos + ClientIdSize;
      // server.py:224 and server.py:226 end these slices at the field width
      // instead of at pos + width; the model uses pos + width.
      var typeField := PySlice(p, pos, pos + MessageTypeSize);
      var pos := pos + MessageTypeSize;
      var sizeField := PySlice(p, pos, pos + MessageContentSizeSize);
      var pos := pos + MessageContentSizeSize;
      var content := PySlice(p, pos, |p|);
      if |toClient| != ClientIdSize || |typeField| != MessageTypeSize || |sizeField| != MessageContentSizeSize
      then Err(Truncated)
      else if FromLE(sizeField) != |content| then Err(Truncated)
      else
        var o := Outgoing(toClient, typeField[0], content);
        LimitsArePowers();
        ToLEFromLE(sizeField);
        assert p == toClient + typeField + sizeField + content;
        Ok(o)
  }

  /** The server reads back exactly the message a client encoded. */
  lemma ParseEncodeOutgoing(o: Outgoing)
    requires |o.toClient| == ClientIdSize && |o.content| < U32Limit
    ensures ParseSendMessage(Some(EncodeOutgoing(o))) == Ok(o)
  {
    LimitsArePowers();
    var p := EncodeOutgoing(o);
    assert p[17..21] == ToLE(|o.content|, MessageContentSizeSize);
    FromLEToLE(|o.content|, MessageContentSizeSize);
    assert p[..16] == o.toClient && p[16] == o.msgType && p[21..] == o.content;
  }

  /** `struct.unpack("<B", field)`: exactly one byte, or it raises. */
  function UnpackU8(field: seq<byte>): (r: Result<byte>)
    ensures r.Ok? <==> |field| == MessageTypeSize
    ensures r.Ok? ==> field == [r.value]
  {
    if |field| != MessageTypeSize then Err(Truncated) else Ok(field[0])
  }

  /** server.py:220-228 as written: the same fields and checks as
      `ParseSendMessage`, but the type is sliced as `payload[16:1]` and the
      size as `payload[17:4]`, whose ends lie before their starts. The source
      also forgets the `[0]` after each `unpack`; that is not modelled. */
  function ParseSendMessageAsWritten(payload: Option<seq<byte>>): (r: Result<Outgoing>)
    ensures r.Err?
    ensures payload.Some? ==> r == Err(Truncated)
  {
    if payload.None? then Err(MissingPayload)
    else
      var p := payload.value;
      var pos := 0;
      var toClient := PySlice(p, pos, pos + ClientIdSize);
      var pos := pos + ClientIdSize;
      var typeField := PySlice(p, pos, MessageTypeSize);
      var pos := pos + MessageTypeSize;
      var sizeField := PySlice(p, pos, MessageContentSizeSize);
      var pos := pos + MessageContentSizeSize;
      var content := PySlice(p, pos, |p|);
      if |toClient| != ClientIdSize then Err(Truncated)
      else
        match UnpackU8(typeField)
        case Err(e) => Err(e)
        case Ok(msgType) =>
          if |sizeField| != MessageContentSizeSize || FromLE(sizeField) != |content| then Err(Truncated)
          else Ok(Outgoing(toClient, msgType, content))
  }

  /** Every well-formed send-message payload is rejected as written and
      accepted by the intended offsets. */
  lemma SendAsWrittenRejectsWellFormed(o: Outgoing)
    requires |o.toClient| == ClientIdSize && |o.content| < U32Limit
    ensures ParseSendMessageAsWritten(Some(EncodeOutgoing(o))).Err?
    ensures ParseSendMessage(Some(EncodeOutgoing(o))) == Ok(o)
  {
    ParseEncodeOutgoing(o);
  }

  // ------------------------------------------------------------ clients list

  /** One clients-list entry: the id as a 16-byte field, then the name. For a
      registered client it is 271 bytes, and reading it back at the fixed
      offsets gives the client's id and name. */
  function ClientEntry(c: Client): (r: seq<byte>)
    ensures ClientFits(c) ==> |r| == ClientEntrySize
    ensures ClientFits(c) ==> r[..ClientIdSize] == c.id && r[ClientIdSize..] == c.name
  {
    FitTo(c.id, ClientIdSize) + c.name
  }

  /** server.py:183-185: the entries of `cs` one after another. */
  function ClientEntries(cs: seq<Client>): (r: seq<byte>)
    ensures (forall i :: 0 <= i < |cs| ==> ClientFits(cs[i])) ==> |r| == |cs| * ClientEntrySize
  {
    if |cs| == 0 then [] else ClientEntry(cs[0]) + ClientEntries(cs[1..])
  }

  /** An (id, name) pair as a client reads it from a clients list. */
  datatype Listed = Listed(id: seq<byte>, name: seq<byte>)

  function ListedOf(cs: seq<Client>): (r: seq<Listed>)
    ensures |r| == |cs|
    ensures forall i :: 0 <= i < |cs| ==> r[i] == Listed(cs[i].id, cs[i].name)
  {
    if |cs| == 0 then [] else [Listed(cs[0].id, cs[0].name)] + ListedOf(cs[1..])
  }

  /** Splits a clients list of registered (fixed-width) clients into entries. */
  function DecodeClientEntries(b: seq<byte>): Option<seq<Listed>>
    decreases |b|
  {
    if |b| == 0 then Some([])
    else if |b| < ClientEntrySize then None
    else
      match DecodeClientEntries(b[ClientEntrySize..])
      case None => None
      case Some(rest) => Some([Listed(b[..ClientIdSize], b[ClientIdSize..ClientEntrySize])] + rest)
  }

  /** A clients list of registered clients decodes to their ids and names, in order. */
  lemma {:induction false} DecodeClientEntriesInverse(cs: seq<Client>)
    requires forall i :: 0 <= i < |cs| ==> ClientFits(cs[i])
    ensures DecodeClientEntries(ClientEntries(cs)) == Some(ListedOf(cs))
  {
    if |cs| > 0 {
      DecodeClientEntriesInverse(cs[1..]);
      var b := ClientEntries(cs);
      var e := ClientEntry(cs[0]);
      assert b == e + ClientEntries(cs[1..]);
      assert b[ClientEntrySize..] == ClientEntries(cs[1..]);
      assert b[..ClientIdSize] == cs[0].id;
      assert b[ClientIdSize..ClientEntrySize] == cs[0].name;
    }
  }

  // --------------------------------------------------------- waiting messages

  /** One waiting-message entry as a client reads it. */
  datatype Waiting = Waiting(id: seq<byte>, msgType: byte, content: seq<byte>)

  function WaitingOf(ms: seq<Message>): (r: seq<Waiting>)
    ensures |r| == |ms|
    ensures forall i :: 0 <= i < |ms| ==> r[i] == Waiting(ms[i].id, ms[i].msgType, ms[i].content)
  {
    if |ms| == 0 then [] else [Waiting(ms[0].id, ms[0].msgType, ms[0].content)] + WaitingOf(ms[1..])
  }

  /** server.py:251-252 for one message: id (4-byte field), type (u8),
      content length (u32 LE), content. */
  function WaitingEntry(m: Message): (r: seq<byte>)
    requires |m.content| < U32Limit
    ensures |r| == WaitingEntryHeaderSize + |m.content|
    ensures r[..MessageIdSize] == FitTo(m.id, MessageIdSize) && r[MessageIdSize] == m.msgType
    ensures FromLE(r[MessageIdSize + MessageTypeSize..WaitingEntryHeaderSize]) == |m.content|
    ensures r[WaitingEntryHeaderSize..] == m.content
  {
    LimitsArePowers();
    FromLEToLE(|m.content|, MessageContentSizeSize);
    // server.py:251 packs the 4-byte message id with the integer format `I`,
    // which `struct.pack` refuses for bytes; the model packs it as `4s`.
    FitTo(m.id, MessageIdSize) + [m.msgType] + ToLE(|m.content|, MessageContentSizeSize) + m.content
  }

  /** The entries of all messages in order; `struct.pack` raises when a
      content length does not fit the u32 field. */
  function WaitingEntries(ms: seq<Message>): (r: Result<seq<byte>>)
    ensures r.Ok? <==> forall i :: 0 <= i < |ms| ==> |ms[i].content| < U32Limit
  {
    if |ms| == 0 then Ok([])
    else if |ms[0].content| >= U32Limit then Err(OutOfRange)
    else
      match WaitingEntries(ms[1..])
      case Err(e) => Err(e)
      case Ok(rest) => Ok(WaitingEntry(ms[0]) + rest)
  }

  /** Splits a run of waiting-message entries. */
  function DecodeWaitingEntries(b: seq<byte>): Option<seq<Waiting>>
    decreases |b|
  {
    if |b| == 0 then Some([])
    else if |b| < WaitingEntryHeaderSize then None
    else
      var size := FromLE(b[5..9]);
      if |b| - WaitingEntryHeaderSize < size then None
      else
        match DecodeWaitingEntries(b[WaitingEntryHeaderSize + size..])
        case None => None
        case Some(rest) =>
          Some([Waiting(b[..MessageIdSize], b[MessageIdSize], b[WaitingEntryHeaderSize..WaitingEntryHeaderSize + size])] + rest)
  }

  /** The waiting-messages entries decode to each message's id, type and
      content, in mailbox order. */
  lemma {:induction false} DecodeWaitingEntriesInverse(ms: seq<Message>)
    requires forall i :: 0 <= i < |ms| ==> MessageFits(ms[i])
    ensures WaitingEntries(ms).Ok?
    ensures DecodeWaitingEntries(WaitingEntries(ms).value) == Some(WaitingOf(ms))
  {
    if |ms| > 0 {
      DecodeWaitingEntriesInverse(ms[1..]);
      LimitsArePowers();
      var m := ms[0];
      var e := WaitingEntry(m);
      var rest := WaitingEntries(ms[1..]).value;
      var b := e + rest;
      assert WaitingEntries(ms).value == b;
      assert b[5..9] == ToLE(|m.content|, MessageContentSizeSize);
      FromLEToLE(|m.content|, MessageContentSizeSize);
      assert b[WaitingEntryHeaderSize + |m.content|..] == rest;
      assert b[..MessageIdSize] == m.id;
      assert b[WaitingEntryHeaderSize..WaitingEntryHeaderSize + |m.content|] == m.content;
    }
  }

  /** Appending a message appends exactly its entry. */
  lemma {:induction false} WaitingEntriesAppend(ms: seq<Message>, m: Message)
    requires WaitingEntries(ms).Ok? && |m.content| < U32Limit
    ensures WaitingEntries(ms + [m]) == Ok(WaitingEntries(ms).value + WaitingEntry(m))
  {
    if |ms| > 0 {
      var t := ms + [m];
      assert t[0] == ms[0] && t[1..] == ms[1..] + [m];
      var head := WaitingEntry(ms[0]);
      var tail := WaitingEntries(ms[1..]).value;
      assert WaitingEntries(ms).value == head + tail;
      WaitingEntriesAppend(ms[1..], m);
      assert WaitingEntries(t) == Ok(head + (tail + WaitingEntry(m)));
      assert head + (tail + WaitingEntry(m)) == (head + tail) + WaitingEntry(m);
    } else {
      assert ms + [m] == [m];
      assert [m][1..] == [];
      assert WaitingEntries([m][1..]) == Ok([]);
      assert WaitingEntries([m]) == Ok(WaitingEntry(m) + []);
      assert WaitingEntry(m) + [] == WaitingEntry(m);
      assert WaitingEntries(ms).value + WaitingEntry(m) == WaitingEntry(m);
    }
  }
}
