/** The request path of server.py: the five handlers, the code dispatcher
    `handle_request`, and the part of `read` that turns any failure into a
    general-error response. Each handler maps a store and a request to an
    updated store and a response, or to the failure the source raises. */
module Server {
  import opened Bytes
  import opened Wrappers
  import opened Sizes
  import opened Codes
  import opened Entities
  import opened Db
  import opened Requests
  import opened Responses
  import opened Payloads

  /** The store after a request and the response to send back. */
  datatype Outcome = Outcome(store: Store, response: Response)

  /** Some stored client already has this name. */
  ghost predicate NameTaken(s: Store, name: seq<byte>) {
    exists id :: id in s.clients && s.clients[id].name == name
  }

  // ----------------------------------------------------------------- register

  /** `register_client`: refuse a taken name; otherwise store a new client
      under the fresh id `uuid` (server.py:159 draws it from `uuid.uuid4()`)
      with LastSeen unset, and answer with an empty success response. */
  function Register(s: Store, q: Request, uuid: seq<byte>): (r: Result<Outcome>)
    requires |uuid| == UuidSize
    ensures r.Ok? ==> ParseRegistration(q.payload).Ok?
    ensures Valid(s) && ParseRegistration(q.payload).Ok? ==>
              (r == Err(DuplicateName) <==> NameTaken(s, ParseRegistration(q.payload).value.name))
    ensures Valid(s) && ParseRegistration(q.payload).Ok? ==>
              (r.Ok? <==> !NameTaken(s, ParseRegistration(q.payload).value.name))
    ensures r.Ok? ==>
              var reg := ParseRegistration(q.payload).value;
              GetClientById(r.value.store, uuid) == Some(Client(uuid, reg.name, reg.publicKey, None))
    ensures r.Ok? ==> forall id :: id != uuid ==> GetClientById(r.value.store, id) == GetClientById(s, id)
    ensures r.Ok? ==> r.value.store.mailboxes == s.mailboxes
    ensures r.Ok? ==> r.value.response.code == RegistrationSuccessfulResponse
    ensures r.Ok? ==> r.value.response.payloadSize == 0 && r.value.response.payload.None?
    ensures Valid(s) && r.Ok? ==> Valid(r.value.store)
  {
    match ParseRegistration(q.payload)
    case Err(e) => Err(e)
    case Ok(reg) =>
      if GetClientByName(s, reg.name).Some? then Err(DuplicateName)
      else
        var c := Client(uuid, reg.name, reg.publicKey, None);
        // server.py:166: the success response carries no payload, not the new id.
        Ok(Outcome(InsertClient(s, c), NewResponse(ServerVersion, RegistrationSuccessfulResponse, 0, None)))
  }

  /** A successful registration with an unused id adds exactly that one
      client, keeps the store invariant, and keeps names unique. */
  lemma RegisterAddsOneClient(s: Store, q: Request, uuid: seq<byte>)
    requires Valid(s) && UniqueNames(s) && |uuid| == UuidSize && uuid !in s.clients
    requires Register(s, q, uuid).Ok?
    ensures var s' := Register(s, q, uuid).value.store;
            && s'.clients.Keys == s.clients.Keys + {uuid}
            && |s'.clients| == |s.clients| + 1
            && s'.order == s.order + [uuid]
            && Valid(s') && UniqueNames(s')
  {
    var reg := ParseRegistration(q.payload).value;
    var s' := Register(s, q, uuid).value.store;
    assert s'.clients == s.clients[uuid := Client(uuid, reg.name, reg.publicKey, None)];
    assert !NameTaken(s, reg.name);
  }

  // ------------------------------------------------------------- clients list

  /** Entries `i` and `j` of `r` (with `i` before `j`) occur in `cs`, and in
      the same relative order. */
  ghost predicate InOrderPair<T>(r: seq<T>, cs: seq<T>, i: int, j: int) {
    0 <= i < j < |r| && exists a, b :: 0 <= a < b < |cs| && r[i] == cs[a] && r[j] == cs[b]
  }

  /** Every two entries of `r` occur in `cs` in the same relative order: a
      filter of a list with no repeated entries neither reorders nor repeats. */
  ghost predicate KeepsOrder<T>(r: seq<T>, cs: seq<T>) {
    forall i, j :: 0 <= i < j < |r| ==> InOrderPair(r, cs, i, j)
  }

  /** Skipping the head of `cs` keeps the order of what remains. */
  lemma KeepsOrderSkip<T>(r: seq<T>, c: T, cs: seq<T>)
    requires KeepsOrder(r, cs)
    ensures KeepsOrder(r, [c] + cs)
  {
    forall i, j | 0 <= i < j < |r|
      ensures InOrderPair(r, [c] + cs, i, j)
    {
      assert InOrderPair(r, cs, i, j);
      var a, b :| 0 <= a < b < |cs| && r[i] == cs[a] && r[j] == cs[b];
      assert r[i] == ([c] + cs)[a + 1] && r[j] == ([c] + cs)[b + 1];
    }
  }

  /** Keeping the head of `cs` puts it before everything kept from the rest. */
  lemma KeepsOrderKeep<T>(r: seq<T>, c: T, cs: seq<T>)
    requires KeepsOrder(r, cs)
    requires forall x :: x in r ==> x in cs
    ensures KeepsOrder([c] + r, [c] + cs)
  {
    var r', cs' := [c] + r, [c] + cs;
    forall i, j | 0 <= i < j < |r'|
      ensures InOrderPair(r', cs', i, j)
    {
      assert r'[j] == r[j - 1] && r[j - 1] in r;
      if i == 0 {
        var b :| 0 <= b < |cs| && cs[b] == r[j - 1];
        assert r'[i] == cs'[0] && r'[j] == cs'[b + 1];
      } else {
        assert InOrderPair(r, cs, i - 1, j - 1);
        var a, b :| 0 <= a < b < |cs| && r[i - 1] == cs[a] && r[j - 1] == cs[b];
        assert r'[i] == cs'[a + 1] && r'[j] == cs'[b + 1];
      }
    }
  }

  /** The clients of `cs` other than the one with id `id`, in order. */
  function Without(cs: seq<Client>, id: seq<byte>): (r: seq<Client>)
    ensures forall c :: c in r <==> c in cs && c.id != id
    ensures |r| <= |cs|
    ensures (forall i :: 0 <= i < |cs| ==> cs[i].id != id) ==> r == cs
    ensures KeepsOrder(r, cs)
  {
    if |cs| == 0 then []
    else
      var rest := Without(cs[1..], id);
      assert cs == [cs[0]] + cs[1..];
      assert forall c :: c in cs <==> c == cs[0] || c in cs[1..];
      if cs[0].id != id then
        KeepsOrderKeep(rest, cs[0], cs[1..]);
        [cs[0]] + rest
      else
        KeepsOrderSkip(rest, cs[0], cs[1..]);
        rest
  }

  /** In a valid store, a list that keeps the order of the stored clients
      never lists one id twice. */
  lemma KeptOrderHasDistinctIds(s: Store, r: seq<Client>)
    requires Valid(s) && KeepsOrder(r, GetAllClients(s))
    ensures forall i, j :: 0 <= i < j < |r| ==> r[i].id != r[j].id
  {
    var all := GetAllClients(s);
    forall i, j | 0 <= i < j < |r|
      ensures r[i].id != r[j].id
    {
      assert InOrderPair(r, all, i, j);
      var a, b :| 0 <= a < b < |all| && r[i] == all[a] && r[j] == all[b];
      assert s.order[a] in s.clients && s.order[b] in s.clients;
      assert r[i].id == s.order[a] && r[j].id == s.order[b];
    }
  }

  /** The clients a clients-list answer names: every registered client but
      the requester, each once, in the order `get_all_clients` lists them,
      which for a valid store is insertion order. */
  function ListedClients(s: Store, requester: seq<byte>): (r: seq<Client>)
    ensures forall c :: c in r ==> c in s.clients.Values && c.id != requester
    ensures Valid(s) ==> forall id :: id in s.clients && id != requester ==> s.clients[id] in r
    ensures Valid(s) ==> forall i :: 0 <= i < |r| ==> ClientFits(r[i])
    ensures KeepsOrder(r, GetAllClients(s))
    ensures Valid(s) ==> forall i, j :: 0 <= i < j < |r| ==> r[i].id != r[j].id
  {
    var r := Without(GetAllClients(s), requester);
    assert Valid(s) ==> forall i :: 0 <= i < |r| ==> r[i] in r && ClientFits(r[i]) by {
      if Valid(s) {
        forall i | 0 <= i < |r| ensures ClientFits(r[i]) {
          assert r[i] in s.clients.Values;
        }
      }
    }
    assert Valid(s) ==> forall i, j :: 0 <= i < j < |r| ==> r[i].id != r[j].id by {
      if Valid(s) {
        KeptOrderHasDistinctIds(s, r);
      }
    }
    r
  }

  /** `get_clients_list`: the ids and names of all other clients; the
      declared size is the payload's length. The store is not changed. */
  function ClientsList(s: Store, q: Request): (r: Result<Outcome>)
    ensures r.Ok? && r.value.store == s
    ensures r.value.response.code == ClientsListReturnedResponse
    ensures r.value.response.payload == Some(ClientEntries(ListedClients(s, q.clientId)))
    ensures r.value.response.payloadSize == |r.value.response.payload.value|
  {
    // server.py:179 iterates what get_all_clients returns (the dictionary's
    // keys, see db.py:52), and server.py:180 starts the payload as the text
    // string "" before appending bytes; the model builds a byte payload from
    // the stored clients.
    var body := ClientEntries(ListedClients(s, q.clientId));
    Ok(Outcome(s, NewResponse(ServerVersion, ClientsListReturnedResponse, |body|, Some(body))))
  }

  /** Read by a client, a clients list never names the requester, and names
      only registered clients, each under its registered name. */
  lemma ClientsListExcludesRequester(s: Store, q: Request)
    requires Valid(s)
    ensures DecodeClientEntries(ClientsList(s, q).value.response.payload.value).Some?
    ensures forall e :: e in DecodeClientEntries(ClientsList(s, q).value.response.payload.value).value ==>
              e.id != q.clientId && e.id in s.clients && s.clients[e.id].name == e.name
  {
    var cs := ListedClients(s, q.clientId);
    DecodeClientEntriesInverse(cs);
    var listed := ListedOf(cs);
    forall e | e in listed
      ensures e.id != q.clientId && e.id in s.clients && s.clients[e.id].name == e.name
    {
      var i :| 0 <= i < |listed| && listed[i] == e;
      assert cs[i] in cs;
    }
  }

  /** Read by a client, a clients list names every registered client other
      than the requester. */
  lemma ClientsListNamesOthers(s: Store, q: Request)
    requires Valid(s)
    ensures DecodeClientEntries(ClientsList(s, q).value.response.payload.value).Some?
    ensures forall id :: id in s.clients && id != q.clientId ==>
              Listed(id, s.clients[id].name) in DecodeClientEntries(ClientsList(s, q).value.response.payload.value).value
  {
    var cs := ListedClients(s, q.clientId);
    DecodeClientEntriesInverse(cs);
    var listed := ListedOf(cs);
    forall id | id in s.clients && id != q.clientId
      ensures Listed(id, s.clients[id].name) in listed
    {
      var c := s.clients[id];
      assert c in cs;
      var i :| 0 <= i < |cs| && cs[i] == c;
      assert listed[i] == Listed(id, c.name);
    }
  }

  // --------------------------------------------------------------- public key

  /** `get_client_public_key`: the first 16 payload bytes name the target;
      the answer is the target id followed by its 160-byte key. An unknown
      target fails. The store is not changed. */
  function GetPublicKey(s: Store, q: Request): (r: Result<Outcome>)
    ensures r.Ok? <==> q.payload.Some? && |q.payload.value| >= ClientIdSize
                       && q.payload.value[..ClientIdSize] in s.clients
    ensures (q.payload.Some? && |q.payload.value| >= ClientIdSize
             && q.payload.value[..ClientIdSize] !in s.clients) ==> r == Err(UnknownClient)
    ensures r.Ok? ==> r.value.store == s
    ensures r.Ok? ==> r.value.response.code == ClientPublicKeyReturnedResponse
    ensures r.Ok? ==>
              var target := q.payload.value[..ClientIdSize];
              && r.value.response.payload == Some(target + FitTo(s.clients[target].publicKey, PublicKeySize))
              && r.value.response.payloadSize == ClientIdSize + PublicKeySize
    ensures Valid(s) && r.Ok? ==>
              r.value.response.payload.value[ClientIdSize..] == s.clients[q.payload.value[..ClientIdSize]].publicKey
  {
    if q.payload.None? then Err(MissingPayload)
    else
      var target := PySlice(q.payload.value, 0, ClientIdSize);
      if |target| != ClientIdSize then Err(Truncated)
      else
        match GetClientById(s, target)
        case None => Err(UnknownClient)
        case Some(c) =>
          var body := FitTo(target, ClientIdSize) + FitTo(c.publicKey, PublicKeySize);
          assert (target + FitTo(c.publicKey, PublicKeySize))[ClientIdSize..] == FitTo(c.publicKey, PublicKeySize);
          Ok(Outcome(s, NewResponse(ServerVersion, ClientPublicKeyReturnedResponse, |body|, Some(body))))
  }

  // ------------------------------------------------------------- send message

  /** The message a send-message request deposits: a fresh 4-byte id, the
      parsed recipient, type and content, and the requester as sender. */
  function Deposited(q: Request, o: Outgoing, uuid: seq<byte>): (m: Message)
    requires |uuid| == UuidSize
    ensures m.id == uuid[..MessageIdSize] && m.fromClient == q.clientId
    ensures m.toClient == o.toClient && m.msgType == o.msgType && m.content == o.content
  {
    // server.py:231 passes four arguments to the five-argument constructor;
    // the model passes an empty id so that the constructor draws a fresh one.
    NewMessage([], o.toClient, q.clientId, o.msgType, o.content, uuid)
  }

  /** `send_client_message`: append one message to the recipient's mailbox
      and answer with the recipient id followed by the message id. The
      recipient is not required to be registered. */
  function SendMessage(s: Store, q: Request, uuid: seq<byte>): (r: Result<Outcome>)
    requires |uuid| == UuidSize
    ensures r.Ok? <==> ParseSendMessage(q.payload).Ok?
    ensures r.Ok? ==>
              var o := ParseSendMessage(q.payload).value;
              var m := Message(uuid[..MessageIdSize], o.toClient, q.clientId, o.msgType, o.content);
              && GetMessagesByReceiverId(r.value.store, o.toClient) == Some(MailboxOf(s, o.toClient) + [m])
              && r.value.response.payload == Some(o.toClient + m.id)
    ensures r.Ok? ==> forall id :: id != ParseSendMessage(q.payload).value.toClient ==>
                        GetMessagesByReceiverId(r.value.store, id) == GetMessagesByReceiverId(s, id)
    ensures r.Ok? ==> r.value.store.clients == s.clients && r.value.store.order == s.order
    ensures r.Ok? ==> r.value.response.code == MessageSentToClientResponse
    ensures r.Ok? ==> r.value.response.payloadSize == ClientIdSize + MessageIdSize
    ensures Valid(s) && r.Ok? ==> Valid(r.value.store)
  {
    match ParseSendMessage(q.payload)
    case Err(e) => Err(e)
    case Ok(o) =>
      var m := Deposited(q, o, uuid);
      // server.py:235 packs the 4-byte id with the integer format `I`; the
      // model packs it as the 4-byte string it is.
      var body := FitTo(o.toClient, ClientIdSize) + FitTo(m.id, MessageIdSize);
      Ok(Outcome(InsertMessage(s, m), NewResponse(ServerVersion, MessageSentToClientResponse, |body|, Some(body))))
  }

  // --------------------------------------------------------- waiting messages

  /** The waiting-messages answer for `id` over the list `ms`: the id as a
      16-byte field, then one entry per message. */
  function WaitingResponse(s: Store, id: seq<byte>, ms: seq<Message>): (r: Result<Outcome>)
    ensures r.Ok? <==> forall i :: 0 <= i < |ms| ==> |ms[i].content| < U32Limit
    ensures r.Ok? ==> r.value.store == s
    ensures r.Ok? ==> r.value.response.code == WaitingMessagesReturnedResponse
    ensures r.Ok? ==>
              && r.value.response.payload == Some(FitTo(id, ClientIdSize) + WaitingEntries(ms).value)
              && r.value.response.payloadSize == ClientIdSize + |WaitingEntries(ms).value|
  {
    match WaitingEntries(ms)
    case Err(e) => Err(e)
    case Ok(entries) =>
      var body := FitTo(id, ClientIdSize) + entries;
      Ok(Outcome(s, NewResponse(ServerVersion, WaitingMessagesReturnedResponse, |body|, Some(body))))
  }

  /** `get_waiting_messages`: the requester's id, then (id, type, content
      length, content) for each waiting message in arrival order. Messages
      are not deleted (the TODO at server.py:254). */
  function GetWaitingMessages(s: Store, q: Request): (r: Result<Outcome>)
    ensures Valid(s) ==> r.Ok?
    ensures r.Ok? ==> r.value.store == s
    ensures r.Ok? ==> r.value.response.code == WaitingMessagesReturnedResponse
    ensures r.Ok? ==> r.value.response.payload.Some?
    ensures r.Ok? ==>
              var body := r.value.response.payload.value;
              && r.value.response.payloadSize == |body|
              && |body| >= ClientIdSize
              && body[..ClientIdSize] == FitTo(q.clientId, ClientIdSize)
    ensures Valid(s) ==>
              DecodeWaitingEntries(r.value.response.payload.value[ClientIdSize..])
                == Some(WaitingOf(MailboxOf(s, q.clientId)))
  {
    // db.py:87 answers None for a recipient with no mailbox, and server.py:250
    // then iterates None, which raises; the model reads that as no messages.
    var ms := MailboxOf(s, q.clientId);
    assert Valid(s) ==> WaitingEntries(ms).Ok? && DecodeWaitingEntries(WaitingEntries(ms).value) == Some(WaitingOf(ms)) by {
      if Valid(s) {
        forall i | 0 <= i < |ms| ensures MessageFits(ms[i]) {
          assert ms[i] in ms;
        }
        DecodeWaitingEntriesInverse(ms);
      }
    }
    var r := WaitingResponse(s, q.clientId, ms);
    assert r.Ok? ==> r.value.response.payload.value[ClientIdSize..] == WaitingEntries(ms).value;
    r
  }

  /** server.py:247-255 as written: a recipient with no mailbox entry makes
      the loop iterate `None`, which raises. */
  function GetWaitingMessagesAsWritten(s: Store, q: Request): (r: Result<Outcome>)
    ensures q.clientId !in s.mailboxes ==> r == Err(NotIterable)
    ensures q.clientId in s.mailboxes ==> r == GetWaitingMessages(s, q)
  {
    match GetMessagesByReceiverId(s, q.clientId)
    case None => Err(NotIterable)
    case Some(ms) => WaitingResponse(s, q.clientId, ms)
  }

  /** A client that has never been sent anything gets a general error as
      written, and the intended answer is just its own id. */
  lemma EmptyMailboxAsWrittenFails(s: Store, q: Request)
    requires Valid(s) && q.clientId !in s.mailboxes && |q.clientId| == ClientIdSize
    ensures GetWaitingMessagesAsWritten(s, q) == Err(NotIterable)
    ensures GetWaitingMessages(s, q).Ok?
    ensures GetWaitingMessages(s, q).value.response.payload == Some(q.clientId)
  {
    assert MailboxOf(s, q.clientId) == [];
    assert WaitingEntries([]) == Ok([]);
    var body := FitTo(q.clientId, ClientIdSize) + [];
    assert body == q.clientId;
    assert WaitingResponse(s, q.clientId, []).value.response.payload == Some(body);
  }

  /** A message sent to a recipient comes back, with the same id, type and
      content, as the last entry of the recipient's next waiting-messages
      answer, after everything that was already waiting. */
  lemma SendThenReceive(s: Store, sender: Request, receiver: Request, uuid: seq<byte>)
    requires Valid(s) && |uuid| == UuidSize
    requires SendMessage(s, sender, uuid).Ok?
    requires receiver.clientId == ParseSendMessage(sender.payload).value.toClient
    ensures var s' := SendMessage(s, sender, uuid).value.store;
            var o := ParseSendMessage(sender.payload).value;
            var answer := GetWaitingMessages(s', receiver);
            && answer.Ok?
            && DecodeWaitingEntries(answer.value.response.payload.value[ClientIdSize..])
                 == Some(WaitingOf(MailboxOf(s, o.toClient)) + [Waiting(uuid[..MessageIdSize], o.msgType, o.content)])
  {
    var s' := SendMessage(s, sender, uuid).value.store;
    var o := ParseSendMessage(sender.payload).value;
    var m := Message(uuid[..MessageIdSize], o.toClient, sender.clientId, o.msgType, o.content);
    var before := MailboxOf(s, o.toClient);
    assert MailboxOf(s', o.toClient) == before + [m];
    assert WaitingOf(before + [m]) == WaitingOf(before) + [Waiting(m.id, m.msgType, m.content)];
  }

  // --------------------------------------------------------------- dispatcher

  /** `handle_request` after decoding: each of the five request codes goes
      to its handler; any other code raises. */
  function Dispatch(s: Store, q: Request, uuid: seq<byte>): (r: Result<Outcome>)
    requires |uuid| == UuidSize
    ensures q.code !in RequestCodes ==> r == Err(UnknownCode(q.code))
    ensures r.Ok? ==> q.code in RequestCodes && r.value.response.code == SuccessCode(q.code)
    ensures r.Ok? ==> r.value.response.version == ServerVersion
    ensures r.Ok? ==> GetMessagesToDelete(r.value.response) == None
    ensures r.Ok? ==> r.value.response.payloadSize == |r.value.response.payload.GetOr([])|
    ensures Valid(s) && r.Ok? ==> Valid(r.value.store)
  {
    // The source does not check that the caller is registered.
    if q.code == RegisterRequest then Register(s, q, uuid)
    else if q.code == GetClientsListRequest then ClientsList(s, q)
    else if q.code == GetClientPublicKeyRequest then GetPublicKey(s, q)
    else if q.code == SendClientMessageRequest then SendMessage(s, q, uuid)
    else if q.code == GetWaitingMessagesRequest then GetWaitingMessages(s, q)
    else Err(UnknownCode(q.code))
  }

  /** The routing table: every request code reaches exactly its own handler. */
  lemma DispatchRoutes(s: Store, q: Request, uuid: seq<byte>)
    requires |uuid| == UuidSize
    ensures q.code == RegisterRequest ==> Dispatch(s, q, uuid) == Register(s, q, uuid)
    ensures q.code == GetClientsListRequest ==> Dispatch(s, q, uuid) == ClientsList(s, q)
    ensures q.code == GetClientPublicKeyRequest ==> Dispatch(s, q, uuid) == GetPublicKey(s, q)
    ensures q.code == SendClientMessageRequest ==> Dispatch(s, q, uuid) == SendMessage(s, q, uuid)
    ensures q.code == GetWaitingMessagesRequest ==> Dispatch(s, q, uuid) == GetWaitingMessages(s, q)
  {
  }

  /** `handle_request`: decode the frame in `buf`, then dispatch on its code. */
  function HandleRequest(s: Store, buf: seq<byte>, uuid: seq<byte>): (r: Result<Outcome>)
    requires |uuid| == UuidSize
    ensures |buf| < RequestHeaderSize ==> r == Err(Truncated)
    ensures DecodeRequest(buf).Err? ==> r.Err?
    ensures r.Ok? ==> DecodeRequest(buf).Ok?
    ensures r.Ok? ==> DecodeRequest(buf).value.request.code in RequestCodes
    ensures r.Ok? ==> r.value.response.code == SuccessCode(DecodeRequest(buf).value.request.code)
    ensures Valid(s) && r.Ok? ==> Valid(r.value.store)
  {
    match DecodeRequest(buf)
    case Err(e) => Err(e)
    case Ok(d) => Dispatch(s, d.request, uuid)
  }

  /** A well-formed request frame, followed by anything, is handled exactly
      as its request is dispatched. */
  lemma HandleEncodedRequest(s: Store, q: Request, rest: seq<byte>, uuid: seq<byte>)
    requires WellFormed(q) && |uuid| == UuidSize
    ensures HandleRequest(s, EncodeRequest(q) + rest, uuid) == Dispatch(s, q, uuid)
  {
    DecodeEncodeRequest(q, rest);
  }

  /** The response `read` sends when handling raised. */
  function GeneralErrorResponse(): (r: Response)
    ensures r.code == GeneralError && r.version == ServerVersion
    ensures r.payloadSize == 0 && r.payload.None?
  {
    NewResponse(ServerVersion, GeneralError, 0, None)
  }

  /** `read` (server.py:67-72): handle the request; any failure becomes a
      general-error response with no payload and leaves the store as it was. */
  function Read(s: Store, buf: seq<byte>, uuid: seq<byte>): (r: Outcome)
    requires |uuid| == UuidSize
    ensures HandleRequest(s, buf, uuid).Err? ==> r.store == s && r.response == GeneralErrorResponse()
    ensures HandleRequest(s, buf, uuid).Ok? ==> r == HandleRequest(s, buf, uuid).value
    ensures r.response.code == GeneralError
            || (DecodeRequest(buf).Ok? && DecodeRequest(buf).value.request.code in RequestCodes
                && r.response.code == SuccessCode(DecodeRequest(buf).value.request.code))
    ensures Valid(s) ==> Valid(r.store)
  {
    match HandleRequest(s, buf, uuid)
    case Err(_) => Outcome(s, GeneralErrorResponse())
    case Ok(o) => o
  }

  /** The general-error response packs to exactly the 7-byte header
      (version 1, code GeneralError, size 0). */
  lemma GeneralErrorPacksToHeader()
    ensures Pack(GeneralErrorResponse()).Ok?
    ensures |Pack(GeneralErrorResponse()).value| == ResponseHeaderSize
    ensures UnpackHeader(Pack(GeneralErrorResponse()).value) == Header(ServerVersion, GeneralError, 0)
  {
    PackWithoutPayload(GeneralErrorResponse());
  }

  /** A registration whose name is taken leaves the store unchanged and is
      answered with a general error. */
  lemma DuplicateRegistrationRejected(s: Store, buf: seq<byte>, uuid: seq<byte>)
    requires Valid(s) && |uuid| == UuidSize
    requires DecodeRequest(buf).Ok?
    requires DecodeRequest(buf).value.request.code == RegisterRequest
    requires ParseRegistration(DecodeRequest(buf).value.request.payload).Ok?
    requires NameTaken(s, ParseRegistration(DecodeRequest(buf).value.request.payload).value.name)
    ensures Read(s, buf, uuid).store == s
    ensures Read(s, buf, uuid).response == GeneralErrorResponse()
  {
  }

  /** Registering the same name a second time fails, whatever fresh id it is
      offered, so no second client record with that name is created. */
  lemma RegisterSameNameTwice(s: Store, q: Request, uuid1: seq<byte>, q2: Request, uuid2: seq<byte>)
    requires Valid(s) && |uuid1| == UuidSize && |uuid2| == UuidSize
    requires Register(s, q, uuid1).Ok?
    requires ParseRegistration(q2.payload).Ok?
    requires ParseRegistration(q2.payload).value.name == ParseRegistration(q.payload).value.name
    ensures Register(Register(s, q, uuid1).value.store, q2, uuid2) == Err(DuplicateName)
  {
    var s1 := Register(s, q, uuid1).value.store;
    var name := ParseRegistration(q.payload).value.name;
    assert s1.clients[uuid1].name == name;
    assert NameTaken(s1, name);
  }
}
