# Mailbox server request path, modelled in Dafny

This project models the request path of a store-and-forward mailbox server. Clients register a name and a public key. They list the other registered clients and fetch another client's key. They deposit opaque messages for a recipient and pull the messages waiting for them. The model covers these parts:

- **Wire codec** (`bytes.dfy`, `request.dfy`, `response.dfy`): the 23-byte request header is client id (16), version (u8), code (u16 LE) and payload size (u32 LE), followed by an optional payload. The 7-byte response header is version, code and size, and `pack` appends the payload under Python's `struct` `Ns` truncate-or-pad rule. Bytes are a `byte` newtype; little-endian fields are `ToLE`/`FromLE`.
- **Store** (`db.dfy`): `DBConnection` is two maps. One goes from client id to client, the other from recipient id to messages in arrival order. Python dictionaries iterate in insertion order, so the store also records the order in which client ids were first inserted. `Valid` is the store invariant.
- **Records** (`entities.dfy`): `Client` and `Message`, plus the `Message` constructor's choice between a given id and a fresh one.
- **Payload layouts** (`payloads.dfy`): how each handler cuts its request payload into fields and lays out its response payload. The two variable-length answers (the clients list and the waiting messages) each have a client-side decoder and a lemma that the decoder recovers what the server wrote. The fixed-width answers of the public-key and send-message handlers are stated field by field in those handlers' contracts.
- **Dispatcher** (`server.dfy`): the five handlers and the code dispatch. `Read` is the error-to-response mapping in `read`: any failure becomes a general-error response with size 0 and leaves the store unchanged. Each handler is a pure function from a store and a request to an updated store and a response, or to a `Failure`.
- **Constants** (`sizes.dfy`): the widths from `sizes.py` and the server version.

Where the code and its doc-comments disagree, the model follows the doc-comments and the field widths. A comment in the Dafny marks each such divergence. Where the protocol description and the code disagree on behaviour, the model follows the code:

- registration answers with an empty payload, not the new id;
- no handler checks that the caller is registered;
- `insert_client` overwrites a client with the same id instead of failing;
- waiting messages are not deleted after they are read;
- a recipient with no mailbox entry gets `None` from the store, not an empty list.

The codes module of the server is not part of this model. The numeric request and response codes in `sizes.dfy` (`Codes`) are assumed values. The proofs use only that they are distinct and fit 16 bits.

Randomness is a parameter: `uuid` stands for the 16 bytes of a fresh `uuid.uuid4()`. The model uses these 16 bytes as the client id and their first 4 as a message id. The source stores the `uuid.UUID` object itself as the client id; the consequences are listed under "## Left out". Ids, names, keys and contents are raw byte strings.

## Model

| member | source | states |
|---|---|---|
| Bytes.FromLE | server.py:122-123 | an n-byte little-endian field holds a value below 256^n |
| Bytes.FromLEToLE | server.py:122-123 | unpacking a packed `H`/`I` field gives back the packed integer |
| Bytes.ToLEFromLE | server.py:122-123 | packing an unpacked field gives back the original bytes, so the field codec is a bijection |
| Bytes.ToLE | response.py:29-30 | an integer below 256^width packs into exactly `width` bytes, least significant first; with `FromLE` it forms the round trips below |
| Bytes.FitTo | response.py:29 | the `Ns` format yields exactly n bytes: the string's prefix, then NUL padding |
| Bytes.PySlice | server.py:224-226 | Python slicing clamps both ends, and a slice that ends before it starts is empty |
| Entities.NewMessage | message.py:8-25 | a non-empty id is kept; otherwise the id is 4 fresh bytes; recipient, sender, type and content are the arguments unchanged |
| Db.Empty | db.py:10-15 | a new store satisfies the invariant, has no client under any id, no mailbox for any id, and lists no clients |
| Db.GetClientById | db.py:26-34 | returns a client exactly when the id is stored, and then the stored one, whose own id is the key |
| Db.InsertClient | db.py:17-24 | afterwards the id maps to the inserted client, every other id maps to what it did before, mailboxes are untouched, a new id goes to the end of the insertion order, and the invariant is kept |
| Db.FirstNamed | db.py:42-45 | the search returns the first client, in the order of `ids`, that has the name, or `None` exactly when no listed id holds a client with that name |
| Db.GetClientByName | db.py:36-45 | a returned client is stored, has the name, and is the first such client in insertion order; for a valid store, `None` exactly when no stored client has it |
| Db.FirstNamedAsWritten | db.py:42-44 | the loop that compares each client's name with the client object itself, under Python's `==`, finds no client in any store |
| Db.GetClientByNameAsWritten | db.py:36-45 | the as-written lookup returns `None` for every store and every name |
| Db.NameLookupAsWrittenMisses | db.py:43 | a client just stored is missed by the as-written lookup and found by the intended one |
| Db.GetAllClients | db.py:47-52 | every listed client is stored; in a valid store every stored client is listed, in insertion order |
| Db.InsertMessage | db.py:54-67 | the recipient's list gains the message at its end, every other recipient's list is unchanged, clients are untouched, and the invariant is kept |
| Db.GetMessagesByReceiverId | db.py:79-87 | returns the recipient's list exactly when it has an entry, and `None` otherwise; in a valid store every listed message is addressed to it |
| Requests.DecodeRequest | server.py:113-130 | decoding fails on a short header or a payload shorter than declared; on success the request is well-formed and re-encodes, with the remaining bytes, to the input |
| Requests.DecodeEncodeRequest | server.py:120-128 | decoding an encoded request returns that request and leaves the following bytes |
| Requests.ShortPayloadFails | server.py:125-128 | a header declaring n > 0 bytes followed by fewer than n bytes fails; no truncated payload is returned |
| Responses.NewResponse | response.py:8-15 | a new response carries the given fields and no messages to delete |
| Responses.GetMessagesToDelete | response.py:17-18 | the getter reads exactly the messages-to-delete slot: storing its result back changes nothing |
| Responses.SetMessagesToDelete | response.py:17-21 | the getter returns what was last set and no other field changes |
| Responses.Pack | response.py:23-30 | packing fails exactly when a field overflows its format; otherwise the result is 7 bytes, plus payload-size bytes when the payload is truthy, with a header that unpacks to the three fields and a body that is the fitted payload |
| Responses.PackWithoutPayload | response.py:28-30 | without a payload the packed response is exactly the 7-byte header |
| Responses.PackExactPayload | response.py:29 | a payload of the declared size follows the header unchanged |
| Payloads.ParseRegistration | server.py:149-152 | a registration payload is accepted exactly when it is 255 + 160 bytes, and it splits into a 255-byte name and a 160-byte key |
| Payloads.ParseRegistrationAsWritten | server.py:151-152 | slicing the key from offset 160 accepts only 320-byte payloads |
| Payloads.RegistrationAsWrittenRejectsWellFormed | server.py:152 | every 415-byte name-plus-key payload is rejected as written and split correctly by the intended parser |
| Payloads.ParseSendMessage | server.py:219-228 | a send payload is accepted exactly when its content length equals the declared size; the fields re-encode to the payload |
| Payloads.ParseEncodeOutgoing | server.py:219-228 | the server reads back exactly the recipient, type and content a client encoded |
| Payloads.UnpackU8 | server.py:224 | unpacking `<B` succeeds exactly on a one-byte string and yields that byte |
| Payloads.ParseSendMessageAsWritten | server.py:220-228 | with the field width as slice end, the type slice is always empty, so every send payload is rejected as truncated |
| Payloads.SendAsWrittenRejectsWellFormed | server.py:224-226 | every well-formed send payload is rejected as written and accepted by the intended offsets |
| Payloads.ClientEntry | server.py:184-185 | one entry of a registered client is 271 bytes: its id in the first 16, its name in the rest |
| Payloads.ClientEntries | server.py:183-185 | a list of registered clients takes 16 + 255 bytes per client |
| Payloads.DecodeClientEntriesInverse | server.py:183-185 | a clients list decodes back to each client's id and name, in order |
| Payloads.WaitingEntry | server.py:251-252 | one entry is 9 bytes plus the content: the id as a 4-byte field, the type, a u32 that reads back as the content length, then the content |
| Payloads.WaitingEntries | server.py:250-252 | building the entries fails exactly when some content is too long for the u32 length field |
| Payloads.DecodeWaitingEntriesInverse | server.py:250-252 | the waiting-message entries decode back to each message's id, type and content, in mailbox order |
| Payloads.WaitingEntriesAppend | server.py:250-252 | one more message in the mailbox adds exactly its entry at the end |
| Server.Register | server.py:143-166 | for a valid store, registration fails with DuplicateName exactly when the name is taken; on success the fresh id maps to the new client with LastSeen unset, other ids and all mailboxes are unchanged, the invariant is kept, and the response is REGISTRATION_SUCCESSFUL with size 0 and no payload |
| Server.RegisterAddsOneClient | server.py:158-163 | with an unused fresh id, exactly one client is added, at the end of the insertion order, and names stay unique |
| Server.Without | server.py:179 | the result holds exactly the clients of the input whose id is not the excluded one, in the input's order (any two of them appear in the input in the same relative order), is no longer than the input, and is the input when no client has that id |
| Server.ListedClients | server.py:174-179 | the listed clients are stored and are not the requester; they keep the order of `get_all_clients`, which is insertion order for a valid store; in a valid store every other client is listed, and no id is listed twice |
| Server.ClientsList | server.py:168-188 | the store is unchanged, the code is CLIENTS_LIST_RETURNED, and the declared size equals the payload length |
| Server.ClientsListExcludesRequester | server.py:177-185 | the decoded list never names the requester, and names only stored clients under their own names |
| Server.ClientsListNamesOthers | server.py:177-185 | the decoded list names every registered client other than the requester |
| Server.GetPublicKey | server.py:190-211 | the lookup succeeds exactly when the payload starts with a stored id; an unknown id fails with no response; on success the payload is the id and then the stored 160-byte key, with size 176 |
| Server.Deposited | server.py:230-231 | the deposited message has a fresh 4-byte id, the requester as sender, and the parsed recipient, type and content |
| Server.SendMessage | server.py:213-238 | success exactly when the payload parses; the recipient's list gains exactly the new message at its end; other lists and all clients are unchanged; the answer is the recipient id then the message id, size 20 |
| Server.WaitingResponse | server.py:248-255 | the answer fails exactly when some content is too long for the u32 field; otherwise the store is unchanged, the code is WAITING_MESSAGES_RETURNED, and the payload is the 16-byte id followed by the entries, with its length as the declared size |
| Server.GetWaitingMessages | server.py:240-255 | for a valid store, it always succeeds and leaves the store unchanged; the payload starts with the requester id; its size is its length; the rest decodes to the mailbox's messages in order |
| Server.GetWaitingMessagesAsWritten | server.py:247-250 | a requester with no mailbox entry makes the as-written handler fail |
| Server.EmptyMailboxAsWrittenFails | db.py:85-87 | a client with no mailbox gets a failure as written, and its own id as the intended answer |
| Server.SendThenReceive | server.py:247-252 | a sent message comes back with the same id, type and content, after the messages already waiting |
| Server.Dispatch | server.py:91-111 | an unknown code fails with UnknownCode; a success means the code is one of the five and its response carries that handler's success code, the server version, and no messages to delete; the invariant is kept |
| Server.DispatchRoutes | server.py:94-109 | each of the five request codes reaches its own handler |
| Server.HandleRequest | server.py:83-111 | a frame shorter than the 23-byte header fails; a decode failure fails the request; a success means the decoded code is one of the five and the response carries its success code; the store invariant is kept |
| Server.HandleEncodedRequest | server.py:86-111 | a well-formed request frame, whatever follows it, is handled exactly as its request is dispatched |
| Server.Read | server.py:67-72 | any failure yields the general-error response and leaves the store unchanged; otherwise the response carries the success code of the request's code; the store invariant is kept |
| Server.GeneralErrorResponse | server.py:72 | the error response has the server version, the GENERAL_ERROR code, size 0 and no payload |
| Server.GeneralErrorPacksToHeader | server.py:72 | the error response packs to exactly the 7-byte header (version 1, GENERAL_ERROR, size 0) |
| Server.DuplicateRegistrationRejected | server.py:154-156 | registering a taken name leaves the store unchanged and answers with a general error |
| Server.RegisterSameNameTwice | server.py:154-156 | after a name is registered, registering it again fails with DuplicateName whatever fresh id is offered |

## Left out

- Socket setup, the `selectors` loop, `accept`, `connection.send` and close (server.py:42-81, except the error mapping at 67-72). These are I/O and event scheduling. `read` also sends the `Response` object without packing it; the model has `Pack` but does not join it to `Read`.
- Short `recv` reads and the empty read on disconnect are I/O. Decoding works over a complete buffer, so a frame cut short is a `Truncated` failure.
- `read_port` and the port file (server.py:132-141). These are configuration I/O.
- server.py:38 passes a database name to `DBConnection`, whose constructor (db.py:10) takes no argument, so the server's own constructor raises. The model starts from `Empty`, the store that constructor describes.
- `uuid.uuid4()` (server.py:159, message.py:21). The fresh bytes are a parameter.
- Client id types. server.py:159 stores the `uuid.UUID` object as the client id, while request ids are `str` (server.py:120) and public-key targets are `bytes` (server.py:197). In Python none of these compare equal. As written, the filter at server.py:179 never excludes the requester and the lookup at server.py:200 never finds a registered client. The model gives all three the same 16-byte representation, so it describes the lookups as intended.
- utf-8 `encode`/`decode` of ids, names, keys and contents (server.py:120, 185, 208, 248, 252). These are string conversions; the model uses raw bytes.
- `struct.unpack` returns a tuple, and the source omits the `[0]` at server.py:151, 152, 222, 224, 226 and 228. The model uses the unpacked value.
- `print` logging and `Response.__str__` (response.py:32-34). They have no behaviour to verify.
- Concurrency. The server is single-threaded.
- Behaviour the code does not have, so the model does not add it: a registered-caller check, deleting messages after delivery, an id in the registration response, and rejecting a duplicate client id.
- Server.RegisterAddsOneClient: "exactly one client is added" is proved only for a fresh id not already stored. The source relies on `uuid4` never colliding.
- Db.GetClientByName: "`None` exactly when no stored client has the name" is proved for stores satisfying `Valid`, whose insertion order lists every stored id. `Valid` is what `Empty` establishes and every operation keeps.
- Db.GetAllClients: completeness and order are proved for stores satisfying `Valid`, for the same reason.
- Server.GetWaitingMessages: "always succeeds" and the decoding of the entries are proved for stores satisfying `Valid`. In other stores, a message content longer than a u32 makes `struct.pack` raise.
- Server.ListedClients: completeness, insertion order and "no id twice" are proved for stores satisfying `Valid`; in other stores the order is only that of `GetAllClients`.

## Findings

| source | as written | input that shows it | evidently intended | confidence | as-written member | corrected member |
|---|---|---|---|---|---|---|
| server.py:152 | the public key is sliced from offset `PUBLIC_KEY_SIZE` (160) | any payload of a 255-byte name followed by a 160-byte key: `payload[160:]` holds 255 bytes, so unpacking `160s` raises | slice the key from offset `NAME_SIZE` (255) | high, not executed | Payloads.ParseRegistrationAsWritten | Payloads.ParseRegistration |
| server.py:224-226 | the type and size slices end at the field width (`payload[16:1]`, `payload[17:4]`) | any send payload: `payload[16:1]` is empty, so unpacking `B` raises | end each slice at position + width | high, not executed | Payloads.ParseSendMessageAsWritten | Payloads.ParseSendMessage |
| db.py:43 | the loop compares the name with the client object (`client.get_name() == client`) | a store holding one client named `n`, searched for `n`: returns `None` | compare `client.get_name() == client_name` | high, not executed | Db.FirstNamedAsWritten | Db.GetClientByName |
| db.py:87 | a recipient with no mailbox entry gets `None`, and server.py:250 iterates it | a registered client that was never sent a message asks for its waiting messages: iterating `None` raises, so it gets a general error | an empty list of waiting messages, so the answer is the requester id alone | high, not executed | Server.GetWaitingMessagesAsWritten | Server.GetWaitingMessages |
