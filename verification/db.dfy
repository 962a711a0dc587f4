/** The in-memory registry and mailbox store (db.py's `DBConnection`): a map
    from client id to client and a map from recipient id to the messages
    waiting for it, in arrival order. Python dictionaries iterate in
    insertion order, and the server depends on that order when it lists
    clients and searches them by name, so the store also keeps the client
    ids in the order they were first inserted. */
module Db {
  import opened Bytes
  import opened Wrappers
  import opened Entities

  datatype Store = Store(
    clients: map<seq<byte>, Client>,
    order: seq<seq<byte>>,
    mailboxes: map<seq<byte>, seq<Message>>)

  predicate Distinct(ids: seq<seq<byte>>) {
    forall i, j :: 0 <= i < j < |ids| ==> ids[i] != ids[j]
  }

  /** The store invariant: `order` lists each client id exactly once, every
      client is filed under its own id and has the registration widths, and
      every message is filed under its recipient and has the send widths. */
  ghost predicate Valid(s: Store) {
    && Distinct(s.order)
    && (forall id :: id in s.clients <==> id in s.order)
    && (forall id :: id in s.clients ==> s.clients[id].id == id && ClientFits(s.clients[id]))
    && (forall to :: to in s.mailboxes ==>
          forall m :: m in s.mailboxes[to] ==> m.toClient == to && MessageFits(m))
  }

  /** No two registered clients share a name. */
  ghost predicate UniqueNames(s: Store) {
    forall a, b :: a in s.clients && b in s.clients && a != b ==> s.clients[a].name != s.clients[b].name
  }

  /** `get_client_by_id`: the client stored under `id`, or `None`. */
  function GetClientById(s: Store, id: seq<byte>): (r: Option<Client>)
    ensures r.Some? <==> id in s.clients
    ensures r.Some? ==> r.value == s.clients[id]
    ensures Valid(s) && r.Some? ==> r.value.id == id && ClientFits(r.value)
  {
    if id in s.clients then Some(s.clients[id]) else None
  }

  /** `get_messages_by_receiver_id`: the recipient's messages in arrival
      order, or `None` when nothing was ever sent to it (db.py:87). */
  function GetMessagesByReceiverId(s: Store, id: seq<byte>): (r: Option<seq<Message>>)
    ensures r.Some? <==> id in s.mailboxes
    ensures r.Some? ==> r.value == s.mailboxes[id]
    ensures Valid(s) && r.Some? ==> forall m :: m in r.value ==> m.toClient == id && MessageFits(m)
  {
    if id in s.mailboxes then Some(s.mailboxes[id]) else None
  }

  /** The recipient's waiting messages, with "no entry" read as "none waiting". */
  function MailboxOf(s: Store, id: seq<byte>): seq<Message> {
    GetMessagesByReceiverId(s, id).GetOr([])
  }

  /** The constructor: a new store has no clients and no messages. */
  function Empty(): (s: Store)
    ensures Valid(s) && UniqueNames(s)
    ensures forall id :: GetClientById(s, id) == None
    ensures forall id :: GetMessagesByReceiverId(s, id) == None
    ensures GetAllClients(s) == []
  {
    Store(map[], [], map[])
  }

  /** `insert_client`: file the client under its id. Assigning a Python
      dictionary key that already exists replaces the value and keeps the
      key's original position. */
  function InsertClient(s: Store, c: Client): (r: Store)
    ensures GetClientById(r, c.id) == Some(c)
    ensures forall id :: id != c.id ==> GetClientById(r, id) == GetClientById(s, id)
    ensures r.order == (if c.id in s.clients then s.order else s.order + [c.id])
    ensures r.mailboxes == s.mailboxes
    ensures Valid(s) && ClientFits(c) ==> Valid(r)
  {
    // db.py:22 tests `client is not Client`, which is true of every client
    // instance, so the source raises on every insert; the model performs the
    // insertion its doc-comment describes.
    var order := if c.id in s.clients then s.order else s.order + [c.id];
    var r := Store(s.clients[c.id := c], order, s.mailboxes);
    assert Valid(s) && ClientFits(c) ==> Valid(r) by {
      if Valid(s) && ClientFits(c) && c.id !in s.clients {
        assert forall i :: 0 <= i < |s.order| ==> s.order[i] in s.clients;
      }
    }
    r
  }

  /** Position `i` of `ids` holds the first client, in insertion order, whose
      name is `name`: no earlier listed client has that name. */
  ghost predicate NamedFirstAt(clients: map<seq<byte>, Client>, ids: seq<seq<byte>>, name: seq<byte>, i: int) {
    && 0 <= i < |ids|
    && ids[i] in clients
    && clients[ids[i]].name == name
    && forall j :: 0 <= j < i && ids[j] in clients ==> clients[ids[j]].name != name
  }

  /** The first client in insertion order among `ids` whose name is `name`. */
  function FirstNamed(clients: map<seq<byte>, Client>, ids: seq<seq<byte>>, name: seq<byte>): (r: Option<Client>)
    ensures r.Some? ==> r.value.name == name && r.value in clients.Values
    ensures r.Some? ==> exists i :: NamedFirstAt(clients, ids, name, i) && r.value == clients[ids[i]]
    ensures r.None? <==> forall i :: 0 <= i < |ids| && ids[i] in clients ==> clients[ids[i]].name != name
    decreases |ids|
  {
    if |ids| == 0 then None
    else if ids[0] in clients && clients[ids[0]].name == name then
      assert NamedFirstAt(clients, ids, name, 0);
      Some(clients[ids[0]])
    else
      var r := FirstNamed(clients, ids[1..], name);
      assert forall i :: 1 <= i < |ids| ==> ids[i] == ids[1..][i - 1];
      assert r.Some? ==> exists i :: NamedFirstAt(clients, ids, name, i) && r.value == clients[ids[i]] by {
        if r.Some? {
          var k :| NamedFirstAt(clients, ids[1..], name, k) && r.value == clients[ids[1..][k]];
          assert NamedFirstAt(clients, ids, name, k + 1);
        }
      }
      r
  }

  /** `get_client_by_name`: the first stored client, in insertion order, with
      that name, or `None` when no stored client has it. */
  function GetClientByName(s: Store, name: seq<byte>): (r: Option<Client>)
    ensures r.Some? ==> r.value.name == name && r.value in s.clients.Values
    ensures r.Some? ==> exists i :: NamedFirstAt(s.clients, s.order, name, i) && r.value == s.clients[s.order[i]]
    ensures Valid(s) ==> (r.None? <==> forall id :: id in s.clients ==> s.clients[id].name != name)
  {
    // db.py:43 compares the name with the client object itself, which never
    // holds, so the source always answers None; the model compares names.
    var r := FirstNamed(s.clients, s.order, name);
    assert Valid(s) ==> forall id :: id in s.clients ==> exists i :: 0 <= i < |s.order| && s.order[i] == id;
    r
  }

  /** The Python values db.py:43 compares: a byte string (a client's name) or
      a `Client` instance. */
  datatype PyValue = PyBytes(bytes: seq<byte>) | PyClient(client: Client)

  /** Python's `==` on these values. Byte strings compare by contents. `Client`
      defines no `__eq__`, so a client equals only itself, and a client never
      equals a byte string. */
  predicate PyEquals(a: PyValue, b: PyValue) {
    match (a, b)
    case (PyBytes(x), PyBytes(y)) => x == y
    case (PyClient(x), PyClient(y)) => x == y
    case _ => false
  }

  /** The loop of db.py:42-44 as written over the clients filed under `ids`:
      each client's name is compared with the client itself, and the argument
      name is never consulted. */
  function FirstNamedAsWritten(clients: map<seq<byte>, Client>, ids: seq<seq<byte>>): (r: Option<Client>)
    ensures r.None?
    decreases |ids|
  {
    if |ids| == 0 then None
    else
      var client := if ids[0] in clients then Some(clients[ids[0]]) else None;
      if client.Some? && PyEquals(PyBytes(client.value.name), PyClient(client.value)) then client
      else FirstNamedAsWritten(clients, ids[1..])
  }

  /** db.py:36-45 as written: the clients are scanned in insertion order, and
      since no comparison ever holds, no client is ever found. */
  function GetClientByNameAsWritten(s: Store, name: seq<byte>): (r: Option<Client>)
    ensures r.None?
  {
    FirstNamedAsWritten(s.clients, s.order)
  }

  /** A stored client is never found by its name as written; the intended
      lookup finds it. */
  lemma NameLookupAsWrittenMisses(c: Client)
    ensures GetClientByNameAsWritten(InsertClient(Empty(), c), c.name) == None
    ensures GetClientByName(InsertClient(Empty(), c), c.name) == Some(c)
  {
    var s := InsertClient(Empty(), c);
    assert s.order == [c.id];
    assert s.clients[c.id] == c;
  }

  /** The clients filed under `ids`, in that order, skipping absent ids. */
  function ClientsIn(clients: map<seq<byte>, Client>, ids: seq<seq<byte>>): (r: seq<Client>)
    ensures forall c :: c in r ==> c in clients.Values
    ensures forall i :: 0 <= i < |ids| && ids[i] in clients ==> clients[ids[i]] in r
    ensures (forall i :: 0 <= i < |ids| ==> ids[i] in clients) ==>
              |r| == |ids| && forall i :: 0 <= i < |ids| ==> r[i] == clients[ids[i]]
    decreases |ids|
  {
    if |ids| == 0 then []
    else
      var rest := ClientsIn(clients, ids[1..]);
      assert forall i :: 1 <= i < |ids| ==> ids[i] == ids[1..][i - 1];
      if ids[0] in clients then [clients[ids[0]]] + rest else rest
  }

  /** `get_all_clients`: every stored client, in registration order, and
      nothing else. */
  function GetAllClients(s: Store): (r: seq<Client>)
    ensures forall c :: c in r ==> c in s.clients.Values
    ensures Valid(s) ==> forall id :: id in s.clients ==> s.clients[id] in r
    ensures Valid(s) ==> |r| == |s.order| && forall i :: 0 <= i < |r| ==> r[i] == s.clients[s.order[i]]
  {
    // db.py:52 returns the dictionary itself, whose iteration yields ids, not
    // clients; the model returns the clients its doc-comment promises.
    var r := ClientsIn(s.clients, s.order);
    assert Valid(s) ==> forall id :: id in s.clients ==> exists i :: 0 <= i < |s.order| && s.order[i] == id;
    r
  }

  /** `insert_message`: append the message to its recipient's list. */
  function InsertMessage(s: Store, m: Message): (r: Store)
    ensures GetMessagesByReceiverId(r, m.toClient) == Some(MailboxOf(s, m.toClient) + [m])
    ensures forall id :: id != m.toClient ==> GetMessagesByReceiverId(r, id) == GetMessagesByReceiverId(s, id)
    ensures r.clients == s.clients && r.order == s.order
    ensures Valid(s) && MessageFits(m) ==> Valid(r)
  {
    // db.py:59 tests `message is not Message`, which always holds, and
    // db.py:62 and db.py:67 key the mailbox by the bound method
    // `get_to_client` instead of its result; the model appends to the
    // recipient's list as the doc-comment describes.
    Store(s.clients, s.order, s.mailboxes[m.toClient := MailboxOf(s, m.toClient) + [m]])
  }
}
