/** The earlier chat protocol over the hand-written websocket transport: a process-wide registry of
    peers by id, each with its write channel and the flag that records that the channel was
    closed, the notifications and requests that travel between them, and the opening handshake
    checks. Users appear in messages as "name,id" strings. The registry mutex makes every
    operation a step of its own; a channel send appends to the peer's queue. */
module ChatProto {
  import opened Common
  import Domain
  import Maps
  import Sorting
  import Strings

  datatype Message = Message(typ: Domain.Command, content: string, sender: string, recipient: string)

  /** A registered peer: its name and id, what has been sent on its write channel, and
      isWriteChannelClosed. */
  datatype Peer = Peer(name: string, id: string, queue: seq<Message>, closed: bool)

  function Pushed(p: Peer, msg: Message): Peer
  {
    p.(queue := p.queue + [msg])
  }

  /** How a peer is written in messages and in the user list. */
  function Entry(p: Peer): string
  {
    p.name + "," + p.id
  }

  /** The entries of the peers under the given ids, in that order. */
  function Entries(m: map<string, Peer>, ids: seq<string>): (r: seq<string>)
    requires forall i :: 0 <= i < |ids| ==> ids[i] in m
    ensures |r| == |ids|
  {
    if |ids| == 0 then [] else Entries(m, ids[..|ids| - 1]) + [Entry(m[ids[|ids| - 1]])]
  }

  /** `ids` lists every registered id except `cid`, each once. */
  ghost predicate Enumerates(ids: seq<string>, m: map<string, Peer>, cid: string)
  {
    && Maps.Distinct(ids)
    && forall k :: k in ids <==> k in m && k != cid
  }

  /** The user list for `cid`: the entries of all other peers (in some enumeration `ids`), sorted. */
  ghost predicate Roster(entries: seq<string>, ids: seq<string>, m: map<string, Peer>, cid: string)
  {
    && Enumerates(ids, m, cid)
    && multiset(entries) == multiset(Entries(m, ids))
    && Sorting.SortedBy(entries, Strings.LessEq)
  }

  /** Sent to every other open peer when `name,id` connects. */
  function ConnectedNote(name: string, id: string): Message
  {
    Message(Domain.UserConnected, name + "," + id, "", "")
  }

  /** Sent to every open peer when `id` leaves. */
  function DisconnectedNote(id: string): Message
  {
    Message(Domain.UserDisconnected, id, "", "")
  }

  /** verifyClient: the peer registered under the id part of a "name,id" sender string, or nothing
      when the string does not split into exactly two parts or the id is not registered. */
  function VerifyClient(m: map<string, Peer>, user: string): (r: Option<Peer>)
    ensures r.Some? <==> |Strings.Split(user, ',')| == 2 && Strings.Split(user, ',')[1] in m
    ensures r.Some? ==> r == Some(m[Strings.Split(user, ',')[1]])
  {
    var details := Strings.Split(user, ',');
    if |details| != 2 then None
    else if details[1] in m then Some(m[details[1]])
    else None
  }

  /** A sender string built from a registered peer's name and id (neither holding a comma) verifies
      to that peer. */
  lemma VerifyEntry(m: map<string, Peer>, name: string, id: string)
    requires ',' !in name && ',' !in id && id in m
    ensures VerifyClient(m, name + "," + id) == Some(m[id])
  {
    Strings.SplitAtSep(name, ',', id);
    Strings.SplitNoSep(id, ',');
    assert name + "," + id == name + [','] + id;
  }

  /** A sender string without a comma, or with more than one, never verifies. */
  lemma VerifyNeedsOneComma(m: map<string, Peer>, user: string)
    requires Strings.Count(user, ',') != 1
    ensures VerifyClient(m, user) == None
  {
  }

  /** The result of ClientQuit: a panic (None) unless exactly one peer, the given one, is
      registered; otherwise that peer's channel is marked closed, once. */
  function Quit(m: map<string, Peer>, id: string): Option<map<string, Peer>>
  {
    if |m| != 1 || id !in m then None
    else if m[id].closed then Some(m)
    else Some(m[id := m[id].(closed := true)])
  }

  /** The result of ClientSendMsg: a panic (None) unless exactly one peer, the given one, is
      registered; the message is queued on an open channel and dropped on a closed one. */
  function SendOwn(m: map<string, Peer>, msg: Message, id: string): (r: Option<map<string, Peer>>)
    ensures r.Some? <==> |m| == 1 && id in m
    ensures r.Some? ==> r.value.Keys == m.Keys
    ensures r.Some? ==> r.value[id] == m[id].(queue := m[id].queue + if m[id].closed then [] else [msg])
  {
    if |m| != 1 || id !in m then None
    else if m[id].closed then Some(m)
    else Some(m[id := Pushed(m[id], msg)])
  }

  /** ClientQuit is idempotent: a second call finds the flag set and changes nothing. */
  lemma QuitTwice(m: map<string, Peer>, id: string)
    requires Quit(m, id).Some?
    ensures Quit(Quit(m, id).value, id) == Quit(m, id)
  {
    var q := Quit(m, id).value;
    assert q.Keys == m.Keys;
  }

  /** After ClientQuit, ClientSendMsg drops every message. */
  lemma SendAfterQuit(m: map<string, Peer>, id: string, msg: Message)
    requires Quit(m, id).Some?
    ensures SendOwn(Quit(m, id).value, msg, id) == Quit(m, id)
  {
    var q := Quit(m, id).value;
    assert q.Keys == m.Keys;
  }

  /** The accept value both ends derive from a key (section 4.2.2 of RFC 6455): the key with the
      fixed GUID appended, hashed with SHA-1 and base64-encoded. The hash and encoding are the
      parameter `digest`. */
  const SharedGuid := "258EAFA5-E914-47DA-95CA-C5AB0DC85B11"

  function ComputeHandshakeKey(uid: string, digest: string -> string): (k: string)
    ensures k == digest(uid + "258EAFA5-E914-47DA-95CA-C5AB0DC85B11")
  {
    digest(uid + SharedGuid)
  }

  /** What the server answers to an upgrade request. */
  datatype ServerReply =
    | BadRequest(status: int)
    | SwitchingProtocols(status: int, accept: string, connection: string, upgrade: string)

  /** The handshake check of StartChatServer: a Sec-WebSocket-Key that is empty or blank after
      trimming is refused with 400; otherwise the answer is 101 with the accept value derived
      from the trimmed key. */
  function ServerHandshake(keyHeader: string, digest: string -> string): (r: ServerReply)
    ensures r.BadRequest? <==> forall i :: 0 <= i < |keyHeader| ==> Strings.IsSpace(keyHeader[i])
    ensures r.BadRequest? ==> r.status == 400
    ensures r.SwitchingProtocols? ==>
      r == SwitchingProtocols(101, ComputeHandshakeKey(Strings.TrimSpace(keyHeader), digest), "Upgrade", "websocket")
  {
    var key := Strings.TrimSpace(keyHeader);
    Strings.TrimSpaceEmpty(keyHeader);
    if key == "" then BadRequest(400)
    else SwitchingProtocols(101, ComputeHandshakeKey(key, digest), "Upgrade", "websocket")
  }

  /** The handshake response as the client reads it. */
  datatype Response = Response(status: int, upgrade: string, connection: string, accept: string)

  datatype HandshakeError = NotSwitching | NotUpgrade | BadAccept

  /** The checks of ConnectToChatServer, in order: status 101, then the Upgrade and Connection
      headers, then the accept value against the key the client sent. */
  function ClientCheck(resp: Response, sentKey: string, digest: string -> string): (r: Option<HandshakeError>)
    ensures r == None <==>
      && resp.status == 101
      && resp.upgrade == "websocket" && resp.connection == "Upgrade"
      && resp.accept == ComputeHandshakeKey(sentKey, digest)
    ensures r == Some(NotSwitching) <==> resp.status != 101
  {
    if resp.status != 101 then Some(NotSwitching)
    else if resp.upgrade != "websocket" || resp.connection != "Upgrade" then Some(NotUpgrade)
    else if resp.accept != ComputeHandshakeKey(sentKey, digest) then Some(BadAccept)
    else None
  }

  /** The response the client reads for a server reply. */
  function Received(reply: ServerReply): Response
  {
    match reply
    case BadRequest(status) => Response(status, "", "", "")
    case SwitchingProtocols(status, accept, connection, upgrade) => Response(status, upgrade, connection, accept)
  }

  /** The two ends agree: a key that is not empty and has no surrounding white space (as the
      base64 nonce the client sends) is accepted by the server, and the client accepts the
      server's answer. */
  lemma HandshakeAgrees(key: string, digest: string -> string)
    requires key != "" && Strings.Trimmed(key)
    ensures ServerHandshake(key, digest).SwitchingProtocols?
    ensures ClientCheck(Received(ServerHandshake(key, digest)), key, digest) == None
  {
    assert !Strings.IsSpace(key[0]);
  }

  class Registry {
    var clients: map<string, Peer>

    /** Every peer is registered under its own id. */
    ghost predicate Valid()
      reads this
    {
      forall k :: k in clients ==> clients[k].id == k
    }

    constructor()
      ensures clients == map[]
      ensures Valid()
    {
      clients := map[];
    }

    /** The registration at the end of both handshakes: a fresh peer with an open, empty channel,
        replacing any earlier one with the same id. */
    method Register(name: string, id: string)
      modifies this
      ensures clients == old(clients)[id := Peer(name, id, [], false)]
      ensures old(Valid()) ==> Valid()
    {
      clients := clients[id := Peer(name, id, [], false)];
    }

    /** notifyConnect: USER_CONNECTED with "name,id" to every other peer whose channel is open. */
    method NotifyConnect(name: string, id: string)
      modifies this
      ensures clients.Keys == old(clients).Keys
      ensures forall k :: k in clients ==>
        clients[k] == if k != id && !old(clients)[k].closed then Pushed(old(clients)[k], ConnectedNote(name, id)) else old(clients)[k]
      ensures old(Valid()) ==> Valid()
    {
      Announce({id}, ConnectedNote(name, id));
    }

    /** The end of runChatProtocol: the peer is deleted, then notifyDisconnect sends
        USER_DISCONNECTED with its id to every remaining peer whose channel is open. */
    method Teardown(id: string)
      modifies this
      ensures clients.Keys == old(clients).Keys - {id}
      ensures forall k :: k in clients ==>
        clients[k] == if !old(clients)[k].closed then Pushed(old(clients)[k], DisconnectedNote(id)) else old(clients)[k]
      ensures old(Valid()) ==> Valid()
    {
      clients := map k | k in clients && k != id :: clients[k];
      Announce({}, DisconnectedNote(id));
    }

    /** The fan-out loop of notifyConnect and notifyDisconnect, in map order: every open peer not
        skipped gets the note; closed ones are passed over. */
    method Announce(skip: set<string>, note: Message)
      modifies this
      ensures clients.Keys == old(clients).Keys
      ensures forall k :: k in clients ==>
        clients[k] == if k !in skip && !old(clients)[k].closed then Pushed(old(clients)[k], note) else old(clients)[k]
    {
      var order := Maps.RangeOrder(clients);
      var i := 0;
      while i < |order|
        invariant 0 <= i <= |order|
        invariant clients.Keys == old(clients).Keys
        invariant forall k :: k in clients ==>
          clients[k] == if k !in skip && !old(clients)[k].closed && k in order[..i] then Pushed(old(clients)[k], note) else old(clients)[k]
      {
        var k := order[i];
        assert order[..i + 1] == order[..i] + [k];
        if k !in skip && !clients[k].closed {
          clients := clients[k := Pushed(clients[k], note)];
        }
        i := i + 1;
      }
      assert order[..i] == order;
    }

    /** The entries of every peer but `cid`, sorted, with the enumeration they were collected in. */
    method OtherEntries(cid: string) returns (entries: seq<string>, ghost ids: seq<string>)
      requires Valid()
      ensures Roster(entries, ids, clients, cid)
    {
      var order := Maps.RangeOrder(clients);
      var found: seq<string> := [];
      ids := [];
      var i := 0;
      while i < |order|
        invariant 0 <= i <= |order|
        invariant forall j :: 0 <= j < |ids| ==> ids[j] in clients
        invariant Maps.Distinct(ids)
        invariant forall k :: k in ids <==> k in clients && k != cid && k in order[..i]
        invariant found == Entries(clients, ids)
      {
        var k := order[i];
        assert order[..i + 1] == order[..i] + [k];
        assert k !in order[..i];
        var v := clients[k];
        if v.id != cid {
          ghost var before := ids;
          found := found + [Entry(v)];
          ids := ids + [k];
          assert ids[..|ids| - 1] == before;
        }
        i := i + 1;
      }
      assert order[..i] == order;
      LessEqTotal(found);
      entries := Sorting.SortBy(found, Strings.LessEq);
    }

    /** GetUsers: for a sender that verifies, a GET_USERS_RESPONSE addressed back with the sender
        string, whose content is the sorted entries of every other peer joined with newlines; it is
        queued to the sender only if its channel is open. Otherwise nothing happens. */
    method GetUsers(msg: Message) returns (ghost entries: seq<string>, ghost ids: seq<string>)
      requires Valid()
      modifies this
      ensures Valid()
      ensures VerifyClient(old(clients), msg.sender).None? ==> clients == old(clients)
      ensures VerifyClient(old(clients), msg.sender).Some? ==>
        var c := VerifyClient(old(clients), msg.sender).value;
        var resp := Message(Domain.GetUsersResponse, Strings.Join(entries, "\n"), msg.sender, "");
        && Roster(entries, ids, old(clients), c.id)
        && clients == if c.closed then old(clients) else old(clients)[c.id := Pushed(c, resp)]
    {
      var found := VerifyClient(clients, msg.sender);
      if found.None? {
        return [], [];
      }
      var c := found.value;
      var sorted;
      sorted, ids := OtherEntries(c.id);
      entries := sorted;
      var resp := Message(Domain.GetUsersResponse, Strings.Join(sorted, "\n"), msg.sender, "");
      if !c.closed {
        clients := clients[c.id := Pushed(c, resp)];
      }
    }

    /** SendMessage: the message is queued, unchanged, to the recipient when sender and recipient
        both verify and the recipient's channel is open; otherwise nothing changes. */
    method SendMessage(msg: Message)
      requires Valid()
      modifies this
      ensures Valid()
      ensures
        var s := VerifyClient(old(clients), msg.sender);
        var r := VerifyClient(old(clients), msg.recipient);
        clients == if s.Some? && r.Some? && !r.value.closed then old(clients)[r.value.id := Pushed(r.value, msg)] else old(clients)
    {
      var s := VerifyClient(clients, msg.sender);
      if s.None? {
        return;
      }
      var r := VerifyClient(clients, msg.recipient);
      if r.None? {
        return;
      }
      if !r.value.closed {
        clients := clients[r.value.id := Pushed(r.value, msg)];
      }
    }

    /** ClientQuit. Returns whether it panicked. */
    method ClientQuit(id: string) returns (panicked: bool)
      modifies this
      ensures panicked <==> Quit(old(clients), id).None?
      ensures !panicked ==> clients == Quit(old(clients), id).value
      ensures panicked ==> clients == old(clients)
    {
      if |clients| != 1 || id !in clients {
        return true;
      }
      panicked := false;
      var c := clients[id];
      if !c.closed {
        clients := clients[id := c.(closed := true)];
      }
    }

    /** ClientSendMsg. Returns whether it panicked. */
    method ClientSendMsg(msg: Message, id: string) returns (panicked: bool)
      modifies this
      ensures panicked <==> SendOwn(old(clients), msg, id).None?
      ensures !panicked ==> clients == SendOwn(old(clients), msg, id).value
      ensures panicked ==> clients == old(clients)
    {
      if |clients| != 1 || id !in clients {
        return true;
      }
      panicked := false;
      var c := clients[id];
      if !c.closed {
        clients := clients[id := Pushed(c, msg)];
      }
    }
  }

  lemma LessEqTotal(s: seq<string>)
    ensures Sorting.TotalPreorderOn(s, Strings.LessEq)
  {
    forall a, b, c | a in s && b in s && c in s
      ensures Strings.LessEq(a, b) || Strings.LessEq(b, a)
      ensures Strings.LessEq(a, b) && Strings.LessEq(b, c) ==> Strings.LessEq(a, c)
    {
      Strings.LessEqTotalOrder(a, b, c);
    }
  }
}
