/** The chat server's hub: the registered clients by user id, each with the queue of messages
    waiting to be written to its websocket. The hub's mutex makes every operation a step of its
    own, so the model runs them one after the other; a channel send appends to the queue. */
module Server {
  import opened Common
  import opened Domain
  import Maps
  import Sorting
  import Strings

  /** A connected user and what has been sent on its write channel. */
  datatype Client = Client(user: User, queue: seq<Message>)

  datatype HubError = SenderNotFound

  /** The client with one more message on its channel. */
  function Pushed(c: Client, msg: Message): Client
  {
    c.(queue := c.queue + [msg])
  }

  function ConnectedNote(u: User): Message
  {
    Message(UserConnected, u, NoUser, "", 0)
  }

  function DisconnectedNote(u: User): Message
  {
    Message(UserDisconnected, u, NoUser, "", 0)
  }

  /** The order the directory is sorted in: by name, as Go compares strings. */
  predicate ByName(a: User, b: User)
  {
    Strings.LessEq(a.name, b.name)
  }

  /** `u` belongs in the directory answered to `sid`: a registered user other than `sid`. */
  ghost predicate Listed(m: map<string, Client>, sid: string, u: User)
  {
    u.id in m && u.id != sid && m[u.id].user == u
  }

  /** `users` is the directory for `sid`: every other registered user exactly once, by name. */
  ghost predicate Directory(users: seq<User>, m: map<string, Client>, sid: string)
  {
    && Sorting.SortedBy(users, ByName)
    && forall u :: multiset(users)[u] == if Listed(m, sid, u) then 1 else 0
  }

  /** The clients after forwardMessage: the message is appended, unchanged, to the receiver's
      queue when sender and receiver are both registered. */
  function Forwarded(m: map<string, Client>, msg: Message): (r: map<string, Client>)
    ensures r.Keys == m.Keys
    ensures forall k :: k in r && k != msg.receiver.id ==> r[k] == m[k]
    ensures msg.receiver.id in m ==>
      && r[msg.receiver.id].user == m[msg.receiver.id].user
      && r[msg.receiver.id].queue == m[msg.receiver.id].queue + if msg.sender.id in m then [msg] else []
  {
    if msg.sender.id in m && msg.receiver.id in m then m[msg.receiver.id := Pushed(m[msg.receiver.id], msg)]
    else m
  }

  /** The clients after addClient: the client under its id, every other client with one
      USER_CONNECTED for it. */
  function Added(m: map<string, Client>, c: Client): (r: map<string, Client>)
    ensures r.Keys == m.Keys + {c.user.id} && r[c.user.id] == c
    ensures forall k :: k in r && k != c.user.id ==> r[k] == Pushed(m[k], ConnectedNote(c.user))
  {
    map k | k in m.Keys + {c.user.id} :: if k == c.user.id then c else Pushed(m[k], ConnectedNote(c.user))
  }

  /** The clients after removeClient: the user's id gone, every remaining client with one
      USER_DISCONNECTED for it. */
  function Removed(m: map<string, Client>, user: User): (r: map<string, Client>)
    ensures r.Keys == m.Keys - {user.id}
    ensures forall k :: k in r ==> r[k] == Pushed(m[k], DisconnectedNote(user))
  {
    map k | k in m && k != user.id :: Pushed(m[k], DisconnectedNote(user))
  }

  /** The same ids, each still held by the same user (only queues may differ). */
  predicate SameUsers(m: map<string, Client>, n: map<string, Client>)
  {
    m.Keys == n.Keys && forall k :: k in m ==> m[k].user == n[k].user
  }

  /** What one message of a session does to the clients: SEND_MSG_SINGLE is forwarded, every
      other type leaves them as they are. */
  function Handled(m: map<string, Client>, msg: Message): (r: map<string, Client>)
    ensures SameUsers(r, m)
  {
    if msg.typ == SendMsgSingle then Forwarded(m, msg) else m
  }

  /** The clients after the messages of a session, handled in order. */
  function HandledAll(m: map<string, Client>, msgs: seq<Message>): (r: map<string, Client>)
    ensures SameUsers(r, m)
  {
    if msgs == [] then m else Handled(HandledAll(m, msgs[..|msgs| - 1]), msgs[|msgs| - 1])
  }

  /** The SEND_MSG_SINGLE messages for `k` whose sender is registered under one of `ids`: the
      ones forwarded to `k`, in order. */
  function ForwardedTo(msgs: seq<Message>, k: string, ids: set<string>): (r: seq<Message>)
    ensures forall j :: 0 <= j < |r| ==> r[j].typ == SendMsgSingle && r[j].receiver.id == k && r[j].sender.id in ids
  {
    if msgs == [] then []
    else
      var last := msgs[|msgs| - 1];
      ForwardedTo(msgs[..|msgs| - 1], k, ids)
        + if last.typ == SendMsgSingle && last.receiver.id == k && last.sender.id in ids then [last] else []
  }

  /** Over a session, a registered client's queue grows by exactly the messages forwarded to it. */
  lemma {:induction false} HandledAllQueue(m: map<string, Client>, msgs: seq<Message>, k: string)
    requires k in m
    ensures HandledAll(m, msgs)[k].queue == m[k].queue + ForwardedTo(msgs, k, m.Keys)
  {
    if msgs != [] {
      var init := msgs[..|msgs| - 1];
      HandledAllQueue(m, init, k);
    }
  }

  /** What a session leaves in another client's queue: the connection note, the messages the
      session's user forwarded to it, and the disconnection note. */
  lemma SessionQueues(m: map<string, Client>, user: User, msgs: seq<Message>, k: string)
    requires k in m && k != user.id
    ensures var after := Removed(HandledAll(Added(m, Client(user, [])), msgs), user);
      k in after &&
      after[k].queue == m[k].queue + [ConnectedNote(user)] + ForwardedTo(msgs, k, m.Keys + {user.id}) + [DisconnectedNote(user)]
  {
    var added := Added(m, Client(user, []));
    HandledAllQueue(added, msgs, k);
  }

  /** The GET_USERS requests among the messages whose sender is registered under one of `ids`:
      the ones the server answers, in order. */
  function Requests(msgs: seq<Message>, ids: set<string>): (r: seq<Message>)
    ensures forall k :: 0 <= k < |r| ==> r[k].typ == GetUsers && r[k].sender.id in ids
  {
    if msgs == [] then []
    else
      var last := msgs[|msgs| - 1];
      Requests(msgs[..|msgs| - 1], ids) + if last.typ == GetUsers && last.sender.id in ids then [last] else []
  }

  /** `reply` is the GET_USERS_RESPONSE to `req` over the clients `m`: from the registered
      sender, holding the encoding of its directory. */
  ghost predicate Answers(reply: Message, req: Message, m: map<string, Client>, marshal: seq<User> -> string)
  {
    req.sender.id in m &&
    exists users :: Directory(users, m, req.sender.id) &&
      reply == Message(GetUsersResponse, m[req.sender.id].user, NoUser, marshal(users), 0)
  }

  /** An answer over some clients is the answer over any clients with the same users. */
  lemma AnswerOver(reply: Message, req: Message, m: map<string, Client>, n: map<string, Client>, marshal: seq<User> -> string)
    requires SameUsers(m, n) && Answers(reply, req, m, marshal)
    ensures Answers(reply, req, n, marshal)
  {
    var users :| Directory(users, m, req.sender.id) &&
      reply == Message(GetUsersResponse, m[req.sender.id].user, NoUser, marshal(users), 0);
    DirectorySameUsers(users, m, n, req.sender.id);
  }

  /** The directory depends only on who is registered, not on the queues. */
  lemma DirectorySameUsers(users: seq<User>, m: map<string, Client>, n: map<string, Client>, sid: string)
    requires SameUsers(m, n) && Directory(users, m, sid)
    ensures Directory(users, n, sid)
  {
    forall u
      ensures Listed(m, sid, u) == Listed(n, sid, u)
    {
    }
  }

  lemma ByNameTotal(users: seq<User>)
    ensures Sorting.TotalPreorderOn(users, ByName)
  {
    forall a, b, c | a in users && b in users && c in users
      ensures ByName(a, b) || ByName(b, a)
      ensures ByName(a, b) && ByName(b, c) ==> ByName(a, c)
    {
      Strings.LessEqTotalOrder(a.name, b.name, c.name);
    }
  }

  class Hub {
    var clients: map<string, Client>

    /** Every client is registered under its user's id. */
    ghost predicate Valid()
      reads this
    {
      forall k :: k in clients ==> clients[k].user.id == k
    }

    /** InitHub. */
    constructor()
      ensures clients == map[]
      ensures Valid()
    {
      clients := map[];
    }

    /** addClient: registers the client under its user's id, replacing any earlier entry, then
        sends USER_CONNECTED for the new user to every other client. */
    method AddClient(c: Client)
      modifies this
      ensures clients.Keys == old(clients).Keys + {c.user.id}
      ensures clients[c.user.id] == c
      ensures forall k :: k in clients && k != c.user.id ==> clients[k] == Pushed(old(clients)[k], ConnectedNote(c.user))
      ensures clients == Added(old(clients), c)
      ensures old(Valid()) ==> Valid()
    {
      clients := clients[c.user.id := c];
      Announce({c.user.id}, ConnectedNote(c.user));
    }

    /** removeClient: deletes the user's id, then sends USER_DISCONNECTED for that user to every
        client still registered. */
    method RemoveClient(user: User)
      modifies this
      ensures clients.Keys == old(clients).Keys - {user.id}
      ensures forall k :: k in clients ==> clients[k] == Pushed(old(clients)[k], DisconnectedNote(user))
      ensures clients == Removed(old(clients), user)
      ensures old(Valid()) ==> Valid()
    {
      clients := map k | k in clients && k != user.id :: clients[k];
      Announce({}, DisconnectedNote(user));
    }

    /** The fan-out loop of addClient and removeClient: sends the note to every client whose id
        is not skipped, in map order. */
    method Announce(skip: set<string>, note: Message)
      modifies this
      ensures clients.Keys == old(clients).Keys
      ensures forall k :: k in clients ==>
        clients[k] == if k in skip then old(clients)[k] else Pushed(old(clients)[k], note)
    {
      var order := Maps.RangeOrder(clients);
      var i := 0;
      while i < |order|
        invariant 0 <= i <= |order|
        invariant clients.Keys == old(clients).Keys
        invariant forall k :: k in clients ==>
          clients[k] == if k !in skip && k in order[..i] then Pushed(old(clients)[k], note) else old(clients)[k]
      {
        var k := order[i];
        assert order[..i + 1] == order[..i] + [k];
        if k !in skip {
          clients := clients[k := Pushed(clients[k], note)];
        }
        i := i + 1;
      }
      assert order[..i] == order;
    }

    /** getClient: the client registered under the user's id; the name plays no part. */
    function GetClient(user: User): (r: Option<Client>)
      reads this
      ensures r.Some? <==> user.id in clients
      ensures r.Some? ==> r.value == clients[user.id]
    {
      if user.id in clients then Some(clients[user.id]) else None
    }

    /** The users of every client but `sid`, sorted by name. */
    method OtherUsers(sid: string) returns (users: seq<User>)
      requires Valid()
      ensures Directory(users, clients, sid)
    {
      var order := Maps.RangeOrder(clients);
      var found: seq<User> := [];
      var i := 0;
      while i < |order|
        invariant 0 <= i <= |order|
        invariant forall u :: multiset(found)[u] == if Listed(clients, sid, u) && u.id in order[..i] then 1 else 0
      {
        var k := order[i];
        assert order[..i + 1] == order[..i] + [k];
        assert k !in order[..i];
        var cli := clients[k];
        if cli.user.id != sid {
          found := found + [cli.user];
        }
        i := i + 1;
      }
      assert order[..i] == order;
      ByNameTotal(found);
      users := Sorting.SortBy(found, ByName);
    }

    /** getActiveUsers: for a registered sender, a GET_USERS_RESPONSE from that sender whose
        content is the encoding (`marshal`, JSON in the system) of the directory; an error for an
        unregistered one. Nothing changes. */
    method GetActiveUsers(message: Message, marshal: seq<User> -> string) returns (r: Result<Message, HubError>, ghost listed: seq<User>)
      requires Valid()
      ensures message.sender.id !in clients ==> r == Err(SenderNotFound)
      ensures message.sender.id in clients ==>
        && Directory(listed, clients, message.sender.id)
        && r == Ok(Message(GetUsersResponse, clients[message.sender.id].user, NoUser, marshal(listed), 0))
    {
      var sender := GetClient(message.sender);
      if sender.None? {
        return Err(SenderNotFound), [];
      }
      var users := OtherUsers(sender.value.user.id);
      listed := users;
      r := Ok(Message(GetUsersResponse, sender.value.user, NoUser, marshal(users), 0));
    }

    /** forwardMessage. */
    method ForwardMessage(message: Message)
      modifies this
      ensures clients == Forwarded(old(clients), message)
    {
      var sender := GetClient(message.sender);
      if sender.None? {
        return;
      }
      var receiver := GetClient(message.receiver);
      if receiver.None? {
        return;
      }
      clients := clients[message.receiver.id := Pushed(receiver.value, message)];
    }

    /** One turn of a connection's read loop: GET_USERS is answered on the connection itself
        (when it succeeds), SEND_MSG_SINGLE is forwarded, and every other type is ignored. */
    method HandleMessage(message: Message, marshal: seq<User> -> string) returns (reply: Option<Message>)
      requires Valid()
      modifies this
      ensures Valid()
      ensures message.typ == GetUsers ==>
        && clients == old(clients)
        && (reply.Some? <==> message.sender.id in clients)
        && (reply.Some? ==> exists users :: (Directory(users, clients, message.sender.id) &&
              reply.value == Message(GetUsersResponse, clients[message.sender.id].user, NoUser, marshal(users), 0)))
      ensures message.typ == SendMsgSingle ==> reply == None && clients == Forwarded(old(clients), message)
      ensures message.typ != GetUsers && message.typ != SendMsgSingle ==> reply == None && clients == old(clients)
      ensures clients == Handled(old(clients), message)
    {
      reply := None;
      match message.typ {
        case GetUsers =>
          var r, listed := GetActiveUsers(message, marshal);
          if r.Ok? {
            reply := Some(r.value);
          }
        case SendMsgSingle =>
          ForwardMessage(message);
        case _ =>
      }
    }

    /** A connection's life on the server: the user is registered, the messages it sends are
        handled in order, and when reading ends it is removed (before its channel is closed).
        Returns the responses written directly to the connection: one per GET_USERS request from
        a registered sender, in order. */
    method Session(user: User, incoming: seq<Message>, marshal: seq<User> -> string) returns (replies: seq<Message>)
      requires Valid()
      modifies this
      ensures Valid()
      ensures clients == Removed(HandledAll(Added(old(clients), Client(user, [])), incoming), user)
      ensures var requests := Requests(incoming, old(clients).Keys + {user.id});
        && |replies| == |requests|
        && forall k :: 0 <= k < |replies| ==>
          Answers(replies[k], requests[k], Added(old(clients), Client(user, [])), marshal)
    {
      AddClient(Client(user, []));
      replies := ReadLoop(incoming, marshal);
      RemoveClient(user);
    }

    /** The read loop of a connection: each message is handled in turn, and the answers to
        GET_USERS are collected. Registrations and users stay as they were, so every answer is
        over the clients the loop started from. */
    method ReadLoop(incoming: seq<Message>, marshal: seq<User> -> string) returns (replies: seq<Message>)
      requires Valid()
      modifies this
      ensures Valid()
      ensures clients == HandledAll(old(clients), incoming)
      ensures var requests := Requests(incoming, old(clients).Keys);
        && |replies| == |requests|
        && forall k :: 0 <= k < |replies| ==> Answers(replies[k], requests[k], old(clients), marshal)
    {
      replies := [];
      var i := 0;
      while i < |incoming|
        invariant 0 <= i <= |incoming|
        invariant Valid()
        invariant clients == HandledAll(old(clients), incoming[..i])
        invariant |replies| == |Requests(incoming[..i], old(clients).Keys)|
        invariant forall k :: 0 <= k < |replies| ==>
          Answers(replies[k], Requests(incoming[..i], old(clients).Keys)[k], old(clients), marshal)
      {
        assert incoming[..i + 1][..i] == incoming[..i];
        ghost var before := clients;
        var reply := HandleMessage(incoming[i], marshal);
        if reply.Some? {
          AnswerOver(reply.value, incoming[i], before, old(clients), marshal);
          replies := replies + [reply.value];
        }
        i := i + 1;
      }
      assert incoming[..i] == incoming;
    }
  }
}
