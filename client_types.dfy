/** The client's user registry: the peers it knows by id, each with the messages exchanged with
    it, and the user itself. Events arrive on a channel and are applied one at a time. */
module ClientTypes {
  import Maps

  datatype UserDetails = UserDetails(id: string, name: string)

  /** A chat line; the timestamp (time.Time) is an integer. */
  datatype Message = Message(sender: UserDetails, content: string, timestamp: int)

  datatype User = User(details: UserDetails, messages: seq<Message>)

  datatype UserEvent =
    | UserConnectedEvent(details: UserDetails)
    | UserDisconnectedEvent(id: string)
    | AddMessageToUserEvent(id: string, msg: Message)
    | AddMessageToSelfEvent(id: string, msg: Message)

  const NoDetails := UserDetails("", "")

  function DetailsId(d: UserDetails): string
  {
    d.id
  }

  /** GetUserId: the id an event is about; a connection event carries it inside its details. */
  function GetUserId(e: UserEvent): (id: string)
    ensures e.UserConnectedEvent? ==> id == e.details.id
    ensures !e.UserConnectedEvent? ==> id == e.id
  {
    match e
    case UserConnectedEvent(details) => details.id
    case UserDisconnectedEvent(id) => id
    case AddMessageToUserEvent(id, _) => id
    case AddMessageToSelfEvent(id, _) => id
  }

  /** The users of the given details, with no messages yet. */
  function Blank(m: map<string, UserDetails>): (r: map<string, User>)
    ensures r.Keys == m.Keys
    ensures forall k :: k in r ==> r[k] == User(m[k], [])
  {
    map k | k in m :: User(m[k], [])
  }

  lemma BlankUpdate(m: map<string, UserDetails>, d: UserDetails)
    ensures Blank(m[d.id := d]) == Blank(m)[d.id := User(d, [])]
  {
  }

  class Registry {
    var users: map<string, User>
    var self: User

    /** InitRegistry: every given user under its id with no messages (of two with the same id,
        the later one), and the user itself with no messages. */
    constructor InitRegistry(userDetails: seq<UserDetails>, me: UserDetails)
      ensures self == User(me, [])
      ensures users == Blank(Maps.KeyedBy(userDetails, DetailsId))
    {
      var m := map[];
      var i := 0;
      while i < |userDetails|
        invariant 0 <= i <= |userDetails|
        invariant m == Blank(Maps.KeyedBy(userDetails[..i], DetailsId))
      {
        var u := userDetails[i];
        Maps.KeyedByNext(userDetails, DetailsId, i);
        BlankUpdate(Maps.KeyedBy(userDetails[..i], DetailsId), u);
        m := m[u.id := User(u, [])];
        i := i + 1;
      }
      assert userDetails[..i] == userDetails;
      users := m;
      self := User(me, []);
    }

    /** One turn of the event loop. */
    method Apply(e: UserEvent)
      modifies this
      ensures e.UserConnectedEvent? ==> users == old(users)[e.details.id := User(e.details, [])] && self == old(self)
      ensures e.UserDisconnectedEvent? ==> users == old(users) - {e.id} && self == old(self)
      ensures e.AddMessageToUserEvent? ==>
        var before := if e.id in old(users) then old(users)[e.id] else User(NoDetails, []);
        users == old(users)[e.id := before.(messages := before.messages + [e.msg])] && self == old(self)
      ensures e.AddMessageToSelfEvent? ==>
        users == old(users) && self == old(self).(messages := old(self).messages + [e.msg])
    {
      match e {
        case UserConnectedEvent(details) =>
          users := users[GetUserId(e) := User(details, [])];
        case UserDisconnectedEvent(_) =>
          users := users - {GetUserId(e)};
        case AddMessageToUserEvent(_, msg) =>
          var user := if GetUserId(e) in users then users[GetUserId(e)] else User(NoDetails, []);
          user := user.(messages := user.messages + [msg]);
          users := users[GetUserId(e) := user];
        case AddMessageToSelfEvent(_, msg) =>
          self := self.(messages := self.messages + [msg]);
      }
    }

    /** GetUserDetails: the details of every entry, one per entry, in map order (`ids`). */
    method GetUserDetails() returns (res: seq<UserDetails>, ghost ids: seq<string>)
      ensures Maps.Distinct(ids) && (forall k :: k in ids <==> k in users)
      ensures |res| == |ids|
      ensures forall i :: 0 <= i < |ids| ==> res[i] == users[ids[i]].details
    {
      var order := Maps.RangeOrder(users);
      res := [];
      var i := 0;
      while i < |order|
        invariant 0 <= i <= |order|
        invariant |res| == i
        invariant forall j :: 0 <= j < i ==> res[j] == users[order[j]].details
      {
        res := res + [users[order[i]].details];
        i := i + 1;
      }
      ids := order;
    }

    /** GetUserById: the entry and true when the id is known, the zero user and false otherwise. */
    function GetUserById(id: string): (r: (User, bool))
      reads this
      ensures r.1 <==> id in users
      ensures r.1 ==> r.0 == users[id]
      ensures !r.1 ==> r.0 == User(NoDetails, [])
    {
      if id in users then (users[id], true) else (User(NoDetails, []), false)
    }
  }
}
