/** The list of online users in the client window: which messages count as chat lines, which line
    a user's card shows, and how the cards are kept in name order as users come and go. A user's
    history is the Messages of its ChatHistory entry. */
module UserList {
  import opened Domain
  import Maps
  import Sorting
  import Strings

  const Greeting := "Say Hi!"

  /** The chat lines (SEND_MSG_SINGLE messages) of `ms`, in their order. */
  function Filtered(ms: seq<Message>): (r: seq<Message>)
    ensures |r| <= |ms|
    ensures forall m :: m in r <==> m in ms && m.typ == SendMsgSingle
  {
    if |ms| == 0 then []
    else
      var last := ms[|ms| - 1];
      assert ms == ms[..|ms| - 1] + [last];
      Filtered(ms[..|ms| - 1]) + if last.typ == SendMsgSingle then [last] else []
  }

  /** Filtering is done message by message: with FilteredOne, this fixes both which messages are
      kept and their order. */
  lemma {:induction false} FilteredAppend(a: seq<Message>, b: seq<Message>)
    ensures Filtered(a + b) == Filtered(a) + Filtered(b)
    decreases |b|
  {
    if |b| > 0 {
      var b' := b[..|b| - 1];
      assert (a + b)[..|a + b| - 1] == a + b';
      assert b[..|b| - 1] == b';
      FilteredAppend(a, b');
    } else {
      assert a + b == a;
    }
  }

  lemma FilteredOne(m: Message)
    ensures Filtered([m]) == if m.typ == SendMsgSingle then [m] else []
  {
    assert [m][..0] == [];
  }

  lemma FilteredNext(ms: seq<Message>, i: nat)
    requires i < |ms|
    ensures Filtered(ms[..i + 1]) == Filtered(ms[..i]) + if ms[i].typ == SendMsgSingle then [ms[i]] else []
  {
    assert ms[..i + 1][..i] == ms[..i];
  }

  /** filterMessages. */
  method FilterMessages(messages: seq<Message>) returns (res: seq<Message>)
    ensures res == Filtered(messages)
  {
    res := [];
    var i := 0;
    while i < |messages|
      invariant 0 <= i <= |messages|
      invariant res == Filtered(messages[..i])
    {
      FilteredNext(messages, i);
      if messages[i].typ == SendMsgSingle {
        res := res + [messages[i]];
      }
      i := i + 1;
    }
    assert messages[..i] == messages;
  }

  /** The order of slices.SortFunc by timestamp. */
  predicate ByTime(a: Message, b: Message)
  {
    a.timestamp <= b.timestamp
  }

  /** `text` is what a card shows for this history: the greeting when there is no chat line, and
      otherwise the content of a chat line no other chat line is later than. */
  ghost predicate ShowsLast(ms: seq<Message>, text: string)
  {
    && ((forall m :: m in ms ==> m.typ != SendMsgSingle) ==> text == Greeting)
    && ((exists m :: m in ms && m.typ == SendMsgSingle) ==>
        exists m :: m in ms && m.typ == SendMsgSingle && m.content == text &&
          forall n :: n in ms && n.typ == SendMsgSingle ==> n.timestamp <= m.timestamp)
  }

  function HistoryOf(history: map<string, ChatHistory>, id: string): seq<Message>
  {
    if id in history then history[id].messages else []
  }

  /** The last of the chat lines of `ms` sorted by time is the line a card shows. */
  lemma LatestShows(ms: seq<Message>, sorted: seq<Message>)
    requires |sorted| > 0
    requires Sorting.SortedBy(sorted, ByTime)
    requires multiset(sorted) == multiset(Filtered(ms))
    ensures ShowsLast(ms, sorted[|sorted| - 1].content)
  {
    var last := sorted[|sorted| - 1];
    assert last in multiset(Filtered(ms));
    forall n | n in ms && n.typ == SendMsgSingle
      ensures n.timestamp <= last.timestamp
    {
      assert n in multiset(sorted);
      var j :| 0 <= j < |sorted| && sorted[j] == n;
      if j < |sorted| - 1 {
        assert ByTime(sorted[j], sorted[|sorted| - 1]);
      }
    }
  }

  /** getLastMessage: filters the user's history, sorts it by time and shows the last line, or
      the greeting. */
  method GetLastMessage(history: map<string, ChatHistory>, user: User) returns (text: string)
    ensures ShowsLast(HistoryOf(history, user.id), text)
  {
    var ms := HistoryOf(history, user.id);
    if |ms| > 0 {
      var lines := FilterMessages(ms);
      var sorted := Sorting.SortBy(lines, ByTime);
      if |sorted| > 0 {
        LatestShows(ms, sorted);
        return sorted[|sorted| - 1].content;
      }
      assert lines == [];
    }
    return Greeting;
  }

  /** The order of the cards: by lower-cased name. */
  predicate ByLowerName(a: User, b: User)
  {
    Strings.LessEq(Strings.ToLower(a.name), Strings.ToLower(b.name))
  }

  lemma ByLowerNameTotal(users: seq<User>)
    ensures Sorting.TotalPreorderOn(users, ByLowerName)
  {
    forall a, b, c | a in users && b in users && c in users
      ensures ByLowerName(a, b) || ByLowerName(b, a)
      ensures ByLowerName(a, b) && ByLowerName(b, c) ==> ByLowerName(a, c)
    {
      Strings.LessEqTotalOrder(Strings.ToLower(a.name), Strings.ToLower(b.name), Strings.ToLower(c.name));
    }
  }

  /** `users` is every online user exactly once, by lower-cased name. */
  ghost predicate CardOrder(users: seq<User>, active: map<string, User>)
  {
    && Sorting.SortedBy(users, ByLowerName)
    && forall u :: multiset(users)[u] == if u.id in active && active[u.id] == u then 1 else 0
  }

  /** The values of the online users (maps.Values), sorted by lower-cased name. */
  method SortedUsers(active: map<string, User>) returns (users: seq<User>)
    requires KeyedById(active)
    ensures CardOrder(users, active)
  {
    var order := Maps.RangeOrder(active);
    var values: seq<User> := [];
    var i := 0;
    while i < |order|
      invariant 0 <= i <= |order|
      invariant forall u :: multiset(values)[u] == if u.id in active && active[u.id] == u && u.id in order[..i] then 1 else 0
    {
      var k := order[i];
      assert order[..i + 1] == order[..i] + [k];
      assert k !in order[..i];
      values := values + [active[k]];
      i := i + 1;
    }
    assert order[..i] == order;
    ByLowerNameTotal(values);
    users := Sorting.SortBy(values, ByLowerName);
  }

  /** A card of the list: the user it shows and its line. The rest of a card's state (its button,
      its unread mark) is represented by `unread`. */
  class UserCard {
    var user: User
    var message: string
    var unread: bool

    constructor(user: User, message: string)
      ensures this.user == user && this.message == message && !unread
    {
      this.user := user;
      this.message := message;
      unread := false;
    }
  }

  class CardList {
    /** The card slice; a nil entry is a slot not yet holding a card. */
    var cards: seq<UserCard?>

    /** No card object sits in two slots. */
    ghost predicate Valid()
      reads this
    {
      forall i, j :: 0 <= i < j < |cards| && cards[i] != null ==> cards[i] != cards[j]
    }

    constructor()
      ensures cards == [] && Valid()
    {
      cards := [];
    }

    /** updateUserCards: as many cards as online users, card i for the i-th user by lower-cased
        name and showing its last line. A card already in slot i is reused, only its user and
        line rewritten; an empty slot gets a new card. */
    method UpdateUserCards(active: map<string, User>, history: map<string, ChatHistory>) returns (ghost users: seq<User>)
      requires Valid() && KeyedById(active)
      modifies this, set c: UserCard | c in cards
      ensures Valid()
      ensures CardOrder(users, active)
      ensures |cards| == |users|
      ensures forall i :: 0 <= i < |cards| ==>
        && cards[i] != null
        && cards[i].user == users[i]
        && ShowsLast(HistoryOf(history, users[i].id), cards[i].message)
      ensures forall i :: 0 <= i < |cards| && i < |old(cards)| && old(cards)[i] != null ==>
        cards[i] == old(cards)[i] && cards[i].unread == old(cards[i].unread)
      ensures forall i :: 0 <= i < |cards| && (i >= |old(cards)| || old(cards)[i] == null) ==>
        fresh(cards[i]) && !cards[i].unread
    {
      var sorted := SortedUsers(active);
      users := sorted;
      if |sorted| > |cards| {
        cards := cards + seq(|sorted| - |cards|, _ => null);
      }
      RewriteCards(sorted, history);
      cards := cards[..|sorted|];
    }

    /** The rewrite loop of updateUserCards, over slots that already exist: slot i gets the i-th
        user and its line; later slots are left alone. */
    method RewriteCards(sorted: seq<User>, history: map<string, ChatHistory>)
      requires Valid() && |sorted| <= |cards|
      modifies this, set c: UserCard | c in cards
      ensures Valid()
      ensures |cards| == |old(cards)|
      ensures forall j :: 0 <= j < |sorted| ==>
        && cards[j] != null
        && cards[j].user == sorted[j]
        && ShowsLast(HistoryOf(history, sorted[j].id), cards[j].message)
      ensures forall j :: 0 <= j < |sorted| && old(cards)[j] != null ==> cards[j] == old(cards)[j]
      ensures forall j :: 0 <= j < |old(cards)| && old(cards)[j] != null ==> old(cards)[j].unread == old(cards[j].unread)
      ensures forall j :: 0 <= j < |sorted| && old(cards)[j] == null ==> fresh(cards[j]) && !cards[j].unread
    {
      ghost var texts: seq<string> := [];
      var i := 0;
      while i < |sorted|
        invariant 0 <= i <= |sorted| <= |cards| == |old(cards)|
        invariant |texts| == i
        invariant Valid()
        invariant forall j :: i <= j < |cards| ==> cards[j] == old(cards)[j]
        invariant forall j :: 0 <= j < i ==> ShowsLast(HistoryOf(history, sorted[j].id), texts[j])
        invariant forall j :: 0 <= j < i ==> cards[j] != null && cards[j].user == sorted[j] && cards[j].message == texts[j]
        invariant forall j :: 0 <= j < i && old(cards)[j] != null ==> cards[j] == old(cards)[j]
        invariant forall j :: 0 <= j < |old(cards)| && old(cards)[j] != null ==> old(cards)[j].unread == old(cards[j].unread)
        invariant forall j :: 0 <= j < i && old(cards)[j] == null ==> fresh(cards[j]) && !cards[j].unread
      {
        var message := GetLastMessage(history, sorted[i]);
        texts := texts + [message];
        SetCard(i, sorted[i], message);
        i := i + 1;
      }
    }

    /** One step of the rewrite loop: the card in slot i is given the user and line, or a new
        card is put in an empty slot. */
    method SetCard(i: nat, user: User, message: string)
      requires Valid() && i < |cards|
      modifies this, cards[i]
      ensures Valid()
      ensures |cards| == |old(cards)|
      ensures forall j :: 0 <= j < |cards| && j != i ==> cards[j] == old(cards)[j]
      ensures forall j :: 0 <= j < |cards| && j != i && cards[j] != null ==>
        && cards[j].user == old(cards[j].user)
        && cards[j].message == old(cards[j].message)
        && cards[j].unread == old(cards[j].unread)
      ensures cards[i] != null && cards[i].user == user && cards[i].message == message
      ensures old(cards[i]) != null ==> cards[i] == old(cards[i]) && cards[i].unread == old(cards[i].unread)
      ensures old(cards[i]) == null ==> fresh(cards[i]) && !cards[i].unread
    {
      if cards[i] == null {
        var card := new UserCard(user, message);
        cards := cards[i := card];
      } else {
        cards[i].user := user;
        cards[i].message := message;
      }
    }
  }
}
