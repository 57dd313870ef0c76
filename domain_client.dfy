/** The client side of the current protocol: the state a chat client keeps (who is online, the
    conversation with each peer, the notifications to show) and how each message received from
    the server changes it. */
module DomainClient {
  import opened Common
  import opened Domain
  import Maps

  /** A peer's history, or the empty one when there is none yet (Go's zero value). */
  function HistoryOf(m: map<string, ChatHistory>, id: string): ChatHistory
  {
    if id in m then m[id] else NoHistory
  }

  class ChatClient {
    var user: User
    var draft: seq<Message>
    /** What has been sent on WriteChan, to be written to the server. */
    var outbox: seq<Message>
    var activeUsers: map<string, User>
    var chatHistory: map<string, ChatHistory>
    var notifications: seq<Notification>

    /** Every online user is stored under its own id. */
    ghost predicate Valid()
      reads this
    {
      KeyedById(activeUsers)
    }

    /** InitClientConnection: a new user (its uuid is the parameter `id`) with no draft, nobody
        online and no history, whose first request asks the server for the users online. */
    constructor InitClientConnection(nickName: string, avatar: seq<bv8>, id: string)
      ensures user == User(id, nickName, avatar)
      ensures draft == [] && activeUsers == map[] && chatHistory == map[] && notifications == []
      ensures outbox == [Message(GetUsers, user, NoUser, "", 0)]
      ensures Valid()
    {
      user := User(id, nickName, avatar);
      draft := [];
      activeUsers := map[];
      chatHistory := map[];
      notifications := [];
      outbox := [Message(GetUsers, User(id, nickName, avatar), NoUser, "", 0)];
    }

    /** One turn of the receive loop of connectToChatServer. `unmarshal` decodes a JSON list of
        users. Returns whether the callback runs: it is skipped only when a user list does not
        decode. */
    method HandleMessage(message: Message, unmarshal: string -> Option<seq<User>>) returns (callback: bool)
      requires Valid()
      modifies this
      ensures Valid()
      ensures user == old(user) && draft == old(draft) && outbox == old(outbox)
      ensures message.typ == GetUsersResponse ==>
        match unmarshal(message.content)
        case None =>
          && !callback
          && activeUsers == old(activeUsers) && chatHistory == old(chatHistory) && notifications == old(notifications)
        case Some(users) =>
          && callback
          && activeUsers == Maps.KeyedBy(users, UserId)
          && chatHistory == old(chatHistory) && notifications == old(notifications)
      ensures message.typ == SendMsgSingle ==>
        var id := message.sender.id;
        && callback
        && activeUsers == old(activeUsers)
        && chatHistory == old(chatHistory)[id := ChatHistory(HistoryOf(old(chatHistory), id).messages + [message], true)]
        && notifications == old(notifications) + [Notification(message.sender, message.content)]
      ensures message.typ == UserConnected ==>
        && callback
        && activeUsers == old(activeUsers)[message.sender.id := message.sender]
        && chatHistory == old(chatHistory)[message.sender.id := NoHistory]
        && notifications == old(notifications)
      ensures message.typ == UserDisconnected ==>
        && callback
        && activeUsers == old(activeUsers) - {message.sender.id}
        && chatHistory == old(chatHistory) - {message.sender.id}
        && notifications == old(notifications)
      ensures message.typ !in {GetUsersResponse, SendMsgSingle, UserConnected, UserDisconnected} ==>
        && callback
        && activeUsers == old(activeUsers) && chatHistory == old(chatHistory) && notifications == old(notifications)
    {
      callback := true;
      var id := message.sender.id;
      match message.typ {
        case GetUsersResponse =>
          var decoded := unmarshal(message.content);
          if decoded.None? {
            return false;
          }
          SetActiveUsers(decoded.value);
        case SendMsgSingle =>
          var history := HistoryOf(chatHistory, id);
          history := history.(messages := history.messages + [message]);
          history := history.(unread := true);
          chatHistory := chatHistory[id := history];
          notifications := notifications + [Notification(message.sender, message.content)];
        case UserConnected =>
          activeUsers := activeUsers[id := message.sender];
          chatHistory := chatHistory[id := ChatHistory([], false)];
        case UserDisconnected =>
          activeUsers := activeUsers - {id};
          chatHistory := chatHistory - {id};
        case _ =>
      }
    }

    /** clear(ActiveUsers), then every decoded user under its id, a later one with the same id
        replacing an earlier one. */
    method SetActiveUsers(users: seq<User>)
      modifies this
      ensures activeUsers == Maps.KeyedBy(users, UserId)
      ensures user == old(user) && draft == old(draft) && outbox == old(outbox)
      ensures chatHistory == old(chatHistory) && notifications == old(notifications)
      ensures Valid()
    {
      activeUsers := map[];
      var i := 0;
      while i < |users|
        invariant 0 <= i <= |users|
        invariant activeUsers == Maps.KeyedBy(users[..i], UserId)
        invariant user == old(user) && draft == old(draft) && outbox == old(outbox)
        invariant chatHistory == old(chatHistory) && notifications == old(notifications)
      {
        Maps.KeyedByNext(users, UserId, i);
        activeUsers := activeUsers[users[i].id := users[i]];
        i := i + 1;
      }
      assert users[..i] == users;
    }
  }
}
