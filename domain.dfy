/** The records the chat components exchange: users, messages and the per-peer history a client
    keeps. Timestamps (time.Time) are plain integers, ordered as instants are. Message contents,
    a byte slice in the records, are held as the text they carry. */
module Domain {

  /** The message types. The CMD_* string constants are not part of this model: each one is a
      constructor here, and any other type string is Other. */
  datatype Command =
    | GetUsers
    | GetUsersResponse
    | SendMsgSingle
    | UserConnected
    | UserDisconnected
    | Other(tag: string)

  datatype User = User(id: string, name: string, avatar: seq<bv8>)

  datatype Message = Message(typ: Command, sender: User, receiver: User, content: string, timestamp: int)

  /** A peer's conversation as a client sees it. */
  datatype ChatHistory = ChatHistory(messages: seq<Message>, unread: bool)

  datatype Notification = Notification(user: User, text: string)

  /** The zero values of the Go records. */
  const NoUser := User("", "", [])
  const NoHistory := ChatHistory([], false)

  function UserId(u: User): string
  {
    u.id
  }

  /** Every user is stored under its own id, as all maps of users in the system are filled. */
  ghost predicate KeyedById(m: map<string, User>)
  {
    forall k :: k in m ==> m[k].id == k
  }
}
