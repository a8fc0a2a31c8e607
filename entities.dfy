/** The records the store keeps and the values its handlers return. Identifiers
    and timestamps are supplied by the caller; a timestamp is a count of
    milliseconds, as the difference of two `Date`s is. */
module Entities {
  import opened ListOps

  datatype User = User(id: string, code: string, name: string, phone: string, createdAt: nat)

  /** An edge as the add-friend handler stores it: `user1` asked, `user2` was added. */
  datatype Friendship = Friendship(id: string, user1: string, user2: string, createdAt: nat)

  datatype Message = Message(id: string, fromUser: string, toUser: string, text: string, timestamp: nat)

  /** The public view `{code, name, phone}` the register and user handlers return. */
  datatype UserView = UserView(code: string, name: string, phone: string)

  /** One entry of the chat list; `lastMessage` is `None` where the source sends `null`. */
  datatype ChatSummary = ChatSummary(userCode: string, name: string, lastMessage: Option<string>)

  /** The failure answers (`success: false`) the handlers give. */
  datatype Error = DuplicatePhone | UserNotFound | SelfFriendship | AlreadyFriends | NotFriends

  datatype Result<+T> = Ok(value: T) | Err(error: Error)

  /** The answer of a handler whose success carries no data. */
  datatype Outcome = Pass | Fail(error: Error)

  function View(u: User): UserView {
    UserView(u.code, u.name, u.phone)
  }
}
