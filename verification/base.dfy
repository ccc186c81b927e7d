/** Vocabulary shared by every module: fixed-width integers, Option/Result,
    and the error values the server hands back to its callers. */
module Base {

  /** Number of distinct `u32` values. */
  const U32_LIMIT: int := 0x1_0000_0000

  type U32 = x: int | 0 <= x < 0x1_0000_0000
  type U8 = x: int | 0 <= x < 0x100

  datatype Option<+T> = None | Some(value: T)

  /** The errors of the server. Each fixed-text error of the source gets its
      own constructor; the comment gives the text the source produces. */
  datatype Error =
    | AlreadyInRoom                 // "User already in a room"
    | UserNotFound                  // "User not found"
    | UserNotFoundId(userId: U32)   // "User not found {id}"
    | RoomNotFound                  // "Room not found"
    | RoomNotFoundId(roomId: U32)   // "Room not found {id}"
    | RoomFull                      // "Room is full"
    | UserNotInARoom                // "User not in a room" (room manager)
    | UserNotInRoom                 // "user not in room" (room handlers)
    | NotOwner                      // "user is not owner"
    | EmptyUserName                 // "Empty user name request"
    | NameTooLong                   // "name is too long"
    | NoneValue                     // "None", produced by `IntoResult`
    | DecodeFailed                  // serde_json could not build the typed value
    | EncodeFailed                  // serde_json could not serialise the value

  datatype Result<+T> = Ok(value: T) | Err(error: Error)

  /** Rust's `()`. */
  datatype Unit = Unit

  /** `Result::ok()`: forgets the error. */
  function ToOption<T>(r: Result<T>): Option<T> {
    match r
    case Ok(v) => Some(v)
    case Err(_) => None
  }
}
