/** The entities the chat-state store works on: users, the session
    projection, rooms with their messages, and the contents of the durable
    key-value store the state is persisted to.  The field names follow the
    records the store reads and writes (`id`, `username`, `password`, `name`,
    `messages`, `users`, `private`, `idUser`, `idRoom`, `content`, `ref`). */
module Types {

  type Id = string

  /** A creation or update time as read from the clock by the caller. */
  type Timestamp = nat

  datatype Option<+T> = None | Some(value: T)

  /** The error kinds an operation can fail with. */
  datatype Error =
    | NotAuthenticated      // "You are not logged in"
    | AlreadyAuthenticated  // "You are already logged in"
    | DuplicateUsername     // "User already exists"
    | InvalidCredentials    // "User not found" (login)
    | NotAuthorized         // "You are not allowed to do this"
    | RoomNotFound          // "Room not found"
    | MessageNotFound       // "Message not found"

  /** What an operation returns: its value, or the error it raised. */
  datatype Result<+T> = Ok(value: T) | Err(error: Error)

  datatype User = User(id: Id, username: string, password: string)

  /** The logged-in user: a user without its password. */
  datatype Session = Session(username: string, id: Id)

  /** A member of a room and its permission there. */
  datatype Member = Member(idUser: Id, permission: string)

  datatype Message = Message(
    id: Id,
    idUser: Id,
    idRoom: Id,
    content: string,
    createdAt: Timestamp,
    updatedAt: Timestamp,
    ref: string)

  /** A room as a value: what is written to the durable store. */
  datatype RoomValue = RoomValue(
    id: Id,
    name: string,
    messages: seq<Message>,
    users: seq<Member>,
    isPrivate: bool,
    createdAt: Timestamp,
    updatedAt: Timestamp)

  /** The `{id, name}` view of a room given by the public room list. */
  datatype RoomSummary = RoomSummary(id: Id, name: string)

  /** What the durable store holds under its three keys `userLogged`,
      `rooms` and `users`; `None` is a key that is absent. */
  datatype Store = Store(
    userLogged: Option<Session>,
    rooms: Option<seq<RoomValue>>,
    users: Option<seq<User>>)

  /** The reserved id of the built-in super-admin. */
  const SuperAdminId: Id := "secret-id"

  /** The permission the creator of a room gets in it. */
  const AdminPermission: string := "admin"

  /** The user registry used when the store holds no `users` entry. */
  const DefaultUsers: seq<User> := [User(SuperAdminId, "riccardogenova", "12345")]

  /** The user registry a store yields on loading: its `users` entry, or
      the seeded super-admin alone when the entry is absent. */
  function LoadedUsers(saved: Store): (users: seq<User>)
    ensures saved.users.None? ==> users == DefaultUsers
    ensures saved.users.Some? ==> users == saved.users.value
  {
    if saved.users.Some? then saved.users.value else DefaultUsers
  }

  /** The session projection of a user: its username and id, without the
      password. */
  function Project(u: User): (s: Session)
    ensures s.username == u.username && s.id == u.id
  {
    Session(u.username, u.id)
  }

  /** A room.  Only its message list is ever replaced; the other fields are
      fixed when the room is created or loaded. */
  class Room {
    const id: Id
    const name: string
    var messages: seq<Message>
    const users: seq<Member>
    const isPrivate: bool
    const createdAt: Timestamp
    const updatedAt: Timestamp

    /** A room holding the fields of `v`. */
    constructor (v: RoomValue)
      ensures Value() == v
    {
      id, name, messages, users := v.id, v.name, v.messages, v.users;
      isPrivate, createdAt, updatedAt := v.isPrivate, v.createdAt, v.updatedAt;
    }

    /** The current value of this room. */
    function Value(): RoomValue
      reads this
    {
      RoomValue(id, name, messages, users, isPrivate, createdAt, updatedAt)
    }
  }

  /** The values of a sequence of rooms, in order: what the `rooms` entry
      of the durable store receives. */
  function RoomValues(rooms: seq<Room>): (vs: seq<RoomValue>)
    reads rooms
    ensures |vs| == |rooms|
    ensures forall k :: 0 <= k < |rooms| ==> vs[k] == rooms[k].Value()
  {
    seq(|rooms|, k reads rooms requires 0 <= k < |rooms| => rooms[k].Value())
  }
}
