/** The session and chat-state store.  One object holds the logged-in
    user, the rooms, the user registry and the ids of the users online in
    this process, and keeps a copy of the persisted collections in
    `storage`, the contents of the durable key-value store. */
module App {
  import opened Types
  import opened Lookups

  class AppDiscord {
    /** The session projection, or `None` when nobody is logged in. */
    var userLogged: Option<Session>
    var rooms: seq<Room>
    var users: seq<User>
    /** Ids of the users that logged in through this object. */
    var onlineUsers: seq<Id>
    /** What the durable store holds under `userLogged`, `rooms` and `users`. */
    var storage: Store

    /** The store's invariant: each room object is listed once, and the
        online list is empty or holds exactly the logged-in user's id. */
    ghost predicate Valid()
      reads this
    {
      (forall i, j :: 0 <= i < j < |rooms| ==> rooms[i] != rooms[j]) &&
      (onlineUsers == [] || (userLogged.Some? && onlineUsers == [userLogged.value.id]))
    }

    /** The session, if any, is the projection of a registered user. */
    ghost predicate SessionRegistered()
      reads this
    {
      userLogged.Some? ==> Registered(users, userLogged.value)
    }

    /** The state agrees with what the durable store holds: the session is
        registered, the store yields this registry, and the session it
        holds is registered too.  A store written only by this object
        keeps it. */
    ghost predicate Consistent()
      reads this
    {
      SessionRegistered() && LoadedUsers(storage) == users && StoreConsistent(storage)
    }

    /** Loads the state from the durable store: each absent entry takes its
        default (no session, no rooms, the built-in super-admin); nobody is
        online. */
    constructor (saved: Store)
      ensures Valid()
      ensures userLogged == saved.userLogged
      ensures users == LoadedUsers(saved)
      ensures RoomValues(rooms) == (if saved.rooms.Some? then saved.rooms.value else [])
      ensures forall k :: 0 <= k < |rooms| ==> fresh(rooms[k])
      ensures onlineUsers == [] && storage == saved
      ensures StoreConsistent(saved) ==> Consistent()
    {
      var values := if saved.rooms.Some? then saved.rooms.value else [];
      var loaded: seq<Room> := [];
      var i := 0;
      while i < |values|
        invariant 0 <= i <= |values| && |loaded| == i
        invariant forall k :: 0 <= k < i ==> fresh(loaded[k]) && loaded[k].Value() == values[k]
        invariant forall k, j :: 0 <= k < j < i ==> loaded[k] != loaded[j]
      {
        var room := new Room(values[i]);
        loaded := loaded + [room];
        i := i + 1;
      }
      userLogged := saved.userLogged;
      rooms := loaded;
      users := LoadedUsers(saved);
      onlineUsers := [];
      storage := saved;
    }

    /** Writes the values of the rooms to the `rooms` entry of the durable
        store. */
    method PersistRooms()
      modifies this`storage
      ensures storage == old(storage).(rooms := Some(RoomValues(rooms)))
      ensures RoomValues(rooms) == old(RoomValues(rooms))
    {
      var snapshot := RoomValues(rooms);
      storage := storage.(rooms := Some(snapshot));
      assert forall k :: 0 <= k < |rooms| ==> snapshot[k] == rooms[k].Value();
    }

    /** Gives the room at index `k` the message list `messages` and writes
        the rooms to the durable store; no other room changes. */
    method ReplaceMessages(k: nat, messages: seq<Message>)
      requires Valid() && k < |rooms|
      modifies rooms[k], this`storage
      ensures rooms[k].messages == messages
      ensures RoomValues(rooms) == old(RoomValues(rooms))[k := old(rooms[k].Value()).(messages := messages)]
      ensures storage == old(storage).(rooms := Some(RoomValues(rooms)))
    {
      ghost var before := RoomValues(rooms);
      rooms[k].messages := messages;
      assert RoomValues(rooms) == before[k := before[k].(messages := messages)];
      PersistRooms();
    }

    /** Creates a user with a username nobody has, then logs it in.  `id`
        stands for the freshly generated id. */
    method Signup(username: string, password: string, id: Id) returns (r: Result<Session>)
      requires Valid()
      modifies this
      ensures Valid()
      ensures old(userLogged).Some? ==> r == Err(AlreadyAuthenticated)
      ensures old(userLogged).None? && UserExists(old(users), username) ==> r == Err(DuplicateUsername)
      ensures r.Ok? <==> old(userLogged).None? && !UserExists(old(users), username)
      ensures r.Err? ==> unchanged(this)
      ensures r.Ok? ==>
        && users == old(users) + [User(id, username, password)]
        && r.value == Session(username, id)
        && userLogged == Some(r.value)
        && onlineUsers == old(onlineUsers) + [id]
        && rooms == old(rooms)
        && storage == old(storage).(userLogged := Some(r.value), users := Some(users))
      ensures UsernamesUnique(old(users)) ==> UsernamesUnique(users)
      ensures UserIdsUnique(old(users)) && !UserIdUsed(old(users), id) ==> UserIdsUnique(users)
      ensures r.Ok? ==> SessionRegistered()
      ensures old(Consistent()) ==> Consistent()
    {
      if userLogged.Some? {
        return Err(AlreadyAuthenticated);
      }
      if UserExists(users, username) {
        return Err(DuplicateUsername);
      }
      var newUser := User(id, username, password);
      NewUserIsFound(users, newUser);
      AppendKeepsUnique(users, newUser);
      users := users + [newUser];
      r := Login(username, password);
      storage := storage.(users := Some(users));
      assert r.Ok? ==> Registered(users, r.value) by {
        if r.Ok? {
          assert newUser in users && Project(newUser) == r.value;
        }
      }
    }

    /** Logs in the first user with these credentials and marks it online. */
    method Login(username: string, password: string) returns (r: Result<Session>)
      requires Valid()
      modifies this
      ensures Valid()
      ensures old(userLogged).Some? ==> r == Err(AlreadyAuthenticated)
      ensures old(userLogged).None? && FindUser(old(users), username, password).None? ==>
                r == Err(InvalidCredentials)
      ensures r.Ok? <==> old(userLogged).None? && FindUser(old(users), username, password).Some?
      ensures r.Err? ==> unchanged(this)
      ensures r.Ok? ==>
        && old(userLogged).None?
        && FindUser(users, username, password).Some?
        && r.value == Project(users[FindUser(users, username, password).value])
        && userLogged == Some(r.value)
        && onlineUsers == old(onlineUsers) + [r.value.id]
        && users == old(users) && rooms == old(rooms)
        && storage == old(storage).(userLogged := Some(r.value))
      ensures r.Ok? ==> SessionRegistered()
      ensures old(Consistent()) ==> Consistent()
    {
      if userLogged.Some? {
        return Err(AlreadyAuthenticated);
      }
      var found := FindUser(users, username, password);
      if found.None? {
        return Err(InvalidCredentials);
      }
      var user := users[found.value];
      assert user in users;
      userLogged := Some(Project(user));
      onlineUsers := onlineUsers + [user.id];
      storage := storage.(userLogged := userLogged);
      r := Ok(Project(user));
    }

    /** Ends the session and takes the user's id off the online list.  The
        durable store is not written. */
    method Logout() returns (r: Result<()>)
      requires Valid()
      modifies this
      ensures Valid()
      ensures old(userLogged).None? ==> r == Err(NotAuthenticated)
      ensures old(userLogged).Some? ==> r == Ok(())
      ensures r.Err? ==> unchanged(this)
      ensures r.Ok? ==>
        && userLogged == None
        && onlineUsers == WithoutId(old(onlineUsers), old(userLogged).value.id)
        && onlineUsers == []
        && users == old(users) && rooms == old(rooms) && storage == old(storage)
      ensures r.Ok? ==> SessionRegistered()
      ensures old(Consistent()) ==> Consistent()
    {
      if userLogged.None? {
        return Err(NotAuthenticated);
      }
      onlineUsers := WithoutId(onlineUsers, userLogged.value.id);
      userLogged := None;
      r := Ok(());
    }

    /** The current session projection; never fails. */
    method GetUserLogged() returns (s: Option<Session>)
      ensures s == userLogged
    {
      s := userLogged;
    }

    /** The ids of the users online, for a logged-in caller: at most the
        caller's own id. */
    method GetOnlineUsers() returns (r: Result<seq<Id>>)
      requires Valid()
      ensures userLogged.None? ==> r == Err(NotAuthenticated)
      ensures userLogged.Some? ==> r == Ok(onlineUsers)
      ensures r.Ok? ==> |r.value| <= 1 && forall x :: x in r.value ==> x == userLogged.value.id
    {
      if userLogged.None? {
        return Err(NotAuthenticated);
      }
      r := Ok(onlineUsers);
    }

    /** Whether the logged-in user is the super-admin; fails without a
        session. */
    function CheckIsSuperAdmin(): (r: Result<bool>)
      reads this
      ensures r.Err? <==> userLogged.None?
      ensures r.Err? ==> r.error == NotAuthenticated
      ensures r.Ok? ==> (r.value <==> userLogged.value.id == SuperAdminId)
    {
      if userLogged.None? then Err(NotAuthenticated)
      else Ok(userLogged.value.id == SuperAdminId)
    }

    /** The whole user registry, for the super-admin only. */
    method GetAllUsers() returns (r: Result<seq<User>>)
      ensures userLogged.None? ==> r == Err(NotAuthenticated)
      ensures userLogged.Some? && userLogged.value.id != SuperAdminId ==> r == Err(NotAuthorized)
      ensures userLogged.Some? && userLogged.value.id == SuperAdminId ==> r == Ok(users)
    {
      var isSuperAdmin := CheckIsSuperAdmin();
      if isSuperAdmin.Err? {
        return Err(isSuperAdmin.error);
      }
      if !isSuperAdmin.value {
        return Err(NotAuthorized);
      }
      r := Ok(users);
    }

    /** All rooms, private ones included, for the super-admin only. */
    method GetAllRooms() returns (r: Result<seq<Room>>)
      ensures userLogged.None? ==> r == Err(NotAuthenticated)
      ensures userLogged.Some? && userLogged.value.id != SuperAdminId ==> r == Err(NotAuthorized)
      ensures userLogged.Some? && userLogged.value.id == SuperAdminId ==> r == Ok(rooms)
    {
      var isSuperAdmin := CheckIsSuperAdmin();
      if isSuperAdmin.Err? {
        return Err(isSuperAdmin.error);
      }
      if !isSuperAdmin.value {
        return Err(NotAuthorized);
      }
      r := Ok(rooms);
    }

    /** Creates a public room whose only member is the caller, as admin, and
        appends it.  `id` stands for the freshly generated id and `now` for
        the clock. */
    method CreateRoom(name: string, id: Id, now: Timestamp) returns (r: Result<Room>)
      requires Valid()
      modifies this
      ensures Valid()
      ensures userLogged == old(userLogged) && users == old(users) && onlineUsers == old(onlineUsers)
      ensures old(userLogged).None? ==> r == Err(NotAuthenticated)
      ensures old(userLogged).Some? ==> r.Ok?
      ensures r.Err? ==> unchanged(this)
      ensures r.Ok? ==>
        && fresh(r.value)
        && rooms == old(rooms) + [r.value]
        && r.value.Value() ==
             RoomValue(id, name, [], [Member(userLogged.value.id, AdminPermission)], false, now, now)
        && RoomValues(rooms) == old(RoomValues(rooms)) + [r.value.Value()]
        && PublicRoomList(rooms) == old(PublicRoomList(rooms)) + [RoomSummary(id, name)]
        && storage == old(storage).(rooms := Some(RoomValues(rooms)))
      ensures old(Consistent()) ==> Consistent()
    {
      if userLogged.None? {
        return Err(NotAuthenticated);
      }
      ghost var before := RoomValues(rooms);
      var room := new Room(RoomValue(id, name, [], [Member(userLogged.value.id, AdminPermission)], false, now, now));
      PublicRoomListAppend(rooms, room);
      rooms := rooms + [room];
      assert forall k :: 0 <= k < |before| ==> RoomValues(rooms)[k] == before[k];
      assert RoomValues(rooms) == before + [room.Value()];
      PersistRooms();
      r := Ok(room);
    }

    /** The `{id, name}` views of the public rooms, for a logged-in caller. */
    method GetRoomList() returns (r: Result<seq<RoomSummary>>)
      ensures userLogged.None? ==> r == Err(NotAuthenticated)
      ensures userLogged.Some? ==> r == Ok(PublicRoomList(rooms))
    {
      if userLogged.None? {
        return Err(NotAuthenticated);
      }
      r := Ok(PublicRoomList(rooms));
    }

    /** Appends a message by the caller to the first room with id `roomId`.
        `id` stands for the freshly generated id and `now` for the clock. */
    method CreateMessage(roomId: Id, content: string, id: Id, now: Timestamp) returns (r: Result<Message>)
      requires Valid()
      modifies this, rooms
      ensures Valid()
      ensures rooms == old(rooms) && userLogged == old(userLogged)
      ensures users == old(users) && onlineUsers == old(onlineUsers)
      ensures old(userLogged).None? ==> r == Err(NotAuthenticated)
      ensures old(userLogged).Some? && FindRoom(rooms, roomId).None? ==> r == Err(RoomNotFound)
      ensures r.Ok? <==> old(userLogged).Some? && FindRoom(rooms, roomId).Some?
      ensures r.Err? ==> unchanged(this) && RoomValues(rooms) == old(RoomValues(rooms))
      ensures r.Ok? ==>
        var k := FindRoom(rooms, roomId).value;
        && r.value == Message(id, userLogged.value.id, roomId, content, now, now, "")
        && RoomValues(rooms) ==
             old(RoomValues(rooms))[k := old(rooms[k].Value()).(messages := old(rooms[k].messages) + [r.value])]
        && storage == old(storage).(rooms := Some(RoomValues(rooms)))
      ensures r.Ok? && SessionRegistered() ==> exists u :: u in users && u.id == r.value.idUser
      ensures old(Consistent()) ==> Consistent()
    {
      if userLogged.None? {
        return Err(NotAuthenticated);
      }
      var found := FindRoom(rooms, roomId);
      if found.None? {
        return Err(RoomNotFound);
      }
      var message := Message(id, userLogged.value.id, roomId, content, now, now, "");
      ReplaceMessages(found.value, rooms[found.value].messages + [message]);
      r := Ok(message);
    }

    /** The checks made before a message is deleted, in order: a session,
        a room with id `roomId`, a message with id `messageId` in the first
        such room, and that the caller wrote it.  On success, the indices of
        that room and of that message. */
    function LocateOwnMessage(roomId: Id, messageId: Id): (r: Result<(nat, nat)>)
      reads this, rooms
      ensures userLogged.None? ==> r == Err(NotAuthenticated)
      ensures userLogged.Some? && FindRoom(rooms, roomId).None? ==> r == Err(RoomNotFound)
      ensures userLogged.Some? && FindRoom(rooms, roomId).Some? ==>
        var messages := rooms[FindRoom(rooms, roomId).value].messages;
        var found := FindMessage(messages, messageId);
        && (found.None? ==> r == Err(MessageNotFound))
        && (found.Some? && messages[found.value].idUser != userLogged.value.id ==> r == Err(NotAuthorized))
      ensures r.Ok? ==>
        var (k, i) := r.value;
        && userLogged.Some?
        && FindRoom(rooms, roomId) == Some(k)
        && FindMessage(rooms[k].messages, messageId) == Some(i)
        && rooms[k].messages[i].idUser == userLogged.value.id
      ensures r.Ok? <==>
        && userLogged.Some?
        && FindRoom(rooms, roomId).Some?
        && FindMessage(rooms[FindRoom(rooms, roomId).value].messages, messageId).Some?
        && rooms[FindRoom(rooms, roomId).value].messages[
             FindMessage(rooms[FindRoom(rooms, roomId).value].messages, messageId).value].idUser
           == userLogged.value.id
    {
      if userLogged.None? then Err(NotAuthenticated)
      else match FindRoom(rooms, roomId)
        case None => Err(RoomNotFound)
        case Some(k) =>
          match FindMessage(rooms[k].messages, messageId)
          case None => Err(MessageNotFound)
          case Some(i) =>
            if rooms[k].messages[i].idUser != userLogged.value.id then Err(NotAuthorized)
            else Ok((k, i))
    }

    /** Deletes a message of the first room with id `roomId`, provided the
        caller wrote it, and returns it.  Every message of that room with
        the same id goes. */
    method DeleteMessage(roomId: Id, messageId: Id) returns (r: Result<Message>)
      requires Valid()
      modifies this, rooms
      ensures Valid()
      ensures rooms == old(rooms) && userLogged == old(userLogged)
      ensures users == old(users) && onlineUsers == old(onlineUsers)
      ensures old(LocateOwnMessage(roomId, messageId)).Err? ==>
                r == Err(old(LocateOwnMessage(roomId, messageId)).error)
      ensures r.Ok? <==> old(LocateOwnMessage(roomId, messageId)).Ok?
      ensures r.Err? ==> unchanged(this) && RoomValues(rooms) == old(RoomValues(rooms))
      ensures r.Ok? ==>
        var (k, i) := old(LocateOwnMessage(roomId, messageId)).value;
        var messages := old(rooms[k].messages);
        && r.value == messages[i]
        && rooms[k].messages == WithoutMessage(messages, messageId)
        && RoomValues(rooms) == old(RoomValues(rooms))[k := old(rooms[k].Value()).(messages := rooms[k].messages)]
        && (forall m :: m in messages && m !in rooms[k].messages ==> m.id == messageId)
        && (MessageIdsUnique(messages) ==> rooms[k].messages == messages[..i] + messages[i + 1..])
        && storage == old(storage).(rooms := Some(RoomValues(rooms)))
      ensures r.Ok? ==> r.value.idUser == userLogged.value.id && r.value.id == messageId
      ensures old(Consistent()) ==> Consistent()
    {
      var located := LocateOwnMessage(roomId, messageId);
      if located.Err? {
        return Err(located.error);
      }
      var (k, i) := located.value;
      var room := rooms[k];
      var message := room.messages[i];
      if MessageIdsUnique(room.messages) {
        WithoutMessageAt(room.messages, i);
      }
      ReplaceMessages(k, WithoutMessage(room.messages, messageId));
      r := Ok(message);
    }
  }
}
