/** Clients of the store whose assertions about short usage scenarios
    follow from the operations' contracts alone. */
module Scenarios {
  import opened Types
  import opened Lookups
  import opened App

  /** Signup logs the new user in, so a login straight after it fails;
      only the super-admin may list all users, and the list then holds the
      seeded super-admin and the new user. */
  method SignupThenAdminListing() {
    var app := new AppDiscord(Store(None, None, None));
    var alice := app.Signup("alice", "pw1", "alice-id");
    assert alice == Ok(Session("alice", "alice-id"));
    var again := app.Login("alice", "pw1");
    assert again == Err(AlreadyAuthenticated);
    var denied := app.GetAllUsers();
    assert denied == Err(NotAuthorized);

    var out := app.Logout();
    assert out.Ok?;
    var nobody := app.GetUserLogged();
    assert nobody == None;
    var admin := app.Login("riccardogenova", "12345");
    assert admin == Ok(Session("riccardogenova", SuperAdminId));
    var online := app.GetOnlineUsers();
    assert online == Ok([SuperAdminId]);
    var everyone := app.GetAllUsers();
    assert everyone == Ok(DefaultUsers + [User("alice-id", "alice", "pw1")]);
  }

  /** A second signup with a taken username fails and adds nobody. */
  method DuplicateSignup() {
    var app := new AppDiscord(Store(None, None, None));
    var first := app.Signup("bob", "pw", "bob-1");
    assert first.Ok?;
    var out := app.Logout();
    assert out.Ok?;
    var second := app.Signup("bob", "other", "bob-2");
    assert second == Err(DuplicateUsername);
    assert app.users == DefaultUsers + [User("bob-1", "bob", "pw")];
  }

  /** A room just created by a logged-in user is in the public room list. */
  method CreatedRoomIsListed() {
    var app := new AppDiscord(Store(None, None, None));
    var alice := app.Signup("alice", "pw1", "alice-id");
    assert alice.Ok?;
    var room := app.CreateRoom("general", "room-1", 1);
    assert room.Ok? && app.rooms == [room.value];
    assert !room.value.isPrivate && [] + [room.value] == [room.value];
    PublicRoomListAppend([], room.value);
    assert PublicRoomList([]) == [];
    assert PublicRoomList(app.rooms) == [RoomSummary(room.value.id, room.value.name)];
    assert app.userLogged.Some?;
    var list := app.GetRoomList();
    assert list == Ok([RoomSummary(room.value.id, room.value.name)]);
  }

  /** Another user cannot delete a message, and the message stays.  The
      room and its message are loaded from the durable store. */
  method NonAuthorCannotDelete() {
    var hello := Message("msg-1", "alice-id", "room-1", "hello", 2, 2, "");
    var general := RoomValue("room-1", "general", [hello], [Member("alice-id", AdminPermission)], false, 1, 1);
    var app := new AppDiscord(Store(None, Some([general]), None));
    var loaded := app.rooms;
    assert |loaded| == 1 && loaded[0].Value() == general && fresh(loaded[0]);
    var bob := app.Signup("bob", "pw2", "bob-id");
    assert bob.Ok? && app.rooms == loaded;
    var denied := app.DeleteMessage("room-1", "msg-1");
    assert denied == Err(NotAuthorized);
    assert app.rooms[0].messages == [hello];
  }

  /** The author can delete a message, which returns it and leaves the
      room's messages as they were before it was posted.  The room is
      loaded from the durable store. */
  method AuthorDeletes() {
    var general := RoomValue("room-1", "general", [], [], false, 1, 1);
    var app := new AppDiscord(Store(None, Some([general]), None));
    var room := app.rooms[0];
    var alice := app.Signup("alice", "pw1", "alice-id");
    assert alice.Ok? && app.rooms == [room] && room.messages == [];
    var message := app.CreateMessage("room-1", "hello", "msg-1", 2);
    assert message == Ok(Message("msg-1", "alice-id", "room-1", "hello", 2, 2, ""));
    assert room.messages == [message.value];

    var deleted := app.DeleteMessage("room-1", "msg-1");
    assert deleted == Ok(message.value);
    CreateThenDelete([], message.value);
    assert room.messages == [];
  }
}
