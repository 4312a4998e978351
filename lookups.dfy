/** The pure reads the store performs on its collections: the `some`,
    `find`, `filter` and `map` lookups, with the facts the operations rely on. */
module Lookups {
  import opened Types

  // ----- users ------------------------------------------------------------

  /** Whether some user already has `username` (the signup check). */
  function UserExists(users: seq<User>, username: string): (b: bool)
    ensures b <==> exists i :: 0 <= i < |users| && users[i].username == username
  {
    if users == [] then false
    else if users[0].username == username then true
    else
      var b := UserExists(users[1..], username);
      assert b ==> exists i :: 0 <= i < |users[1..]| && users[1..][i].username == username;
      b
  }

  /** Whether `u` carries exactly these credentials. */
  predicate HasCredentials(u: User, username: string, password: string) {
    u.username == username && u.password == password
  }

  /** The index of the first element of `s` that satisfies `p`, if any:
      the `find` lookup. */
  function FindFirst<T>(s: seq<T>, p: T -> bool): (r: Option<nat>)
    ensures r.Some? ==> r.value < |s| && p(s[r.value])
    ensures r.Some? ==> forall j :: 0 <= j < r.value ==> !p(s[j])
    ensures r.None? <==> forall j :: 0 <= j < |s| ==> !p(s[j])
  {
    if s == [] then None
    else if p(s[0]) then Some(0)
    else match FindFirst(s[1..], p)
      case None => None
      case Some(k) => Some(k + 1)
  }

  /** The index of the first user with these credentials, if any. */
  function FindUser(users: seq<User>, username: string, password: string): (r: Option<nat>)
    ensures r.Some? ==> r.value < |users| && HasCredentials(users[r.value], username, password)
    ensures r.Some? ==> forall j :: 0 <= j < r.value ==> !HasCredentials(users[j], username, password)
    ensures r.None? <==> forall j :: 0 <= j < |users| ==> !HasCredentials(users[j], username, password)
  {
    FindFirst(users, (u: User) => HasCredentials(u, username, password))
  }

  /** No two users share a username. */
  ghost predicate UsernamesUnique(users: seq<User>) {
    forall i, j :: 0 <= i < j < |users| ==> users[i].username != users[j].username
  }

  /** No two users share an id. */
  ghost predicate UserIdsUnique(users: seq<User>) {
    forall i, j :: 0 <= i < j < |users| ==> users[i].id != users[j].id
  }

  /** Whether some user already has id `id`. */
  ghost predicate UserIdUsed(users: seq<User>, id: Id) {
    exists i :: 0 <= i < |users| && users[i].id == id
  }

  /** `session` is the projection of some user of the registry. */
  ghost predicate Registered(users: seq<User>, session: Session) {
    exists u :: u in users && Project(u) == session
  }

  /** The session a store holds, if any, is that of a user the same store
      holds (or of the seeded super-admin when it holds no users). */
  ghost predicate StoreConsistent(saved: Store) {
    saved.userLogged.Some? ==> Registered(LoadedUsers(saved), saved.userLogged.value)
  }

  /** A user whose username is not yet taken is, once appended, the first
      (and only) user a login with its credentials finds. */
  lemma {:induction false} NewUserIsFound(users: seq<User>, u: User)
    requires !UserExists(users, u.username)
    ensures FindUser(users + [u], u.username, u.password) == Some(|users|)
  {
    var all := users + [u];
    assert HasCredentials(all[|users|], u.username, u.password);
    forall j | 0 <= j < |users|
      ensures !HasCredentials(all[j], u.username, u.password)
    {
      assert all[j] == users[j];
    }
  }

  /** Appending a user whose username is not taken keeps usernames unique;
      appending one whose id is unused keeps ids unique. */
  lemma {:induction false} AppendKeepsUnique(users: seq<User>, u: User)
    requires !UserExists(users, u.username)
    ensures UsernamesUnique(users) ==> UsernamesUnique(users + [u])
    ensures UserIdsUnique(users) && !UserIdUsed(users, u.id) ==> UserIdsUnique(users + [u])
  {
  }

  // ----- online users -----------------------------------------------------

  /** `ids` with every occurrence of `id` removed: the logout filter. */
  function WithoutId(ids: seq<Id>, id: Id): (r: seq<Id>)
    ensures |r| <= |ids|
    ensures forall x :: x in r <==> x in ids && x != id
  {
    if ids == [] then []
    else if ids[0] == id then WithoutId(ids[1..], id)
    else [ids[0]] + WithoutId(ids[1..], id)
  }

  /** The filter keeps the order of what it keeps: it distributes over
      concatenation. */
  lemma {:induction false} WithoutIdAppend(a: seq<Id>, b: seq<Id>, id: Id)
    ensures WithoutId(a + b, id) == WithoutId(a, id) + WithoutId(b, id)
  {
    if a != [] {
      assert (a + b)[1..] == a[1..] + b;
      WithoutIdAppend(a[1..], b, id);
    } else {
      assert a + b == b;
    }
  }

  /** Removing an id that is not there changes nothing. */
  lemma {:induction false} WithoutAbsentId(ids: seq<Id>, id: Id)
    requires id !in ids
    ensures WithoutId(ids, id) == ids
  {
    if ids != [] {
      assert ids[0] in ids;
      WithoutAbsentId(ids[1..], id);
      assert ids == [ids[0]] + ids[1..];
    }
  }

  // ----- rooms ------------------------------------------------------------

  /** The index of the first room with id `roomId`, if any. */
  function FindRoom(rooms: seq<Room>, roomId: Id): (r: Option<nat>)
    ensures r.Some? ==> r.value < |rooms| && rooms[r.value].id == roomId
    ensures r.Some? ==> forall j :: 0 <= j < r.value ==> rooms[j].id != roomId
    ensures r.None? <==> forall j :: 0 <= j < |rooms| ==> rooms[j].id != roomId
  {
    FindFirst(rooms, (room: Room) => room.id == roomId)
  }

  /** The `{id, name}` views of the rooms that are not private, in order. */
  function PublicRoomList(rooms: seq<Room>): (r: seq<RoomSummary>)
    ensures |r| <= |rooms|
    ensures forall k :: 0 <= k < |rooms| && !rooms[k].isPrivate ==>
              RoomSummary(rooms[k].id, rooms[k].name) in r
  {
    if rooms == [] then []
    else
      var rest := PublicRoomList(rooms[1..]);
      assert forall k :: 1 <= k < |rooms| ==> rooms[k] == rooms[1..][k - 1];
      if rooms[0].isPrivate then rest
      else [RoomSummary(rooms[0].id, rooms[0].name)] + rest
  }

  /** Every entry of the public list is the view of a public room. */
  lemma {:induction false} PublicRoomListSound(rooms: seq<Room>, s: RoomSummary)
    requires s in PublicRoomList(rooms)
    ensures exists k :: 0 <= k < |rooms| && !rooms[k].isPrivate && s == RoomSummary(rooms[k].id, rooms[k].name)
  {
    if s != RoomSummary(rooms[0].id, rooms[0].name) || rooms[0].isPrivate {
      PublicRoomListSound(rooms[1..], s);
      var k :| 0 <= k < |rooms[1..]| && !rooms[1..][k].isPrivate && s == RoomSummary(rooms[1..][k].id, rooms[1..][k].name);
      assert rooms[k + 1] == rooms[1..][k];
    }
  }

  /** Appending a room extends the public list by that room's view exactly
      when the room is not private. */
  lemma {:induction false} PublicRoomListAppend(rooms: seq<Room>, room: Room)
    ensures PublicRoomList(rooms + [room]) ==
            PublicRoomList(rooms) + (if room.isPrivate then [] else [RoomSummary(room.id, room.name)])
  {
    if rooms == [] {
      assert rooms + [room] == [room];
    } else {
      assert (rooms + [room])[1..] == rooms[1..] + [room];
      PublicRoomListAppend(rooms[1..], room);
    }
  }

  // ----- messages ---------------------------------------------------------

  /** The index of the first message with id `messageId`, if any. */
  function FindMessage(messages: seq<Message>, messageId: Id): (r: Option<nat>)
    ensures r.Some? ==> r.value < |messages| && messages[r.value].id == messageId
    ensures r.Some? ==> forall j :: 0 <= j < r.value ==> messages[j].id != messageId
    ensures r.None? <==> forall j :: 0 <= j < |messages| ==> messages[j].id != messageId
  {
    FindFirst(messages, (m: Message) => m.id == messageId)
  }

  /** `messages` with every message whose id is `messageId` removed: the
      deletion filter. */
  function WithoutMessage(messages: seq<Message>, messageId: Id): (r: seq<Message>)
    ensures |r| <= |messages|
    ensures forall m :: m in r <==> m in messages && m.id != messageId
  {
    if messages == [] then []
    else if messages[0].id == messageId then WithoutMessage(messages[1..], messageId)
    else [messages[0]] + WithoutMessage(messages[1..], messageId)
  }

  /** No two messages of a room share an id. */
  ghost predicate MessageIdsUnique(messages: seq<Message>) {
    forall i, j :: 0 <= i < j < |messages| ==> messages[i].id != messages[j].id
  }

  /** The deletion filter distributes over concatenation. */
  lemma {:induction false} WithoutMessageAppend(a: seq<Message>, b: seq<Message>, messageId: Id)
    ensures WithoutMessage(a + b, messageId) == WithoutMessage(a, messageId) + WithoutMessage(b, messageId)
  {
    if a != [] {
      assert (a + b)[1..] == a[1..] + b;
      WithoutMessageAppend(a[1..], b, messageId);
    } else {
      assert a + b == b;
    }
  }

  /** When message ids are unique, deleting the message at index `k` by its
      id removes that message and nothing else. */
  lemma {:induction false} WithoutMessageAt(messages: seq<Message>, k: nat)
    requires MessageIdsUnique(messages)
    requires k < |messages|
    ensures WithoutMessage(messages, messages[k].id) == messages[..k] + messages[k + 1..]
  {
    var before, after := messages[..k], messages[k + 1..];
    assert messages == before + [messages[k]] + after;
    forall m | m in before ensures m.id != messages[k].id {
      var j :| 0 <= j < |before| && before[j] == m;
      assert m == messages[j];
    }
    forall m | m in after ensures m.id != messages[k].id {
      var j :| 0 <= j < |after| && after[j] == m;
      assert m == messages[k + 1 + j];
    }
    WithoutMessageSplit(before, messages[k], after);
  }

  /** Deleting the id of a message whose id no message around it has
      removes exactly that message. */
  lemma {:induction false} WithoutMessageSplit(before: seq<Message>, m: Message, after: seq<Message>)
    requires forall x :: x in before ==> x.id != m.id
    requires forall x :: x in after ==> x.id != m.id
    ensures WithoutMessage(before + [m] + after, m.id) == before + after
  {
    calc {
      WithoutMessage(before + [m] + after, m.id);
      { WithoutMessageAppend(before + [m], after, m.id); }
      WithoutMessage(before + [m], m.id) + WithoutMessage(after, m.id);
      { WithoutMessageAppend(before, [m], m.id); }
      WithoutMessage(before, m.id) + WithoutMessage([m], m.id) + WithoutMessage(after, m.id);
      { assert [m][1..] == []; }
      WithoutMessage(before, m.id) + [] + WithoutMessage(after, m.id);
      { WithoutMessageNoMatch(before, m.id); WithoutMessageNoMatch(after, m.id); }
      before + [] + after;
    }
    assert before + [] + after == before + after;
  }

  /** Deleting an id no message has changes nothing. */
  lemma {:induction false} WithoutMessageNoMatch(messages: seq<Message>, messageId: Id)
    requires forall m :: m in messages ==> m.id != messageId
    ensures WithoutMessage(messages, messageId) == messages
  {
    if messages != [] {
      assert messages[0] in messages;
      assert forall m :: m in messages[1..] ==> m in messages;
      WithoutMessageNoMatch(messages[1..], messageId);
      assert messages == [messages[0]] + messages[1..];
    }
  }

  /** Creating a message with an id no message of the room has and then
      deleting it gives back the room's messages as they were. */
  lemma {:induction false} CreateThenDelete(messages: seq<Message>, m: Message)
    requires FindMessage(messages, m.id).None?
    ensures WithoutMessage(messages + [m], m.id) == messages
  {
    WithoutMessageAppend(messages, [m], m.id);
    assert forall x :: x in messages ==> x.id != m.id;
    WithoutMessageNoMatch(messages, m.id);
  }
}
