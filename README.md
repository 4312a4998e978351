# AppDiscord: a verified model of an in-process session and chat-state store

`AppDiscord` (in `src/app.ts`) keeps four collections:
- the logged-in user: a `{username, id}` projection, or null;
- the user registry;
- the chat rooms, each with an ordered list of messages;
- the ids of the users who are online in this process.

Every public operation does three things in order:
1. It checks its preconditions: logged in or not, super-admin or not, room found, message found, caller is the author.
2. It raises a specific error when a check fails.
3. Otherwise it replaces the affected collections and writes the changed ones to the browser's key-value store.

The model is written in Dafny:

- `Types` (`types.dfy`): the records the store works on.
  - `User`, `Session` (the projection without password), `Member`, `Message`.
  - `RoomValue` (a room as written to the durable store) and `RoomSummary`.
  - `Store`: the contents of the durable store under its keys `userLogged`, `rooms` and `users`.
  - The error kinds, and the constants for the built-in super-admin.
  - `Room` is a class. `createMessage` and `deleteMessage` replace `room.messages` in place, on the room object that `find` returns from inside the room list. Its other fields never change and are `const`.
- `Lookups` (`lookups.dfy`): the pure reads, which are the `some`, `find`, `filter` and `map` calls of the source. Also the lemmas the operations rely on:
  - a signed-up user is the one a login finds;
  - usernames stay unique, and ids stay unique when the new id is unused;
  - the filters keep order and distribute over concatenation;
  - the public room list grows by exactly the new room's view;
  - creating a message and then deleting it restores the room's messages.
- `App` (`app.dfy`): the class `AppDiscord`.
  - Its fields are `userLogged`, `rooms`, `users`, `onlineUsers` and `storage`. `storage` is what the durable store holds; it is written at the same points as the source's `localStorage.setItem` calls.
  - `Valid()` is the object invariant. Each room object is listed once. The online list is empty, or it is exactly `[id of the logged-in user]`.
  - `SessionRegistered()` says the session, if any, is the `{username, id}` projection of a user in the registry. `Signup` and `Login` establish it, and every other operation preserves it. So the author of a newly created message is a registered user.
  - `Consistent()` adds that the durable store agrees with the object: the store yields this registry, and the session it holds is registered too. The constructor establishes it for a store that is consistent in the same sense, and every operation preserves it.
  - Each operation is a method. Its postcondition gives:
    - the error it returns for each failed check, in the source's order;
    - that a failed call changes nothing, the durable store included;
    - the exact new value of every collection, and of the durable store, on success.
- `Scenarios` (`scenarios.dfy`): client methods whose assertions about short usage scenarios follow from the operations' contracts alone:
  - signup logs in, so a second login fails;
  - only the super-admin can list users;
  - a duplicate username is refused;
  - a new room appears in the room list;
  - a non-author cannot delete a message;
  - the author can delete one.

Fresh ids (`Math.random().toString()`) and clock readings (`new Date()`) are method parameters. The source does not guarantee that ids are unique, so the model does not assume it either. Username uniqueness needs no hypothesis, because `signup` checks for a taken username. Id uniqueness is stated under the hypothesis that the new id is unused.

Three behaviours of the source a reader may not expect:
- `signup` persists the session first, inside its call to `login`, and only then persists the user list (src/app.ts:57-58).
- `logout` writes nothing to the durable store (src/app.ts:75-81). The stored `userLogged` entry therefore still holds the old session after logout, and `Logout`'s contract says so (`storage == old(storage)`).
- The online users are a list that `login` appends to and `logout` filters. The invariant `Valid()` shows the list never holds more than the logged-in user's id.

## Model

| member | source | states |
|---|---|---|
| `App.AppDiscord.constructor` | src/app.ts:4-37 | each collection is loaded from the durable store if its key is present, else defaulted: no session, no rooms, the single seeded super-admin `secret-id`/`riccardogenova`/`12345`; nobody online; the room objects are fresh and pairwise distinct; when the stored session is the projection of a user of the stored registry, `Consistent()` holds |
| `Types.LoadedUsers` | src/app.ts:12-22 | the registry read at load is the store's `users` entry when it is present, else exactly one user, the super-admin `secret-id` |
| `Types.Room.constructor` | src/app.ts:105-113 | a room object whose value is exactly the given room: used for the room literal of `createRoom` and for each room parsed from the store at load (src/app.ts:9) |
| `Lookups.UserExists` | src/app.ts:39-42 | true exactly when some user in the registry has the given username |
| `App.AppDiscord.CheckIsSuperAdmin` | src/app.ts:43-47 | fails with NotAuthenticated exactly when there is no session; otherwise true iff the session's id is the reserved `secret-id` |
| `App.AppDiscord.Signup` | src/app.ts:48-61 | AlreadyAuthenticated with a session, else DuplicateUsername when the username is taken, and then nothing changes; otherwise exactly one user `{id, username, password}` is appended, that user is logged in and online, the result is its projection, the store's `userLogged` and `users` entries are rewritten; unique usernames stay unique, unique ids stay unique when the new id is unused; on success the session is the projection of a registered user, and `Consistent()` is preserved |
| `Lookups.NewUserIsFound` | src/app.ts:51-57 | after appending a user whose username was free, the login lookup with its credentials finds exactly that new user |
| `Lookups.AppendKeepsUnique` | src/app.ts:51-55 | appending a user with a free username keeps usernames unique, and with an unused id keeps ids unique |
| `Lookups.FindFirst` | src/app.ts:65 | the index of the first element satisfying the predicate, and none exactly when no element does: the semantics of `Array.prototype.find` used by login, createMessage and deleteMessage |
| `Types.Project` | src/app.ts:68-72 | the session is the user's `{username, id}`, without the password |
| `Lookups.FindUser` | src/app.ts:65 | returns the index of the first user matching both username and password, or none exactly when no user matches |
| `App.AppDiscord.Login` | src/app.ts:62-74 | AlreadyAuthenticated with a session, else InvalidCredentials when no user matches, and then nothing changes; otherwise the session becomes the projection of the first matching user, its id is appended to the online list, the store's `userLogged` entry is rewritten, users and rooms are unchanged, and the result equals the new session; on success the session is the projection of a registered user, and `Consistent()` is preserved |
| `App.AppDiscord.Logout` | src/app.ts:75-81 | NotAuthenticated without a session, changing nothing; otherwise the session is cleared, every occurrence of the user's id leaves the online list (which becomes empty), and users, rooms and the durable store are unchanged; `Consistent()` is preserved |
| `Lookups.WithoutId` | src/app.ts:78 | the result holds exactly the ids of the input other than the removed one, and is no longer |
| `Lookups.WithoutIdAppend` | src/app.ts:78 | the logout filter distributes over concatenation, so it keeps the remaining ids in their order |
| `Lookups.WithoutAbsentId` | src/app.ts:78 | filtering out an id that is not in the list returns the list unchanged |
| `App.AppDiscord.GetUserLogged` | src/app.ts:82-84 | returns the current session projection (or none) and never fails |
| `App.AppDiscord.GetOnlineUsers` | src/app.ts:85-89 | NotAuthenticated without a session; otherwise the online list, which holds at most the caller's own id |
| `App.AppDiscord.GetAllUsers` | src/app.ts:91-95 | NotAuthenticated without a session, NotAuthorized when the session id is not `secret-id`, otherwise the whole registry; no state changes |
| `App.AppDiscord.GetAllRooms` | src/app.ts:96-100 | NotAuthenticated without a session, NotAuthorized when the session id is not `secret-id`, otherwise all rooms, private ones included; no state changes |
| `App.AppDiscord.CreateRoom` | src/app.ts:101-118 | NotAuthenticated without a session, changing nothing; otherwise one fresh room is appended with the given id and name, no messages, the caller as sole `admin` member, `private` false and both timestamps `now`; earlier rooms keep their values, the public list grows by exactly `{id, name}`, the store's `rooms` entry is rewritten; `Consistent()` is preserved |
| `Types.RoomValues` | src/app.ts:116 | the values of the rooms, one per room and in order, as written to the durable store |
| `App.AppDiscord.PersistRooms` | src/app.ts:116 | only the store's `rooms` entry changes, and it becomes the current values of the rooms |
| `Lookups.PublicRoomList` | src/app.ts:123-124 | no longer than the room list, and holds the `{id, name}` of every room that is not private |
| `Lookups.PublicRoomListSound` | src/app.ts:123-124 | every entry of the public list is the `{id, name}` of some room that is not private |
| `Lookups.PublicRoomListAppend` | src/app.ts:119-126 | appending a room extends the public list by that room's `{id, name}` at the end exactly when the room is not private |
| `App.AppDiscord.GetRoomList` | src/app.ts:119-126 | NotAuthenticated without a session; otherwise the public list of the rooms, in room order; no state changes |
| `Lookups.FindRoom` | src/app.ts:130 | returns the index of the first room with the id, or none exactly when no room has it |
| `App.AppDiscord.ReplaceMessages` | src/app.ts:141-142 | the chosen room gets the new message list, every other room keeps its value, and the store's `rooms` entry is rewritten |
| `App.AppDiscord.CreateMessage` | src/app.ts:127-144 | NotAuthenticated, then RoomNotFound, and then nothing changes; otherwise the message `{id, caller, roomId, content, now, now, ""}` is appended to the first room with that id, every other room and all other collections are unchanged, the store's `rooms` entry is rewritten; when the session is registered, the new message's author is a registered user; `Consistent()` is preserved |
| `Lookups.FindMessage` | src/app.ts:153 | returns the index of the first message with the id, or none exactly when no message has it |
| `Lookups.WithoutMessage` | src/app.ts:157 | the result holds exactly the messages of the input whose id differs from the removed one |
| `Lookups.WithoutMessageAppend` | src/app.ts:157 | the deletion filter distributes over concatenation, so the remaining messages keep their order |
| `Lookups.WithoutMessageNoMatch` | src/app.ts:157 | deleting an id that no message has leaves the messages unchanged |
| `Lookups.WithoutMessageSplit` | src/app.ts:157 | deleting the id of a message that no message before or after it shares removes exactly that message |
| `Lookups.WithoutMessageAt` | src/app.ts:153-157 | when message ids are unique, deleting the found message's id removes that message and nothing else |
| `App.AppDiscord.LocateOwnMessage` | src/app.ts:147-156 | the checks of `deleteMessage` in order: NotAuthenticated, RoomNotFound, MessageNotFound, NotAuthorized; on success the indices of the first room with the id, of the first message with the id in it, and that message was written by the caller; `Ok` exactly when all four checks pass |
| `App.AppDiscord.DeleteMessage` | src/app.ts:146-162 | NotAuthenticated, then RoomNotFound, then MessageNotFound, then NotAuthorized when the first message with that id was written by someone else, and every failure changes nothing; otherwise the messages with that id leave that room only, the result is the found message (written by the caller), every removed message has that id, with unique ids only that message goes, the store's `rooms` entry is rewritten; `Consistent()` is preserved |
| `Lookups.CreateThenDelete` | src/app.ts:127-160 | appending a message with an id the room does not hold and then deleting that id gives back the room's messages as they were |

## Left out

- Browser storage and JSON are modelled by values. `localStorage.getItem`/`setItem` and `JSON.parse`/`JSON.stringify` become the `Store` datatype: an entry is absent (`None`) or holds a well-formed value. Serialisation, malformed or empty stored strings, and date fields read back as strings are not modelled.
- `console.log` calls are output only and are left out.
- Id generation by `Math.random().toString()` is left out. Ids are parameters, and the model does not assume they are fresh. Because of this, id uniqueness is stated with an unused id as a hypothesis. Username uniqueness needs none.
- `new Date()` is left out. Each operation takes one `now` parameter and uses it for both `createdAt` and `updatedAt`. The source reads the clock twice, so its two values could differ by a millisecond.
- The record types of `./declarations` are not part of this model. Only the fields the store uses are reconstructed.
- Exceptions become `Err` results that carry an error kind. Their message text is not modelled.
- Aliasing of returned objects is not captured. The model returns values wherever the source returns collections or records that it keeps. Rooms are the exception: they are objects shared with callers, as in the source. The cases left out:
  - `getOnlineUsers` and `getAllUsers` return the arrays held inside the store, so a caller could mutate them.
  - `getUserLogged` returns the `#userLogged` object itself (src/app.ts:83). A caller could set its `id` to `secret-id`. It would then pass the super-admin check (src/app.ts:45), and it would change whose messages `deleteMessage` allows it to delete (src/app.ts:156).
  - `getAllRooms` returns the `#rooms` array itself (src/app.ts:99). A caller could push or splice rooms, including a second copy of a room object that is already listed, which `Valid()` rules out.
  - `createMessage` and `deleteMessage` return message objects that still live in some `room.messages` (src/app.ts:141, 143, 153, 160). A caller could rewrite their `idUser`.
  - A caller could reassign a room's fields other than `messages`. The model treats those fields as fixed.
- `localStorage` is one store shared by every `AppDiscord` on the page. `storage` is a field of each object, so writes by one instance are not seen by another.
- App.AppDiscord.DeleteMessage: the filter removes every message with the given id. When ids collide, that can include messages by other authors, so the guarantee that only the caller's message goes is stated only for rooms whose message ids are unique.
