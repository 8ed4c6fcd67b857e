# golf-cord score rooms, modelled in Dafny

golf-cord is a shared golf scorecard. A room has a generated name, holes, and users
who join the room by name. Each user holds one score row per hole. The server keeps
rooms, users, holes and score rows in a database and deletes data that has not been
touched for 16 hours. The client holds a `{holes, players}` state and updates it
through a reducer.

The model has five modules:

- `Wrappers` (wrappers.dfy): `Option` and `Result`.
- `Tables` (tables.dfy): the four record types and the pure table operations the
  queries are built from. These are lookup of the first match, relation filters, the
  `lastAccessed` cutoff, the sort by hole number, and the (user, hole) cross product.
  The lemmas about them come with it: sweep idempotence, table order, ids and unique
  names kept by filtering, sortedness and permutation, the cross product's size,
  positions, members and distinct pairs, and "filling missing score rows twice
  creates nothing the second time".
- `Db` (db.dfy): server/db.ts. The database is a class `Store` with one sequence
  field per table and one auto-increment counter per table. Every exported function
  is a method (when it writes) or a function (when it only reads). Its invariant
  `Valid` says that ids are strictly increasing below the table's counter and that
  room names are unique.
- `Server` (server.dfy): server/index.ts. It holds the room-name formatting of
  `/create-room`, its retry loop against the store, the `join-room` handler with its
  own `addUserToRoom`, and the hourly sweep.
- `RoomReducer` (reducer.dfy): react-front-end/src/utils/room-reducer.ts. A state is
  `null` or a `ScoreState` object whose players each own a mutable `array<int>` of
  scores. The reducer writes into the first player's array in place. Because its
  copy is shallow, the write is visible through the input state as well.

Modelling choices:

- Time is an integer number of milliseconds and is passed in as `now`.
- A created row is stamped `lastAccessed == now`, the column default.
- A Prisma `update` of a missing row throws and changes nothing. The model returns
  a failure outcome (`false`, `None` or `Err`) with the store unchanged.
- The random words of `faker.random.words(3)` are a sequence of draws given as a
  parameter.
- Concurrent steps (`Promise.all`, `Promise.allSettled`) run one after another in
  program order.

## Model

| member | source | states |
|---|---|---|
| Tables.IndexOf | server/db.ts:28-32 | the first row whose column equals the key, and None exactly when no row matches (`findUnique`/`findFirst`/`find`) |
| Tables.Where | server/db.ts:61-70 | a relation filter keeps exactly the rows whose column equals the key, and is no longer than the table |
| Tables.Newer | server/db.ts:10-24 | `deleteMany` with `lte: cutoff` keeps exactly the rows accessed strictly after the cutoff |
| Tables.FilterKeepsOrder | server/db.ts:61-70 | a filter's result is `s` with rows left out: each kept row comes from a position of `s`, and the positions increase |
| Tables.WhereKeepsOrder | server/db.ts:61-70 | a relation filter keeps the table order of the rows it keeps |
| Tables.NewerKeepsOrder | server/db.ts:10-24 | a sweep keeps the table order of the rows it keeps |
| Tables.FilterIdempotent | server/db.ts:10-24 | filtering twice with the same predicate equals filtering once |
| Tables.SweepIdempotent | server/db.ts:10-24 | a second sweep at the same cutoff deletes nothing more |
| Tables.FilterKeepsAutoIncrement | server/db.ts:10-24 | deleting rows keeps ids strictly increasing and below the counter |
| Tables.FilterKeepsUnique | server/db.ts:18-24 | deleting rows keeps a unique column unique |
| Tables.WhereKeepsAutoIncrement | server/db.ts:114-118 | a room's users (or holes) still have ids strictly increasing and below the counter |
| Tables.AutoIncrementUnique | server/db.ts:38-44 | auto-increment ids are pairwise distinct |
| Tables.NewerKeepsAutoIncrement | server/db.ts:10-24 | a sweep keeps ids strictly increasing and below the counter |
| Tables.NewerKeepsUnique | server/db.ts:18-24 | a sweep of rooms keeps room names unique |
| Tables.InsertByNumber | server/db.ts:109-113 | inserting a hole adds exactly that hole to the multiset of holes |
| Tables.InsertByNumberBound | server/db.ts:109-113 | a lower bound on the numbers of the hole and of the sequence bounds the result |
| Tables.InsertByNumberSorted | server/db.ts:109-113 | inserting into holes sorted by number keeps them sorted |
| Tables.SortByNumber | server/db.ts:109-113 | `orderBy: { number: 'asc' }`: the result is sorted by number and is a permutation of the input |
| Tables.InsertByNumberKeepsUnique | server/db.ts:109-113 | inserting a hole whose id no row has keeps hole ids pairwise distinct |
| Tables.SortByNumberKeepsUnique | server/db.ts:109-113 | sorting by number keeps hole ids pairwise distinct |
| Tables.RowKeys | server/db.ts:76-81 | the inner loop yields one `(user, hole)` pair per hole, in hole order |
| Tables.CrossKeysLength | server/db.ts:75-82 | the nested loops yield `|users| * |holes|` pairs |
| Tables.CrossKeysAt | server/db.ts:75-82 | pair number `i * |holes| + j` is user `i` with hole `j` (user-major order) |
| Tables.CrossKeysMembers | server/db.ts:75-82 | a pair occurs exactly when it joins one of the users with one of the holes |
| Tables.CrossKeysUnique | server/db.ts:132-133 | users with distinct ids against holes with distinct ids give no (user, hole) pair twice |
| Tables.UnscoredKeepsUnique | server/db.ts:134-137 | the pairs still missing a row repeat no pair when the input repeats none |
| Tables.Unscored | server/db.ts:134-147 | the pairs with no existing score row: exactly those pairs of the input for which the lookup finds nothing |
| Tables.NewScores | server/db.ts:84-86 | created score rows get consecutive ids from the counter, the pair's user and hole, a null score and `lastAccessed == now` |
| Tables.FillingIsIdempotent | server/db.ts:132-151 | after the missing rows are created, no pair is missing any more, so a second pass creates nothing |
| Tables.AppendKeepsAutoIncrement | server/db.ts:38-44 | appending a row with the counter's id and moving the counter on keeps ids increasing |
| Tables.AppendNewScoresKeepsAutoIncrement | server/db.ts:84-86 | appending freshly numbered score rows keeps ids increasing |
| Db.TotalEntriesCount | server/db.ts:153-163 | when every player has one entry per hole, the result holds `|players| * H` entries |
| Db.ScoreRows | server/db.ts:73-82 | the nested `for` loops push exactly the user-major cross product, of size `|users| * |holes|` |
| Db.RoomRowsUnique | server/db.ts:108-118 | a room's users, and its holes after sorting, have pairwise distinct ids while the store keeps its invariant |
| Db.EntryIsFirstRow | server/db.ts:132-149 | when no (user, hole) pair repeats, each entry `getRoomScore` returns is the first row for its pair in the table the call leaves |
| Db.NewRowIsFirst | server/db.ts:137-148 | a row created for a pair that had none is the first row for that pair afterwards |
| Db.RepeatedEntry | server/db.ts:132-149 | a second call over the same pairs returns, for each pair, the entry the first call returned |
| Db.RepeatedRoomScore | server/db.ts:132-166 | a second call over the same users and holes, on the table the first call left, returns an equal result |
| Db.Store.constructor | server/db.ts:3 | an empty database satisfies the invariant |
| Db.Store.RoomNamed | server/db.ts:28-32 | the position of the room with that name, and None exactly when no room has it |
| Db.Store.IsRoomInDB | server/db.ts:27-35 | true exactly when some room has that name |
| Db.Store.DeleteUsersAccessedBy | server/db.ts:10-16 | the user table becomes exactly the users accessed after the cutoff; the invariant is kept |
| Db.Store.DeleteRoomsAccessedBy | server/db.ts:18-24 | the room table becomes exactly the rooms accessed after the cutoff; the invariant is kept |
| Db.Store.DeleteStaleDBItems | server/db.ts:5-25 | users, then rooms, accessed at or before `now - 16h` are deleted, every newer one is kept, and nothing else changes |
| Db.Store.AddRoomToDB | server/db.ts:38-44 | a new room with that name and the next id is appended exactly when the name was free; otherwise nothing changes |
| Db.Store.UpdateRoomWithNewUser | server/db.ts:49-60 | for an existing room: its `lastAccessed` becomes now and one user with that name is appended to it; for a missing room nothing changes |
| Db.Store.CreateScoreRows | server/db.ts:61-86 | the score rows are the cross product of the room's users with that name and the room's holes, appended with fresh ids |
| Db.Store.AddNamedUserToRoom | server/db.ts:46-92 | one user is added and the room touched, then one score row per (same-name user of the room, hole of the room); when no earlier user of the room had the name, exactly one row per hole |
| Db.Store.AddUserToRoom | server/db.ts:46-92 | a `User` argument changes nothing; a name changes nothing when the room is missing and otherwise has the full effect above |
| Db.Store.GetUserFromDB | server/db.ts:94-101 | the first user with that name in any room, and None exactly when no user has it |
| Db.Store.GetRoomScore | server/db.ts:103-166 | None, changing nothing, when no room has the name. Otherwise: the holes sorted by number, one player per room user in order with name and id, and per hole the first existing row for (user, hole) or a row created now; `|users| * |holes|` entries in all. The table grows by exactly the rows for the pairs that had none |
| Db.Store.FillPlayers | server/db.ts:132-158 | the outer `users.map`: one entry per user with one score row per hole, the table growing by the rows created for the pairs handled |
| Db.Store.FillRow | server/db.ts:133-151 | the inner `holes.map` for one user: one entry per hole in hole order, each the existing row or a row created now |
| Db.Store.ScoreForHole | server/db.ts:134-148 | the first existing row for (user, hole), or else a new row with a null score appended with the next id |
| Db.Store.UpdatePlayerScore | server/db.ts:168-185 | fails (no change) exactly when no row has that id; otherwise only that row changes, getting the new score and `lastAccessed == now`, and is returned |
| Db.Store.CreateNewHole | server/db.ts:187-196 | appends a hole with the given number and room id and the next id, with no uniqueness check on the number |
| Db.Store.ValidateUserIsInRoom | server/db.ts:198-216 | "No Room Found" exactly when no room has that id; "User not found in room" exactly when the room exists but none of its users has the name; otherwise the first such user |
| Db.Store.ValidateUserIdOwnsUserScore | server/db.ts:218-236 | not-found exactly when no row has that id; a mismatch exactly when the row's user is another; otherwise the row itself |
| Db.GetRoomScoreTwice | server/db.ts:103-166 | two `getRoomScore` calls in a row return equal results; they find the room exactly when it exists, together create only the rows the first call creates, and change nothing but the score table and its counter |
| Server.LowerChar | server/index.ts:131 | an ASCII upper-case letter becomes the lower-case letter at the same place; any other character is kept; the result is never upper-case |
| Server.ToLowerCase | server/index.ts:98 | lower-casing keeps the length and lower-cases each character |
| Server.ReplaceSpaces | server/index.ts:131 | `replace(/ /g, '-')` keeps the length, turns each space into `-` and keeps every other character |
| Server.FormatRoomName | server/index.ts:129-132 | the formatted name has the same length, maps spaces to `-` and other characters to lower case, and contains no space |
| Server.FormatRoomNameIsLowerCase | server/index.ts:131 | no character of a formatted name is an upper-case letter |
| Server.FormatRoomNameIdempotent | server/index.ts:131 | formatting a formatted name changes nothing |
| Server.ToLowerCaseIdempotent | server/index.ts:98 | lower-casing a lower-cased name changes nothing |
| Server.FormatThreeWords | server/index.ts:130-131 | three space-free words joined by spaces become the lower-cased words joined by `-` |
| Server.FreeDrawFrom | server/index.ts:133-136 | the first draw whose formatted name is free, with every earlier draw taken; None exactly when every draw is taken |
| Server.CreateRoom | server/index.ts:128-139 | the room created is named after the first free draw; that name was not in the store before and is afterwards; all earlier draws were taken; when every draw is taken, nothing changes |
| Server.AddUserToRoom | server/index.ts:49-66 | a name adds one user to the room and touches the room, creating no score rows; a `User` argument or a missing room changes nothing |
| Server.EnsureRoom | server/index.ts:112 | a room with the name exists afterwards; it is created (with the next id, at the end) only when none existed |
| Server.JoinRoom | server/index.ts:90-120 | the room is looked up, created and joined under the lower-cased name; it is created only if absent; a new user is added to it only when no user anywhere had the name; the acknowledgement echoes the name as sent |
| Server.HourlySweep | server/index.ts:12-29 | rooms, then users, accessed at or before `now - 16h` are deleted and every newer one is kept |
| Server.SweepsAgree | server/index.ts:12-29 | the hourly job and `deleteStaleDBItems`, deleting in opposite orders, leave the same rooms and users, and nothing stale remains |
| RoomReducer.Player.constructor | react-front-end/src/utils/room-reducer.ts:8-11 | a player object holds its name and a fresh array with the given scores |
| RoomReducer.ScoreState.constructor | react-front-end/src/utils/room-reducer.ts:23 | the object spread: a new object with the same holes and the same (shared) player objects |
| RoomReducer.ScoreState.View | react-front-end/src/utils/room-reducer.ts:3-12 | the `scoreSchema` value a state holds: its holes, and each player's name and current scores |
| RoomReducer.PlayersView | react-front-end/src/utils/room-reducer.ts:8-11 | the values of the player objects, one per player, in order |
| RoomReducer.Load | react-front-end/src/utils/room-reducer.ts:3-14 | a parsed `scoreSchema` value becomes fresh objects, one score array per player, holding exactly that value |
| RoomReducer.Reduce | react-front-end/src/utils/room-reducer.ts:18-37 | `UPDATE-SCORES-SERVER` returns the payload. `UPDATE-PLAYER-SCORE` returns a null state unchanged and throws on a state with no players. Otherwise it writes the value at the hole into the first player's array, which the input state sees too, leaves every other array unchanged, ignores the username, and returns a new object sharing the holes and players |
| RoomReducer.SetPlayerScore | react-front-end/src/utils/room-reducer.ts:32 | on values: score `hole` of the first player becomes the value; every other score, every other player and the holes are kept |
| RoomReducer.SetPlayerScoreKeepsAligned | react-front-end/src/utils/room-reducer.ts:32 | when every player has one score per hole, that stays true after the update |
| RoomReducer.SetPlayerScoreLastWins | react-front-end/src/utils/room-reducer.ts:32 | a second write to the same score overrides the first |
| RoomReducer.SetPlayerScoreCommutes | react-front-end/src/utils/room-reducer.ts:32 | writes to two different scores commute |
| RoomReducer.PlaceholderScores | react-front-end/src/utils/room-reducer.ts:42-79 | six holes numbered 1 to 6 and two players, each with one score per hole |

## Left out

- Prisma itself is not modelled: SQL, transactions and the real id generator. Ids come from per-table counters starting at 1.
- Foreign keys and cascading deletes are not modelled. `createNewHole` does not check that the room exists. Deleting a room leaves its users, holes and score rows in place.
- The only unique constraint modelled is the one on room names. Creating a room under a taken name fails and changes nothing.
- The schema file is not part of this model. Two things are assumed about it: each user belongs to exactly one room, and `lastAccessed` defaults to the time of creation.
- Concurrency is not modelled. `Promise.all` in `getRoomScore` and `Promise.allSettled` in `join-room` run their steps one after another. The check-then-create race on room names is therefore not modelled either.
- The order of a relation's rows, when the query gives none, is assumed to be insertion order. This applies to a room's users and to a user's score rows, to the room's holes that `addUserToRoom` includes (`holes: true`), and to the user that `findFirst` picks in `getUserFromDB` and in the `join-room` handler.
- Db.Store.GetRoomScore: looks up existing rows in the table as read at the start of the call, as the source does. What a concurrent overlap of its creates could produce is not stated.
- Socket.io and express plumbing is left out because it is transport: `ping`/`pong`, the `update-state` broadcast, `socket.join`, the error callback, the routes, CORS and `listen`.
- The zod parsing in `join-room` is left out. Both arguments are taken to be strings, so its error path never runs.
- `faker.random.words` is an oracle: a sequence of draws given as a parameter. Server.CreateRoom: returns None when the given draws run out. Whether the handler's loop terminates is not claimed.
- `Date.now()` and `new Date()` are an integer `now` parameter.
- TypeScript `number` values become Dafny integers: ids are `nat`, and a hole's number, a new score and the reducer's `value` and `scores` are `int`. The model cannot express a negative or fractional id, or a fractional number or score. This affects `validateUserIsInRoom`, `validateUserIdOwnsUserScore`, `updatePlayerScore`, `createNewHole` and the reducer. The source does not validate these values.
- Tables.SortByNumber: is a stable sort, so holes with equal numbers keep their insertion order. `orderBy: { number: 'asc' }` leaves the order of ties to the database. Equal numbers can occur, because `createNewHole` does not check that a number is unique. Db.Store.GetRoomScore's `holes == SortByNumber(...)` therefore fixes one tie order where the source promises none.
- Console logging is left out. That includes the `console.error` in `addUserToRoom`, which fires when the count of created score rows differs from the room's hole count. This happens when an earlier user of the room already has the name and the room has at least one hole: the query includes every same-name user, so `|same-name users| * |holes|` rows are created (Db.Store.AddNamedUserToRoom with Tables.CrossKeysLength), more than there are holes. A room with no holes gets no rows either way, so the log stays silent there. When no earlier user of the room has the name, Db.Store.AddNamedUserToRoom ensures exactly one row per hole and the log stays silent.
- Server.ToLowerCase and Server.LowerChar: lower-case ASCII letters only, not full Unicode.
- RoomReducer.Reduce: requires the hole index to be within the first player's scores. JavaScript would grow the array, or add a property for a negative index, and that case is not modelled.
- RoomReducer.Reduce: the `default` branch is left out, because the action union admits no other type.
- RoomReducer.Reduce: the value-level equation holds only when no two players share a score array. A state loaded from a payload satisfies this.
- The checks `!room.users` in `validateUserIsInRoom` and `!hole` in `createNewHole` can never fire once the query succeeds, so they are left out.
- The React pages `JoinPage.tsx` and `Room.tsx` are UI and socket wiring, and are not part of this model.
