/** The database layer of server/db.ts over an in-memory store: one class holding the
    four tables with their auto-increment counters, and one method or function per
    exported function of the file. */
module Db {
  import opened Wrappers
  import opened Tables

  /** Why a query throws. */
  datatype DbError =
    | RecordNotFound          // an `update` whose `where` matches no row
    | NoRoomFound
    | UserNotFoundInRoom
    | UserScoreNotFound(userScoreId: nat)
    | UserIdMismatch

  /** The first argument of `addUserToRoom`: a name to create a user for, or a user row. */
  datatype UserArg = NameArg(name: string) | UserRow(user: User)

  /** One player of the `getRoomScore` result: one score row per hole, in hole order. */
  datatype PlayerScores = PlayerScores(name: string, id: nat, scores: seq<UserScore>)

  /** The `getRoomScore` result: the room's holes by number and its players. */
  datatype RoomScore = RoomScore(holes: seq<Hole>, players: seq<PlayerScores>)

  /** What `getRoomScore` returns for pair `k` when the table held `before` at the start
      of the call and holds `table` now: the first existing row for `k`, or else a row for
      `k` that the call created (its id is at least `firstId`, the counter at the start). */
  ghost predicate ScoreEntry(before: seq<UserScore>, table: seq<UserScore>, firstId: nat, now: Time,
                             k: ScoreKey, e: UserScore)
  {
    match IndexOf(before, KeyOf, k)
    case Some(q) => e == before[q]
    case None => e in table && e.id >= firstId && KeyOf(e) == k && e.score.None? && e.lastAccessed == now
  }

  /** The number of score entries in a `getRoomScore` result. */
  function TotalEntries(ps: seq<PlayerScores>): nat
    decreases |ps|
  {
    if ps == [] then 0 else TotalEntries(ps[..|ps| - 1]) + |ps[|ps| - 1].scores|
  }

  /** A room with H holes and U users yields exactly H * U score entries. */
  lemma {:induction false} TotalEntriesCount(ps: seq<PlayerScores>, h: nat)
    requires forall i :: 0 <= i < |ps| ==> |ps[i].scores| == h
    ensures TotalEntries(ps) == |ps| * h
    decreases |ps|
  {
    if ps != [] {
      TotalEntriesCount(ps[..|ps| - 1], h);
      calc {
        TotalEntries(ps);
        (|ps| - 1) * h + h;
        |ps| * h;
      }
    }
  }

  /** The `userScores` array of `addUserToRoom`: for each user, for each hole, one
      `{ userId, holeId }` entry. */
  method ScoreRows(us: seq<User>, hs: seq<Hole>) returns (rows: seq<ScoreKey>)
    ensures rows == CrossKeys(us, hs)
    ensures |rows| == |us| * |hs|
  {
    rows := [];
    for i := 0 to |us|
      invariant rows == CrossKeys(us[..i], hs)
    {
      for j := 0 to |hs|
        invariant rows == CrossKeys(us[..i], hs) + RowKeys(us[i], hs[..j])
      {
        RowKeysSnoc(us[i], hs, j);
        rows := rows + [ScoreKey(us[i].id, hs[j].id)];
      }
      CrossKeysSnoc(us, hs, i);
    }
    assert us[..|us|] == us;
    CrossKeysLength(us, hs);
  }

  /** The database: four tables in insertion order, each with its next auto-increment id. */
  class Store {
    var rooms: seq<Room>
    var users: seq<User>
    var holes: seq<Hole>
    var userScores: seq<UserScore>
    var nextRoomId: nat
    var nextUserId: nat
    var nextHoleId: nat
    var nextScoreId: nat

    /** Ids are auto-increment in every table and room names are unique. */
    ghost predicate Valid()
      reads this
    {
      && AutoIncrement(rooms, RoomId, nextRoomId)
      && Unique(rooms, RoomName)
      && AutoIncrement(users, UserId, nextUserId)
      && AutoIncrement(holes, HoleId, nextHoleId)
      && AutoIncrement(userScores, ScoreId, nextScoreId)
    }

    constructor ()
      ensures Valid()
      ensures rooms == [] && users == [] && holes == [] && userScores == []
    {
      rooms, users, holes, userScores := [], [], [], [];
      nextRoomId, nextUserId, nextHoleId, nextScoreId := 1, 1, 1, 1;
    }

    /** The position of the room named `roomName` (`room.findUnique({ where: { name } })`). */
    function RoomNamed(roomName: string): (r: Option<nat>)
      reads this
      ensures r.Some? ==> r.value < |rooms| && rooms[r.value].name == roomName
      ensures r.None? <==> forall i :: 0 <= i < |rooms| ==> rooms[i].name != roomName
    {
      IndexOf(rooms, RoomName, roomName)
    }

    /** `isRoomInDB`: true exactly when some room has that name. */
    function IsRoomInDB(roomName: string): (b: bool)
      reads this
      ensures b <==> exists i :: 0 <= i < |rooms| && rooms[i].name == roomName
    {
      RoomNamed(roomName).Some?
    }

    /** `user.deleteMany` of the rows with `lastAccessed <= cutoff`. */
    method DeleteUsersAccessedBy(cutoff: Time)
      requires Valid()
      modifies this`users
      ensures Valid()
      ensures users == Newer(old(users), UserStamp, cutoff)
    {
      NewerKeepsAutoIncrement(users, UserStamp, cutoff, UserId, nextUserId);
      users := Newer(users, UserStamp, cutoff);
    }

    /** `room.deleteMany` of the rows with `lastAccessed <= cutoff`. */
    method DeleteRoomsAccessedBy(cutoff: Time)
      requires Valid()
      modifies this`rooms
      ensures Valid()
      ensures rooms == Newer(old(rooms), RoomStamp, cutoff)
    {
      NewerKeepsAutoIncrement(rooms, RoomStamp, cutoff, RoomId, nextRoomId);
      NewerKeepsUnique(rooms, RoomStamp, cutoff, RoomName);
      rooms := Newer(rooms, RoomStamp, cutoff);
    }

    /** `deleteStaleDBItems`: users, then rooms, last accessed 16 hours or more before `now`. */
    method DeleteStaleDBItems(now: Time)
      requires Valid()
      modifies this`users, this`rooms
      ensures Valid()
      ensures users == Newer(old(users), UserStamp, now - 57_600_000)
      ensures rooms == Newer(old(rooms), RoomStamp, now - 57_600_000)
    {
      var d := Cutoff(now);
      DeleteUsersAccessedBy(d);
      DeleteRoomsAccessedBy(d);
    }

    /** `addRoomToDB`: creates a room with that name, stamped `now`; the create throws,
        changing nothing, when the name is taken. */
    method AddRoomToDB(roomName: string, now: Time) returns (created: bool)
      requires Valid()
      modifies this`rooms, this`nextRoomId
      ensures Valid()
      ensures created == !old(IsRoomInDB(roomName))
      ensures created ==> (rooms == old(rooms) + [Room(old(nextRoomId), roomName, now)]
                           && nextRoomId == old(nextRoomId) + 1)
      ensures !created ==> rooms == old(rooms) && nextRoomId == old(nextRoomId)
    {
      if RoomNamed(roomName).Some? {
        return false;
      }
      var room := Room(nextRoomId, roomName, now);
      AppendKeepsAutoIncrement(rooms, room, RoomId, nextRoomId);
      rooms := rooms + [room];
      nextRoomId := nextRoomId + 1;
      created := true;
    }

    /** The `room.update` that both versions of `addUserToRoom` issue: touch the room
        named `roomName` and create a user called `userName` in it. Returns the room's
        position, or None when no room has that name (the update throws; nothing changes). */
    method UpdateRoomWithNewUser(userName: string, roomName: string, now: Time) returns (at: Option<nat>)
      requires Valid()
      modifies this`rooms, this`users, this`nextUserId
      ensures Valid()
      ensures at == old(RoomNamed(roomName))
      ensures at.None? ==> rooms == old(rooms) && users == old(users) && nextUserId == old(nextUserId)
      ensures at.Some? ==>
                && at.value < |old(rooms)|
                && rooms == old(rooms)[at.value := old(rooms)[at.value].(lastAccessed := now)]
                && users == old(users) + [User(old(nextUserId), userName, old(rooms)[at.value].id, now)]
                && nextUserId == old(nextUserId) + 1
    {
      at := RoomNamed(roomName);
      if at.None? {
        return;
      }
      var i := at.value;
      var user := User(nextUserId, userName, rooms[i].id, now);
      AppendKeepsAutoIncrement(users, user, UserId, nextUserId);
      rooms := rooms[i := rooms[i].(lastAccessed := now)];
      users := users + [user];
      nextUserId := nextUserId + 1;
    }

    /** The second half of `addUserToRoom` in server/db.ts: one score row, created now,
        for every (user of room `roomId` called `userName`, hole of that room) pair,
        user-major (`createMany` of the nested loops' `userScores`). */
    method CreateScoreRows(roomId: nat, userName: string, now: Time) returns (rows: seq<ScoreKey>)
      requires Valid()
      modifies this`userScores, this`nextScoreId
      ensures Valid()
      ensures rows == CrossKeys(Where(users, Membership, (roomId, userName)), Where(holes, HoleRoom, roomId))
      ensures |rows| == |Where(users, Membership, (roomId, userName))| * |Where(holes, HoleRoom, roomId)|
      ensures userScores == old(userScores) + NewScores(rows, old(nextScoreId), now)
      ensures nextScoreId == old(nextScoreId) + |rows|
    {
      var matching := Where(users, Membership, (roomId, userName));
      var roomHoles := Where(holes, HoleRoom, roomId);
      rows := ScoreRows(matching, roomHoles);
      AppendNewScoresKeepsAutoIncrement(userScores, rows, nextScoreId, now);
      userScores := userScores + NewScores(rows, nextScoreId, now);
      nextScoreId := nextScoreId + |rows|;
    }

    /** `addUserToRoom` of server/db.ts for a name: touch the room, create the user in
        it, then create the score rows of every user of the room with that name against
        every hole of the room. None when the room does not exist (the update throws and
        nothing changes); otherwise the room's position and the pairs given score rows. */
    method AddNamedUserToRoom(userName: string, roomName: string, now: Time)
      returns (at: Option<nat>, rows: seq<ScoreKey>)
      requires Valid()
      modifies this`rooms, this`users, this`nextUserId, this`userScores, this`nextScoreId
      ensures Valid()
      ensures at == old(RoomNamed(roomName))
      ensures at.None? ==>
                && rooms == old(rooms) && users == old(users) && userScores == old(userScores)
                && nextUserId == old(nextUserId) && nextScoreId == old(nextScoreId)
      ensures at.Some? ==>
                var room := old(rooms)[at.value];
                && rooms == old(rooms)[at.value := room.(lastAccessed := now)]
                && users == old(users) + [User(old(nextUserId), userName, room.id, now)]
                && nextUserId == old(nextUserId) + 1
                && rows == CrossKeys(Where(users, Membership, (room.id, userName)), Where(holes, HoleRoom, room.id))
                && userScores == old(userScores) + NewScores(rows, old(nextScoreId), now)
                && nextScoreId == old(nextScoreId) + |rows|
      ensures at.Some? && Where(old(users), Membership, (old(rooms)[at.value].id, userName)) == [] ==>
                |rows| == |Where(holes, HoleRoom, old(rooms)[at.value].id)|
    {
      ghost var oldUsers := users;
      at := UpdateRoomWithNewUser(userName, roomName, now);
      if at.None? {
        return at, [];
      }
      var roomId := rooms[at.value].id;
      WhereSnoc(oldUsers, users[|users| - 1], Membership, (roomId, userName));
      assert oldUsers + [users[|users| - 1]] == users;
      rows := CreateScoreRows(roomId, userName, now);
    }

    /** `addUserToRoom` of server/db.ts: a name is added as above; a user row is ignored.
        `ok` is false when the update throws. */
    method AddUserToRoom(user: UserArg, roomName: string, now: Time) returns (ok: bool)
      requires Valid()
      modifies this`rooms, this`users, this`nextUserId, this`userScores, this`nextScoreId
      ensures Valid()
      ensures ok == (user.UserRow? || old(RoomNamed(roomName)).Some?)
      ensures user.UserRow? ==>
                && rooms == old(rooms) && users == old(users) && userScores == old(userScores)
                && nextUserId == old(nextUserId) && nextScoreId == old(nextScoreId)
      ensures user.NameArg? && !ok ==>
                && rooms == old(rooms) && users == old(users) && userScores == old(userScores)
                && nextUserId == old(nextUserId) && nextScoreId == old(nextScoreId)
      ensures user.NameArg? && ok ==>
                var i := old(RoomNamed(roomName)).value;
                var room := old(rooms)[i];
                var rows := CrossKeys(Where(users, Membership, (room.id, user.name)), Where(holes, HoleRoom, room.id));
                && rooms == old(rooms)[i := room.(lastAccessed := now)]
                && users == old(users) + [User(old(nextUserId), user.name, room.id, now)]
                && nextUserId == old(nextUserId) + 1
                && userScores == old(userScores) + NewScores(rows, old(nextScoreId), now)
                && nextScoreId == old(nextScoreId) + |rows|
    {
      if user.UserRow? {
        return true;
      }
      var at, rows := AddNamedUserToRoom(user.name, roomName, now);
      ok := at.Some?;
    }

    /** `getUserFromDB`: the first user with that name, if any. */
    function GetUserFromDB(username: string): (r: Option<User>)
      reads this
      ensures r.None? <==> forall i :: 0 <= i < |users| ==> users[i].name != username
      ensures r.Some? ==> exists i :: 0 <= i < |users| && users[i] == r.value && users[i].name == username
                                     && forall j :: 0 <= j < i ==> users[j].name != username
    {
      match IndexOf(users, UserName, username)
      case Some(i) => Some(users[i])
      case None => None
    }

    /** `getRoomScore`: None when no room has that name. Otherwise the room's holes
        sorted by number and, for each user of the room in table order, one score row
        per hole: the first existing row for that (user, hole), or a row created now.
        The entries are stated through `PlayersFor`; a caller that needs the entry of
        one player and hole gets it most cheaply by asserting the `ScoreEntry` instance
        for that pair (for instance inside a `forall p, q` statement) rather than a
        bare quantified assertion. */
    method GetRoomScore(roomName: string, now: Time) returns (res: Option<RoomScore>)
      requires Valid()
      modifies this`userScores, this`nextScoreId
      ensures Valid()
      ensures RoomNamed(roomName).None? ==>
                res.None? && userScores == old(userScores) && nextScoreId == old(nextScoreId)
      ensures RoomNamed(roomName).Some? ==>
                var room := rooms[RoomNamed(roomName).value];
                var hs := SortByNumber(Where(holes, HoleRoom, room.id));
                var us := Where(users, UserRoom, room.id);
                var created := NewScores(Unscored(old(userScores), CrossKeys(us, hs)), old(nextScoreId), now);
                && res.Some?
                && userScores == old(userScores) + created
                && nextScoreId == old(nextScoreId) + |created|
                && res.value.holes == hs
                && PlayersFor(old(userScores), userScores, old(nextScoreId), now, us, hs, res.value.players)
                && TotalEntries(res.value.players) == |us| * |hs|
    {
      var found := RoomNamed(roomName);
      if found.None? {
        return None;
      }
      var room := rooms[found.value];
      var hs := SortByNumber(Where(holes, HoleRoom, room.id));
      var us := Where(users, UserRoom, room.id);
      var before := userScores;
      ghost var firstId := nextScoreId;
      assert before + NewScores(Unscored(before, []), firstId, now) == before;
      var players := FillPlayers(us, hs, before, firstId, now);
      TotalEntriesCount(players, |hs|);
      AppendNewScoresKeepsAutoIncrement(before, Unscored(before, CrossKeys(us, hs)), firstId, now);
      res := Some(RoomScore(hs, players));
    }

    /** The outer `roomData.users.map` of `getRoomScore`: one entry per user, in order,
        each holding one score row per hole. */
    method FillPlayers(us: seq<User>, hs: seq<Hole>, before: seq<UserScore>, ghost firstId: nat, now: Time)
      returns (players: seq<PlayerScores>)
      requires Filled(before, firstId, now, [])
      modifies this`userScores, this`nextScoreId
      ensures Filled(before, firstId, now, CrossKeys(us, hs))
      ensures PlayersFor(before, userScores, firstId, now, us, hs, players)
    {
      players := [];
      assert CrossKeys(us[..0], hs) == [];
      for i := 0 to |us|
        invariant Filled(before, firstId, now, CrossKeys(us[..i], hs))
        invariant PlayersFor(before, userScores, firstId, now, us[..i], hs, players)
      {
        ghost var table := userScores;
        var scores := FillRow(us[i], hs, before, firstId, CrossKeys(us[..i], hs), now);
        PlayersForSnoc(before, table, userScores, firstId, now, us, hs, players, i, scores);
        CrossKeysSnoc(us, hs, i);
        players := players + [PlayerScores(us[i].name, us[i].id, scores)];
      }
      assert us[..|us|] == us;
    }

    /** The score table holds the rows read at the start of a `getRoomScore` call and,
        after them, one row created for each pair of `keys` that lacked one. */
    ghost predicate Filled(before: seq<UserScore>, firstId: nat, now: Time, keys: seq<ScoreKey>)
      reads this
    {
      && userScores == before + NewScores(Unscored(before, keys), firstId, now)
      && nextScoreId == firstId + |Unscored(before, keys)|
    }

    /** The inner `roomData.holes.map` of `getRoomScore` for one user: one entry per
        hole, in order. `done` are the pairs the call has already handled. */
    method FillRow(user: User, hs: seq<Hole>, before: seq<UserScore>, ghost firstId: nat,
                   ghost done: seq<ScoreKey>, now: Time) returns (scores: seq<UserScore>)
      requires Filled(before, firstId, now, done)
      modifies this`userScores, this`nextScoreId
      ensures Filled(before, firstId, now, done + RowKeys(user, hs))
      ensures old(userScores) <= userScores
      ensures |scores| == |hs|
      ensures forall q :: 0 <= q < |hs| ==>
                ScoreEntry(before, userScores, firstId, now, ScoreKey(user.id, hs[q].id), scores[q])
    {
      scores := [];
      assert done + RowKeys(user, hs[..0]) == done;
      for j := 0 to |hs|
        invariant |scores| == j
        invariant Filled(before, firstId, now, done + RowKeys(user, hs[..j]))
        invariant old(userScores) <= userScores
        invariant forall q :: 0 <= q < j ==>
                    ScoreEntry(before, userScores, firstId, now, ScoreKey(user.id, hs[q].id), scores[q])
      {
        ghost var sofar := done + RowKeys(user, hs[..j]);
        RowKeysSnoc(user, hs, j);
        assert done + RowKeys(user, hs[..j + 1]) == sofar + [ScoreKey(user.id, hs[j].id)];
        ghost var table := userScores;
        var e := ScoreForHole(user, hs[j], before, firstId, sofar, now);
        forall q | 0 <= q < j
          ensures ScoreEntry(before, userScores, firstId, now, ScoreKey(user.id, hs[q].id), scores[q])
        {
          ScoreEntryGrows(before, table, userScores, firstId, now, ScoreKey(user.id, hs[q].id), scores[q]);
        }
        scores := scores + [e];
      }
      assert hs[..|hs|] == hs;
    }

    /** The callback of the inner `roomData.holes.map` in `getRoomScore`: the first row
        for (user, hole) among the rows read at the start, or else a row created now. */
    method ScoreForHole(user: User, hole: Hole, before: seq<UserScore>, ghost firstId: nat,
                        ghost done: seq<ScoreKey>, now: Time) returns (e: UserScore)
      requires Filled(before, firstId, now, done)
      modifies this`userScores, this`nextScoreId
      ensures Filled(before, firstId, now, done + [ScoreKey(user.id, hole.id)])
      ensures old(userScores) <= userScores
      ensures ScoreEntry(before, userScores, firstId, now, ScoreKey(user.id, hole.id), e)
    {
      var k := ScoreKey(user.id, hole.id);
      UnscoredSnoc(before, done, k);
      var existing := IndexOf(before, KeyOf, k);
      if existing.Some? {
        return before[existing.value];
      }
      ghost var created := Unscored(before, done);
      e := UserScore(nextScoreId, user.id, hole.id, None, now);
      NewScoresSnoc(created, k, firstId, now);
      assert userScores + [e] == before + (NewScores(created, firstId, now) + [e]);
      userScores := userScores + [e];
      nextScoreId := nextScoreId + 1;
    }

    /** `updatePlayerScore`: sets `score` and `lastAccessed` on the row with that id and
        returns it; the update throws, changing nothing, when no row has that id. */
    method UpdatePlayerScore(userScoreId: nat, newScore: int, now: Time) returns (r: Result<UserScore, DbError>)
      requires Valid()
      modifies this`userScores
      ensures Valid()
      ensures r.Err? <==> forall i :: 0 <= i < |old(userScores)| ==> old(userScores)[i].id != userScoreId
      ensures r.Err? ==> r.error == RecordNotFound && userScores == old(userScores)
      ensures r.Ok? ==> exists i :: 0 <= i < |old(userScores)| && old(userScores)[i].id == userScoreId &&
                          r.value == old(userScores)[i].(score := Some(newScore), lastAccessed := now)
      ensures r.Ok? ==> |userScores| == |old(userScores)| &&
                        forall i :: 0 <= i < |userScores| ==>
                          userScores[i] == if old(userScores)[i].id == userScoreId then r.value else old(userScores)[i]
    {
      var at := IndexOf(userScores, ScoreId, userScoreId);
      if at.None? {
        return Err(RecordNotFound);
      }
      var i := at.value;
      var updated := userScores[i].(score := Some(newScore), lastAccessed := now);
      userScores := userScores[i := updated];
      r := Ok(updated);
    }

    /** `createNewHole`: appends a hole with that number to that room; numbers are not
        checked for uniqueness. */
    method CreateNewHole(roomId: nat, holeNumber: int) returns (hole: Hole)
      requires Valid()
      modifies this`holes, this`nextHoleId
      ensures Valid()
      ensures hole == Hole(old(nextHoleId), holeNumber, roomId)
      ensures holes == old(holes) + [hole] && nextHoleId == old(nextHoleId) + 1
    {
      hole := Hole(nextHoleId, holeNumber, roomId);
      AppendKeepsAutoIncrement(holes, hole, HoleId, nextHoleId);
      holes := holes + [hole];
      nextHoleId := nextHoleId + 1;
    }

    /** `validateUserIsInRoom`: fails when no room has that id or no user of the room has
        that name; otherwise the first such user. */
    function ValidateUserIsInRoom(username: string, roomId: nat): (r: Result<User, DbError>)
      reads this
      ensures r == Err(NoRoomFound) <==> forall i :: 0 <= i < |rooms| ==> rooms[i].id != roomId
      ensures r == Err(UserNotFoundInRoom) <==>
                (exists i :: 0 <= i < |rooms| && rooms[i].id == roomId) &&
                (forall i :: 0 <= i < |users| ==> !(users[i].roomId == roomId && users[i].name == username))
      ensures r.Err? ==> r == Err(NoRoomFound) || r == Err(UserNotFoundInRoom)
      ensures r.Ok? ==> exists i :: 0 <= i < |users| && users[i] == r.value &&
                          r.value.roomId == roomId && r.value.name == username &&
                          forall j :: 0 <= j < i ==> !(users[j].roomId == roomId && users[j].name == username)
    {
      match IndexOf(rooms, RoomId, roomId)
      case None => Err(NoRoomFound)
      case Some(_) =>
        match IndexOf(users, Membership, (roomId, username))
        case None => Err(UserNotFoundInRoom)
        case Some(i) => Ok(users[i])
    }

    /** `validateUserIdOwnsUserScore`: fails when no score row has that id or its user is
        another; otherwise the row. */
    function ValidateUserIdOwnsUserScore(userId: nat, userScoreId: nat): (r: Result<UserScore, DbError>)
      reads this
      ensures r == Err(UserScoreNotFound(userScoreId)) <==>
                forall i :: 0 <= i < |userScores| ==> userScores[i].id != userScoreId
      ensures r == Err(UserIdMismatch) <==>
                exists i :: 0 <= i < |userScores| && userScores[i].id == userScoreId && userScores[i].userId != userId &&
                            forall j :: 0 <= j < i ==> userScores[j].id != userScoreId
      ensures r.Err? ==> r == Err(UserScoreNotFound(userScoreId)) || r == Err(UserIdMismatch)
      ensures r.Ok? ==> r.value in userScores && r.value.id == userScoreId && r.value.userId == userId
    {
      match IndexOf(userScores, ScoreId, userScoreId)
      case None => Err(UserScoreNotFound(userScoreId))
      case Some(i) =>
        if userScores[i].userId != userId then Err(UserIdMismatch) else Ok(userScores[i])
    }
  }

  /** Rows that a later call appends leave an entry as it was. */
  lemma ScoreEntryGrows(before: seq<UserScore>, table: seq<UserScore>, longer: seq<UserScore>,
                        firstId: nat, now: Time, k: ScoreKey, e: UserScore)
    requires table <= longer
    requires ScoreEntry(before, table, firstId, now, k, e)
    ensures ScoreEntry(before, longer, firstId, now, k, e)
  {
    if IndexOf(before, KeyOf, k).None? {
      var i :| 0 <= i < |table| && table[i] == e;
      assert longer[i] == e;
    }
  }

  /** When no pair repeats, the entry `getRoomScore` returns for a pair is the first
      row for that pair in the table the call leaves behind. */
  lemma EntryIsFirstRow(before: seq<UserScore>, keys: seq<ScoreKey>, firstId: nat, now: Time,
                        k: ScoreKey, e: UserScore)
    requires AutoIncrement(before, ScoreId, firstId)
    requires Unique(keys, SameKey) && k in keys
    requires ScoreEntry(before, before + NewScores(Unscored(before, keys), firstId, now), firstId, now, k, e)
    ensures var t := before + NewScores(Unscored(before, keys), firstId, now);
            IndexOf(t, KeyOf, k).Some? && e == t[IndexOf(t, KeyOf, k).value]
  {
    var missing := Unscored(before, keys);
    var t := before + NewScores(missing, firstId, now);
    match IndexOf(before, KeyOf, k)
    case Some(q) =>
      assert KeyOf(t[q]) == k;
      assert forall j :: 0 <= j <= q ==> t[j] == before[j];
    case None =>
      UnscoredKeepsUnique(before, keys);
      NewRowIsFirst(before, missing, firstId, now, k, e);
  }

  /** A row created for a pair no earlier row has is the first row for that pair,
      when the created rows repeat no pair. */
  lemma NewRowIsFirst(before: seq<UserScore>, missing: seq<ScoreKey>, firstId: nat, now: Time,
                      k: ScoreKey, e: UserScore)
    requires AutoIncrement(before, ScoreId, firstId)
    requires Unique(missing, SameKey)
    requires IndexOf(before, KeyOf, k).None?
    requires e in before + NewScores(missing, firstId, now) && e.id >= firstId && KeyOf(e) == k
    ensures var t := before + NewScores(missing, firstId, now);
            IndexOf(t, KeyOf, k).Some? && e == t[IndexOf(t, KeyOf, k).value]
  {
    var created := NewScores(missing, firstId, now);
    var t := before + created;
    LaterRowIsCreated(before, created, firstId, e);
    var c :| 0 <= c < |created| && created[c] == e;
    assert missing[c] == k;
    assert KeyOf(t[|before| + c]) == k;
    var r := IndexOf(t, KeyOf, k).value;
    assert r >= |before|;
    var d := r - |before|;
    assert t[r] == created[d];
    assert missing[d] == k;
    assert SameKey(missing[c]) == SameKey(missing[d]);
  }

  /** A row with an id past every earlier row's is one of the rows appended after them. */
  lemma LaterRowIsCreated(before: seq<UserScore>, created: seq<UserScore>, firstId: nat, e: UserScore)
    requires AutoIncrement(before, ScoreId, firstId)
    requires e in before + created && e.id >= firstId
    ensures e in created
  {
    var m :| 0 <= m < |before + created| && (before + created)[m] == e;
    assert (before + created)[m] == created[m - |before|];
  }

  /** A second `getRoomScore` over the same pairs returns the entries the first one did. */
  lemma RepeatedEntry(before: seq<UserScore>, keys: seq<ScoreKey>, firstId: nat, now: Time,
                      table: seq<UserScore>, nextId: nat, later: Time, k: ScoreKey, e1: UserScore, e2: UserScore)
    requires AutoIncrement(before, ScoreId, firstId)
    requires Unique(keys, SameKey) && k in keys
    requires ScoreEntry(before, before + NewScores(Unscored(before, keys), firstId, now), firstId, now, k, e1)
    requires ScoreEntry(before + NewScores(Unscored(before, keys), firstId, now), table, nextId, later, k, e2)
    ensures e1 == e2
  {
    EntryIsFirstRow(before, keys, firstId, now, k, e1);
  }

  /** `players` is what `getRoomScore` returns for the users `us` and the holes `hs`
      when the table held `before` at the start of the call and holds `table` now. */
  ghost predicate PlayersFor(before: seq<UserScore>, table: seq<UserScore>, firstId: nat, now: Time,
                             us: seq<User>, hs: seq<Hole>, players: seq<PlayerScores>)
  {
    && |players| == |us|
    && (forall p :: 0 <= p < |us| ==>
          && players[p].name == us[p].name
          && players[p].id == us[p].id
          && |players[p].scores| == |hs|)
    && (forall p, q :: 0 <= p < |us| && 0 <= q < |hs| ==>
          ScoreEntry(before, table, firstId, now, ScoreKey(us[p].id, hs[q].id), players[p].scores[q]))
  }

  /** Appending the entry of the next user keeps the earlier entries, while the table grows. */
  lemma PlayersForSnoc(before: seq<UserScore>, table: seq<UserScore>, longer: seq<UserScore>,
                       firstId: nat, now: Time, us: seq<User>, hs: seq<Hole>,
                       players: seq<PlayerScores>, i: nat, scores: seq<UserScore>)
    requires i < |us| && table <= longer
    requires PlayersFor(before, table, firstId, now, us[..i], hs, players)
    requires |scores| == |hs|
    requires forall q :: 0 <= q < |hs| ==>
               ScoreEntry(before, longer, firstId, now, ScoreKey(us[i].id, hs[q].id), scores[q])
    ensures PlayersFor(before, longer, firstId, now, us[..i + 1], hs,
                       players + [PlayerScores(us[i].name, us[i].id, scores)])
  {
    var grown := players + [PlayerScores(us[i].name, us[i].id, scores)];
    forall p, q | 0 <= p < i + 1 && 0 <= q < |hs|
      ensures ScoreEntry(before, longer, firstId, now, ScoreKey(us[p].id, hs[q].id), grown[p].scores[q])
    {
      if p < i {
        assert us[..i][p] == us[p];
        ScoreEntryGrows(before, table, longer, firstId, now, ScoreKey(us[p].id, hs[q].id), players[p].scores[q]);
      }
    }
  }

  /** A room's users and its sorted holes have unique ids when the tables keep their
      auto-increment invariant. */
  lemma RoomRowsUnique(users: seq<User>, holes: seq<Hole>, roomId: nat, nextUser: nat, nextHole: nat)
    requires AutoIncrement(users, UserId, nextUser) && AutoIncrement(holes, HoleId, nextHole)
    ensures Unique(Where(users, UserRoom, roomId), UserId)
    ensures Unique(SortByNumber(Where(holes, HoleRoom, roomId)), HoleId)
  {
    WhereKeepsAutoIncrement(users, UserRoom, roomId, UserId, nextUser);
    AutoIncrementUnique(Where(users, UserRoom, roomId), UserId, nextUser);
    WhereKeepsAutoIncrement(holes, HoleRoom, roomId, HoleId, nextHole);
    AutoIncrementUnique(Where(holes, HoleRoom, roomId), HoleId, nextHole);
    SortByNumberKeepsUnique(Where(holes, HoleRoom, roomId));
  }

  /** A second `getRoomScore` over the same users and holes, on the table the first one
      left, returns the same result. */
  lemma RepeatedRoomScore(us: seq<User>, hs: seq<Hole>, before: seq<UserScore>, firstId: nat, now: Time,
                          table: seq<UserScore>, nextId: nat, later: Time, a: RoomScore, b: RoomScore)
    requires Unique(us, UserId) && Unique(hs, HoleId)
    requires AutoIncrement(before, ScoreId, firstId)
    requires a.holes == hs && b.holes == hs
    requires PlayersFor(before, before + NewScores(Unscored(before, CrossKeys(us, hs)), firstId, now),
                        firstId, now, us, hs, a.players)
    requires PlayersFor(before + NewScores(Unscored(before, CrossKeys(us, hs)), firstId, now),
                        table, nextId, later, us, hs, b.players)
    ensures a == b
  {
    var keys := CrossKeys(us, hs);
    var mid := before + NewScores(Unscored(before, keys), firstId, now);
    CrossKeysUnique(us, hs);
    forall p, q | 0 <= p < |us| && 0 <= q < |hs| ensures a.players[p].scores[q] == b.players[p].scores[q] {
      var k := ScoreKey(us[p].id, hs[q].id);
      CrossKeysMembers(us, hs, k);
      RepeatedEntry(before, keys, firstId, now, table, nextId, later, k, a.players[p].scores[q], b.players[p].scores[q]);
    }
    forall p | 0 <= p < |us| ensures a.players[p] == b.players[p] {
      assert a.players[p].scores == b.players[p].scores;
    }
    assert a.players == b.players;
  }

  /** Two `getRoomScore` calls in a row leave the score table as one call does: the
      second call creates no rows. */
  method GetRoomScoreTwice(store: Store, roomName: string, now: Time, later: Time)
    returns (first: Option<RoomScore>, second: Option<RoomScore>)
    requires store.Valid()
    modifies store`userScores, store`nextScoreId
    ensures store.Valid()
    ensures first == second
    ensures first.Some? <==> store.IsRoomInDB(roomName)
    ensures first.None? ==> store.userScores == old(store.userScores)
    ensures store.IsRoomInDB(roomName) ==>
              var room := store.rooms[store.RoomNamed(roomName).value];
              var keys := CrossKeys(Where(store.users, UserRoom, room.id),
                                    SortByNumber(Where(store.holes, HoleRoom, room.id)));
              store.userScores == old(store.userScores) +
                                  NewScores(Unscored(old(store.userScores), keys), old(store.nextScoreId), now)
  {
    first := store.GetRoomScore(roomName, now);
    ghost var between := store.userScores;
    ghost var nextId := store.nextScoreId;
    ghost var us: seq<User>, hs: seq<Hole> := [], [];
    if first.Some? {
      ghost var room := store.rooms[store.RoomNamed(roomName).value];
      us, hs := Where(store.users, UserRoom, room.id), SortByNumber(Where(store.holes, HoleRoom, room.id));
      RoomRowsUnique(store.users, store.holes, room.id, store.nextUserId, store.nextHoleId);
      FillingIsIdempotent(old(store.userScores), CrossKeys(us, hs), old(store.nextScoreId), now);
    }
    second := store.GetRoomScore(roomName, later);
    if first.Some? {
      assert NewScores(Unscored(between, CrossKeys(us, hs)), nextId, later) == [];
      RepeatedRoomScore(us, hs, old(store.userScores), old(store.nextScoreId), now,
                        store.userScores, nextId, later, first.value, second.value);
    }
  }
}
