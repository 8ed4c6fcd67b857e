/** The request handlers and the scheduled job of server/index.ts over the in-memory
    store: room-name formatting for `/create-room`, the free-name retry loop, the
    `join-room` handler with its local `addUserToRoom`, and the hourly stale sweep. */
module Server {
  import opened Wrappers
  import opened Tables
  import opened Db

  // ----- Room-name formatting -----

  predicate IsUpper(c: char)
  {
    'A' <= c <= 'Z'
  }

  /** `toLowerCase` on one character, for the ASCII letters: an upper-case letter
      becomes the lower-case letter at the same place in the alphabet, and every other
      character is kept. */
  function LowerChar(c: char): (d: char)
    ensures IsUpper(c) ==> 'a' <= d <= 'z' && d as int - 'a' as int == c as int - 'A' as int
    ensures !IsUpper(c) ==> d == c
    ensures !IsUpper(d)
  {
    if IsUpper(c) then (c as int - 'A' as int + 'a' as int) as char else c
  }

  /** `String.prototype.toLowerCase`, ASCII letters only. */
  function ToLowerCase(s: string): (r: string)
    ensures |r| == |s|
    ensures forall i :: 0 <= i < |s| ==> r[i] == LowerChar(s[i])
  {
    if s == [] then [] else [LowerChar(s[0])] + ToLowerCase(s[1..])
  }

  /** `replace(/ /g, '-')`: every space becomes a hyphen, everything else is kept. */
  function ReplaceSpaces(s: string): (r: string)
    ensures |r| == |s|
    ensures forall i :: 0 <= i < |s| ==> r[i] == if s[i] == ' ' then '-' else s[i]
  {
    if s == [] then [] else [if s[0] == ' ' then '-' else s[0]] + ReplaceSpaces(s[1..])
  }

  /** The name `createRoom` builds from the random words: lower-cased, with every space
      turned into a hyphen. The length is kept and no space is left. */
  function FormatRoomName(words: string): (r: string)
    ensures |r| == |words|
    ensures forall i :: 0 <= i < |words| ==> r[i] == if words[i] == ' ' then '-' else LowerChar(words[i])
    ensures forall i :: 0 <= i < |r| ==> r[i] != ' '
  {
    ReplaceSpaces(ToLowerCase(words))
  }

  /** A formatted name has no upper-case letter. */
  lemma FormatRoomNameIsLowerCase(words: string)
    ensures forall i :: 0 <= i < |words| ==> !IsUpper(FormatRoomName(words)[i])
  {
  }

  /** Formatting an already formatted name changes nothing. */
  lemma FormatRoomNameIdempotent(words: string)
    ensures FormatRoomName(FormatRoomName(words)) == FormatRoomName(words)
  {
    var r := FormatRoomName(words);
    assert forall i :: 0 <= i < |r| ==> FormatRoomName(r)[i] == r[i];
  }

  /** Lower-casing twice is lower-casing once. */
  lemma ToLowerCaseIdempotent(s: string)
    ensures ToLowerCase(ToLowerCase(s)) == ToLowerCase(s)
  {
    var r := ToLowerCase(s);
    assert forall i :: 0 <= i < |r| ==> ToLowerCase(r)[i] == r[i];
  }

  /** The three words `faker.random.words(3)` joins with spaces come out lower-cased and
      joined with hyphens, provided no word holds a space itself. */
  lemma {:induction false} FormatThreeWords(a: string, b: string, c: string)
    requires forall i :: 0 <= i < |a| ==> a[i] != ' '
    requires forall i :: 0 <= i < |b| ==> b[i] != ' '
    requires forall i :: 0 <= i < |c| ==> c[i] != ' '
    ensures FormatRoomName(a + " " + b + " " + c) ==
            ToLowerCase(a) + "-" + ToLowerCase(b) + "-" + ToLowerCase(c)
  {
    var w := a + " " + b + " " + c;
    var la, lb, lc := ToLowerCase(a), ToLowerCase(b), ToLowerCase(c);
    var lhs := FormatRoomName(w);
    var rhs := la + "-" + lb + "-" + lc;
    forall i | 0 <= i < |w|
      ensures lhs[i] == rhs[i]
    {
      var n := |a| + 1 + |b|;
      if i < |a| {
        assert w[i] == a[i] && rhs[i] == la[i];
      } else if i == |a| {
        assert w[i] == ' ' && rhs[i] == '-';
      } else if i < n {
        assert w[i] == b[i - |a| - 1] && rhs[i] == lb[i - |a| - 1];
      } else if i == n {
        assert w[i] == ' ' && rhs[i] == '-';
      } else {
        assert w[i] == c[i - n - 1] && rhs[i] == lc[i - n - 1];
      }
    }
  }

  // ----- `/create-room` -----

  /** The position of the first draw of the word oracle, from `k` on, whose formatted
      name no room has; None when every one of them is taken. */
  function FreeDrawFrom(store: Store, draws: seq<string>, k: nat): (r: Option<nat>)
    requires k <= |draws|
    reads store
    ensures r.Some? ==> k <= r.value < |draws| && !store.IsRoomInDB(FormatRoomName(draws[r.value]))
    ensures r.Some? ==> forall j :: k <= j < r.value ==> store.IsRoomInDB(FormatRoomName(draws[j]))
    ensures r.None? <==> forall j :: k <= j < |draws| ==> store.IsRoomInDB(FormatRoomName(draws[j]))
    decreases |draws| - k
  {
    if k == |draws| then None
    else if !store.IsRoomInDB(FormatRoomName(draws[k])) then Some(k)
    else FreeDrawFrom(store, draws, k + 1)
  }

  /** The `/create-room` handler. `draws` are the successive results of
      `faker.random.words(3)`: the handler formats one draw after another while the name
      is taken and creates a room with the first free one. None when the draws given run
      out first; the handler itself would keep drawing. */
  method CreateRoom(store: Store, draws: seq<string>, now: Time) returns (room: Option<string>)
    requires store.Valid()
    modifies store`rooms, store`nextRoomId
    ensures store.Valid()
    ensures var free := old(FreeDrawFrom(store, draws, 0));
            && (free.None? ==> room.None? && store.rooms == old(store.rooms) && store.nextRoomId == old(store.nextRoomId))
            && (free.Some? ==>
                  && room == Some(FormatRoomName(draws[free.value]))
                  && store.rooms == old(store.rooms) + [Room(old(store.nextRoomId), room.value, now)]
                  && store.nextRoomId == old(store.nextRoomId) + 1)
    ensures room.Some? ==> !old(store.IsRoomInDB(room.value)) && store.IsRoomInDB(room.value)
  {
    var k := 0;
    while k < |draws| && store.IsRoomInDB(FormatRoomName(draws[k]))
      invariant 0 <= k <= |draws|
      invariant FreeDrawFrom(store, draws, 0) == FreeDrawFrom(store, draws, k)
      decreases |draws| - k
    {
      k := k + 1;
    }
    if k == |draws| {
      return None;
    }
    var name := FormatRoomName(draws[k]);
    var created := store.AddRoomToDB(name, now);
    assert store.rooms[|store.rooms| - 1].name == name;
    room := Some(name);
  }

  // ----- `join-room` -----

  /** `addUserToRoom` of server/index.ts: for a name, touch the room and create the user
      in it, with no score rows; a user row is ignored. `ok` is false when the update
      throws because no room has that name. */
  method AddUserToRoom(store: Store, user: UserArg, roomName: string, now: Time) returns (ok: bool)
    requires store.Valid()
    modifies store`rooms, store`users, store`nextUserId
    ensures store.Valid()
    ensures ok == (user.UserRow? || old(store.RoomNamed(roomName)).Some?)
    ensures !(user.NameArg? && ok) ==>
              store.rooms == old(store.rooms) && store.users == old(store.users) && store.nextUserId == old(store.nextUserId)
    ensures user.NameArg? && ok ==>
              var i := old(store.RoomNamed(roomName)).value;
              var room := old(store.rooms)[i];
              && store.rooms == old(store.rooms)[i := room.(lastAccessed := now)]
              && store.users == old(store.users) + [User(old(store.nextUserId), user.name, room.id, now)]
              && store.nextUserId == old(store.nextUserId) + 1
  {
    if user.UserRow? {
      return true;
    }
    var at := store.UpdateRoomWithNewUser(user.name, roomName, now);
    ok := at.Some?;
  }

  /** The `join-room` handler, steps in sequence: lower-case the room name, look the user
      up by name in every room, create the room when no room has the lower-cased name,
      then add the user to it by the local `addUserToRoom`. The acknowledgement echoes
      the room name as it was sent. */
  method JoinRoom(store: Store, roomName: string, username: string, now: Time) returns (joined: string)
    requires store.Valid()
    modifies store`rooms, store`nextRoomId, store`users, store`nextUserId
    ensures store.Valid()
    ensures joined == roomName
    ensures store.IsRoomInDB(ToLowerCase(roomName))
    ensures var lower := ToLowerCase(roomName);
            var had := old(store.RoomNamed(lower));
            var ensured := if had.Some? then old(store.rooms) else old(store.rooms) + [Room(old(store.nextRoomId), lower, now)];
            var at := if had.Some? then had.value else |old(store.rooms)|;
            && at < |ensured|
            && store.nextRoomId == old(store.nextRoomId) + (if had.Some? then 0 else 1)
            && (old(store.GetUserFromDB(username)).Some? ==>
                  && store.rooms == ensured
                  && store.users == old(store.users) && store.nextUserId == old(store.nextUserId))
            && (old(store.GetUserFromDB(username)).None? ==>
                  && store.rooms == ensured[at := ensured[at].(lastAccessed := now)]
                  && store.users == old(store.users) + [User(old(store.nextUserId), username, ensured[at].id, now)]
                  && store.nextUserId == old(store.nextUserId) + 1)
  {
    var lower := ToLowerCase(roomName);
    var user := store.GetUserFromDB(username);
    var at := EnsureRoom(store, lower, now);
    var arg := if user.Some? then UserRow(user.value) else NameArg(username);
    var ok := AddUserToRoom(store, arg, lower, now);
    assert store.rooms[at].name == lower;
    joined := roomName;
  }

  /** The room-ensure step of `join-room`: `addRoomToDB` when `isRoomInDB` is false.
      Returns the position of the room with that name afterwards. */
  method EnsureRoom(store: Store, roomName: string, now: Time) returns (at: nat)
    requires store.Valid()
    modifies store`rooms, store`nextRoomId
    ensures store.Valid()
    ensures store.RoomNamed(roomName) == Some(at)
    ensures old(store.RoomNamed(roomName)).Some? ==>
              at == old(store.RoomNamed(roomName)).value &&
              store.rooms == old(store.rooms) && store.nextRoomId == old(store.nextRoomId)
    ensures old(store.RoomNamed(roomName)).None? ==>
              at == |old(store.rooms)| &&
              store.rooms == old(store.rooms) + [Room(old(store.nextRoomId), roomName, now)] &&
              store.nextRoomId == old(store.nextRoomId) + 1
  {
    if store.IsRoomInDB(roomName) {
      return store.RoomNamed(roomName).value;
    }
    at := |store.rooms|;
    ghost var before := store.rooms;
    var created := store.AddRoomToDB(roomName, now);
    assert store.rooms[at].name == roomName;
    assert forall j :: 0 <= j < at ==> store.rooms[j] == before[j];
  }

  // ----- The scheduled job -----

  /** The hourly job: rooms, then users, last accessed 16 hours or more before `now`
      are deleted; every newer record is kept. */
  method HourlySweep(store: Store, now: Time)
    requires store.Valid()
    modifies store`rooms, store`users
    ensures store.Valid()
    ensures store.rooms == Newer(old(store.rooms), RoomStamp, now - 57_600_000)
    ensures store.users == Newer(old(store.users), UserStamp, now - 57_600_000)
  {
    var d := Cutoff(now);
    store.DeleteRoomsAccessedBy(d);
    store.DeleteUsersAccessedBy(d);
  }

  /** The job of server/index.ts and `deleteStaleDBItems` of server/db.ts delete in
      opposite orders and leave the same store; running either again right away deletes
      nothing more. */
  method SweepsAgree(a: Store, b: Store, now: Time)
    requires a.Valid() && b.Valid() && a != b
    requires a.rooms == b.rooms && a.users == b.users
    modifies a`rooms, a`users, b`rooms, b`users
    ensures a.rooms == b.rooms && a.users == b.users
    ensures a.rooms == Newer(a.rooms, RoomStamp, now - 57_600_000)
    ensures a.users == Newer(a.users, UserStamp, now - 57_600_000)
  {
    HourlySweep(a, now);
    b.DeleteStaleDBItems(now);
    SweepIdempotent(old(a.rooms), RoomStamp, now - 57_600_000);
    SweepIdempotent(old(a.users), UserStamp, now - 57_600_000);
  }
}
