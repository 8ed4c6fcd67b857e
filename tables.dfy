/** The rows of the score database (rooms, users, holes, user scores) and the pure
    table operations that the queries of server/db.ts are built from: lookups by a
    column, relation filters, the `lastAccessed` cutoff, the sort by hole number and
    the (user, hole) cross product behind the score rows. */
module Tables {
  import opened Wrappers

  /** A `DateTime` column, as milliseconds since the epoch. */
  type Time = int

  /** The retention window of the stale-data sweep: `1000 * 60 * 60 * 16` ms. */
  const RetentionMs: int := 1000 * 60 * 60 * 16

  /** The sweep's cutoff: rows with `lastAccessed <= Cutoff(now)` are stale. */
  function Cutoff(now: Time): Time
  {
    now - RetentionMs
  }

  datatype Room = Room(id: nat, name: string, lastAccessed: Time)
  datatype User = User(id: nat, name: string, roomId: nat, lastAccessed: Time)
  datatype Hole = Hole(id: nat, number: int, roomId: nat)
  datatype UserScore = UserScore(id: nat, userId: nat, holeId: nat, score: Option<int>, lastAccessed: Time)

  /** The (user, hole) pair that a score row belongs to. */
  datatype ScoreKey = ScoreKey(userId: nat, holeId: nat)

  // Column accessors, passed to the generic table functions below.
  function RoomId(r: Room): nat { r.id }
  function RoomName(r: Room): string { r.name }
  function RoomStamp(r: Room): Time { r.lastAccessed }
  function UserId(u: User): nat { u.id }
  function UserName(u: User): string { u.name }
  function UserRoom(u: User): nat { u.roomId }
  function UserStamp(u: User): Time { u.lastAccessed }
  function Membership(u: User): (nat, string) { (u.roomId, u.name) }
  function HoleId(h: Hole): nat { h.id }
  function HoleRoom(h: Hole): nat { h.roomId }
  function ScoreId(s: UserScore): nat { s.id }
  function KeyOf(s: UserScore): ScoreKey { ScoreKey(s.userId, s.holeId) }

  /** The position of the first row whose `key` column equals `k`: what
      `findUnique`, `findFirst` and `Array.prototype.find` select. */
  function IndexOf<T, K(==)>(s: seq<T>, key: T -> K, k: K): (r: Option<nat>)
    ensures r.Some? ==> r.value < |s| && key(s[r.value]) == k
    ensures r.Some? ==> forall j :: 0 <= j < r.value ==> key(s[j]) != k
    ensures r.None? <==> forall j :: 0 <= j < |s| ==> key(s[j]) != k
    decreases |s|
  {
    if s == [] then None
    else match IndexOf(s[..|s| - 1], key, k)
      case Some(i) => Some(i)
      case None => if key(s[|s| - 1]) == k then Some(|s| - 1) else None
  }

  /** The rows satisfying `p`, in table order. */
  function Filter<T(==,!new)>(s: seq<T>, p: T -> bool): (r: seq<T>)
    ensures |r| <= |s|
    ensures forall x :: x in r <==> x in s && p(x)
    decreases |s|
  {
    if s == [] then []
    else
      assert s == s[..|s| - 1] + [s[|s| - 1]];
      Filter(s[..|s| - 1], p) + (if p(s[|s| - 1]) then [s[|s| - 1]] else [])
  }

  /** The rows whose `key` column equals `k`, in table order (a relation or `where` filter). */
  function Where<T(==,!new), K(==)>(s: seq<T>, key: T -> K, k: K): (r: seq<T>)
    ensures |r| <= |s|
    ensures forall x :: x in r <==> x in s && key(x) == k
  {
    Filter(s, x => key(x) == k)
  }

  /** The rows that a `deleteMany({ where: { lastAccessed: { lte: cutoff } } })` keeps:
      those accessed strictly after `cutoff`, in table order. */
  function Newer<T(==,!new)>(s: seq<T>, stamp: T -> Time, cutoff: Time): (r: seq<T>)
    ensures |r| <= |s|
    ensures forall x :: x in r <==> x in s && stamp(x) > cutoff
  {
    Filter(s, x => stamp(x) > cutoff)
  }

  /** Filtering twice with the same predicate removes nothing more. */
  lemma {:induction false} FilterIdempotent<T(!new)>(s: seq<T>, p: T -> bool)
    ensures Filter(Filter(s, p), p) == Filter(s, p)
    decreases |s|
  {
    if s != [] {
      var init, last := s[..|s| - 1], s[|s| - 1];
      FilterIdempotent(init, p);
      var f := Filter(init, p);
      if p(last) {
        assert Filter(s, p) == f + [last];
        assert (f + [last])[..|f + [last]| - 1] == f;
      } else {
        assert Filter(s, p) == f;
      }
    }
  }

  /** `r` is `s` with some rows left out: `idx` lists, in increasing order, the
      positions of `s` that `r`'s rows come from. */
  ghost predicate Embeds<T>(idx: seq<int>, r: seq<T>, s: seq<T>)
  {
    && |idx| == |r|
    && (forall i :: 0 <= i < |idx| ==> 0 <= idx[i] < |s| && r[i] == s[idx[i]])
    && (forall i, j :: 0 <= i < j < |idx| ==> idx[i] < idx[j])
  }

  /** An embedding into a table is one into the table with a row appended, and it
      extends to the appended row. */
  lemma EmbedsSnoc<T>(idx: seq<int>, r: seq<T>, s: seq<T>, x: T)
    requires Embeds(idx, r, s)
    ensures Embeds(idx, r, s + [x])
    ensures Embeds(idx + [|s|], r + [x], s + [x])
  {
    var t := s + [x];
    forall i | 0 <= i < |idx| ensures t[idx[i]] == s[idx[i]] {
    }
    var ext := idx + [|s|];
    forall i | 0 <= i < |ext| ensures 0 <= ext[i] < |t| && (r + [x])[i] == t[ext[i]] {
      if i < |idx| {
        assert ext[i] == idx[i];
      }
    }
  }

  /** A filter keeps the table order of the rows it keeps: `idx` says where each kept
      row sits in `s`. */
  lemma {:induction false} FilterKeepsOrder<T(!new)>(s: seq<T>, p: T -> bool) returns (idx: seq<int>)
    ensures Embeds(idx, Filter(s, p), s)
    decreases |s|
  {
    if s == [] {
      idx := [];
    } else {
      var init, last := s[..|s| - 1], s[|s| - 1];
      assert s == init + [last];
      var prev := FilterKeepsOrder(init, p);
      EmbedsSnoc(prev, Filter(init, p), init, last);
      idx := if p(last) then prev + [|init|] else prev;
    }
  }

  lemma FilterSnoc<T(!new)>(s: seq<T>, x: T, p: T -> bool)
    ensures Filter(s + [x], p) == Filter(s, p) + (if p(x) then [x] else [])
  {
    assert (s + [x])[..|s|] == s;
  }

  lemma WhereSnoc<T(!new), K>(s: seq<T>, x: T, key: T -> K, k: K)
    ensures Where(s + [x], key, k) == Where(s, key, k) + (if key(x) == k then [x] else [])
  {
    FilterSnoc(s, x, x => key(x) == k);
  }

  /** A relation filter keeps the table order of the rows it keeps. */
  lemma WhereKeepsOrder<T(!new), K>(s: seq<T>, key: T -> K, k: K) returns (idx: seq<int>)
    ensures Embeds(idx, Where(s, key, k), s)
  {
    idx := FilterKeepsOrder(s, x => key(x) == k);
  }

  /** A sweep keeps the table order of the rows it keeps. */
  lemma NewerKeepsOrder<T(!new)>(s: seq<T>, stamp: T -> Time, cutoff: Time) returns (idx: seq<int>)
    ensures Embeds(idx, Newer(s, stamp, cutoff), s)
  {
    idx := FilterKeepsOrder(s, x => stamp(x) > cutoff);
  }

  /** A filter that every row fails keeps nothing. */
  lemma {:induction false} FilterRejectingAll<T(!new)>(s: seq<T>, p: T -> bool)
    requires forall x :: x in s ==> !p(x)
    ensures Filter(s, p) == []
    decreases |s|
  {
    if s != [] {
      assert s[|s| - 1] in s;
      FilterRejectingAll(s[..|s| - 1], p);
    }
  }

  /** A second sweep with the same cutoff deletes nothing. */
  lemma SweepIdempotent<T(!new)>(s: seq<T>, stamp: T -> Time, cutoff: Time)
    ensures Newer(Newer(s, stamp, cutoff), stamp, cutoff) == Newer(s, stamp, cutoff)
  {
    FilterIdempotent(s, x => stamp(x) > cutoff);
  }

  /** Auto-increment ids: strictly increasing in table order and below the next id to hand out. */
  ghost predicate AutoIncrement<T>(s: seq<T>, id: T -> nat, next: nat)
  {
    && (forall i, j :: 0 <= i < j < |s| ==> id(s[i]) < id(s[j]))
    && (forall i :: 0 <= i < |s| ==> id(s[i]) < next)
  }

  /** No two rows share a value of the `key` column (a unique constraint). */
  ghost predicate Unique<T, K>(s: seq<T>, key: T -> K)
  {
    forall i, j :: 0 <= i < j < |s| ==> key(s[i]) != key(s[j])
  }

  lemma {:induction false} FilterKeepsAutoIncrement<T(!new)>(s: seq<T>, p: T -> bool, id: T -> nat, next: nat)
    requires AutoIncrement(s, id, next)
    ensures AutoIncrement(Filter(s, p), id, next)
    decreases |s|
  {
    if s != [] {
      var init, last := s[..|s| - 1], s[|s| - 1];
      FilterKeepsAutoIncrement(init, p, id, next);
      var f := Filter(init, p);
      forall x | x in f ensures id(x) < id(last) {
        var i :| 0 <= i < |init| && init[i] == x;
        assert s[i] == x;
      }
    }
  }

  lemma {:induction false} FilterKeepsUnique<T(!new), K>(s: seq<T>, p: T -> bool, key: T -> K)
    requires Unique(s, key)
    ensures Unique(Filter(s, p), key)
    decreases |s|
  {
    if s != [] {
      var init, last := s[..|s| - 1], s[|s| - 1];
      FilterKeepsUnique(init, p, key);
      var f := Filter(init, p);
      forall x | x in f ensures key(x) != key(last) {
        var i :| 0 <= i < |init| && init[i] == x;
        assert s[i] == x;
      }
    }
  }

  /** The rows a sweep keeps still have auto-increment ids. */
  lemma NewerKeepsAutoIncrement<T(!new)>(s: seq<T>, stamp: T -> Time, cutoff: Time, id: T -> nat, next: nat)
    requires AutoIncrement(s, id, next)
    ensures AutoIncrement(Newer(s, stamp, cutoff), id, next)
  {
    FilterKeepsAutoIncrement(s, x => stamp(x) > cutoff, id, next);
  }

  /** The rows a sweep keeps still satisfy a unique constraint. */
  lemma NewerKeepsUnique<T(!new), K>(s: seq<T>, stamp: T -> Time, cutoff: Time, key: T -> K)
    requires Unique(s, key)
    ensures Unique(Newer(s, stamp, cutoff), key)
  {
    FilterKeepsUnique(s, x => stamp(x) > cutoff, key);
  }

  /** The rows of a relation filter still have auto-increment ids. */
  lemma WhereKeepsAutoIncrement<T(!new), K>(s: seq<T>, key: T -> K, k: K, id: T -> nat, next: nat)
    requires AutoIncrement(s, id, next)
    ensures AutoIncrement(Where(s, key, k), id, next)
  {
    FilterKeepsAutoIncrement(s, x => key(x) == k, id, next);
  }

  /** Auto-increment ids are unique. */
  lemma AutoIncrementUnique<T>(s: seq<T>, id: T -> nat, next: nat)
    requires AutoIncrement(s, id, next)
    ensures Unique(s, id)
  {
  }

  /** Hole rows ordered by `number`, ascending (`orderBy: { number: 'asc' }`). */
  ghost predicate SortedByNumber(hs: seq<Hole>)
  {
    forall i, j :: 0 <= i < j < |hs| ==> hs[i].number <= hs[j].number
  }

  /** Inserts `h` before the first row whose number is at least its own. */
  function InsertByNumber(h: Hole, sorted: seq<Hole>): (r: seq<Hole>)
    ensures multiset(r) == multiset(sorted) + multiset{h}
  {
    if sorted == [] || h.number <= sorted[0].number then [h] + sorted
    else
      assert sorted == [sorted[0]] + sorted[1..];
      [sorted[0]] + InsertByNumber(h, sorted[1..])
  }

  /** A lower bound on the numbers of `h` and of `sorted` bounds the result too. */
  lemma {:induction false} InsertByNumberBound(h: Hole, sorted: seq<Hole>, b: int)
    requires b <= h.number
    requires forall i :: 0 <= i < |sorted| ==> b <= sorted[i].number
    ensures forall i :: 0 <= i < |InsertByNumber(h, sorted)| ==> b <= InsertByNumber(h, sorted)[i].number
  {
    if sorted != [] && h.number > sorted[0].number {
      InsertByNumberBound(h, sorted[1..], b);
    }
  }

  /** Inserting into a sorted sequence keeps it sorted. */
  lemma {:induction false} InsertByNumberSorted(h: Hole, sorted: seq<Hole>)
    requires SortedByNumber(sorted)
    ensures SortedByNumber(InsertByNumber(h, sorted))
  {
    if sorted != [] && h.number > sorted[0].number {
      var rest := InsertByNumber(h, sorted[1..]);
      InsertByNumberSorted(h, sorted[1..]);
      InsertByNumberBound(h, sorted[1..], sorted[0].number);
      var r := [sorted[0]] + rest;
      assert forall j :: 0 < j < |r| ==> r[j] == rest[j - 1];
    }
  }

  /** The rows after an insertion are the inserted row and the earlier rows. */
  lemma InsertByNumberMembers(h: Hole, sorted: seq<Hole>, x: Hole)
    ensures x in InsertByNumber(h, sorted) <==> x == h || x in sorted
  {
    assert x in InsertByNumber(h, sorted) <==> x in multiset(InsertByNumber(h, sorted));
  }

  /** Inserting a hole whose id no row has keeps hole ids unique. */
  lemma {:induction false} InsertByNumberKeepsUnique(h: Hole, sorted: seq<Hole>)
    requires Unique(sorted, HoleId)
    requires forall i :: 0 <= i < |sorted| ==> sorted[i].id != h.id
    ensures Unique(InsertByNumber(h, sorted), HoleId)
  {
    if sorted == [] || h.number <= sorted[0].number {
      var r := [h] + sorted;
      assert forall j :: 0 < j < |r| ==> r[j] == sorted[j - 1];
    } else {
      var tail := sorted[1..];
      InsertByNumberKeepsUnique(h, tail);
      var rest := InsertByNumber(h, tail);
      forall x | x in rest ensures x.id != sorted[0].id {
        InsertByNumberMembers(h, tail, x);
        if x != h {
          var k :| 0 <= k < |tail| && tail[k] == x;
          assert sorted[k + 1] == x;
        }
      }
      var r := [sorted[0]] + rest;
      forall i, j | 0 <= i < j < |r| ensures HoleId(r[i]) != HoleId(r[j]) {
        assert r[j] == rest[j - 1] && r[j] in rest;
        if i > 0 {
          assert r[i] == rest[i - 1];
        } else {
          assert r[i] == sorted[0];
        }
      }
    }
  }

  /** An insertion sort of hole rows by `number`; rows with equal numbers keep their order. */
  function SortByNumber(hs: seq<Hole>): (r: seq<Hole>)
    ensures SortedByNumber(r)
    ensures multiset(r) == multiset(hs)
  {
    if hs == [] then []
    else
      assert hs == [hs[0]] + hs[1..];
      InsertByNumberSorted(hs[0], SortByNumber(hs[1..]));
      InsertByNumber(hs[0], SortByNumber(hs[1..]))
  }

  /** Sorting keeps hole ids unique. */
  lemma {:induction false} SortByNumberKeepsUnique(hs: seq<Hole>)
    requires Unique(hs, HoleId)
    ensures Unique(SortByNumber(hs), HoleId)
  {
    if hs != [] {
      var tail := hs[1..];
      SortByNumberKeepsUnique(tail);
      var sorted := SortByNumber(tail);
      forall i | 0 <= i < |sorted| ensures sorted[i].id != hs[0].id {
        assert sorted[i] in multiset(sorted);
        assert sorted[i] in multiset(tail);
        var k :| 0 <= k < |tail| && tail[k] == sorted[i];
        assert hs[k + 1] == sorted[i];
      }
      InsertByNumberKeepsUnique(hs[0], sorted);
    }
  }

  /** The (user, hole) pairs of one user against `hs`, in hole order. */
  function RowKeys(u: User, hs: seq<Hole>): (r: seq<ScoreKey>)
    ensures |r| == |hs|
    ensures forall j :: 0 <= j < |hs| ==> r[j] == ScoreKey(u.id, hs[j].id)
  {
    seq(|hs|, j requires 0 <= j < |hs| => ScoreKey(u.id, hs[j].id))
  }

  /** Every (user, hole) pair, user-major and in hole order within a user: the rows
      produced by a nested loop over users and, inside it, holes. */
  function CrossKeys(us: seq<User>, hs: seq<Hole>): seq<ScoreKey>
    decreases |us|
  {
    if us == [] then [] else CrossKeys(us[..|us| - 1], hs) + RowKeys(us[|us| - 1], hs)
  }

  /** There are |users| * |holes| pairs. */
  lemma {:induction false} CrossKeysLength(us: seq<User>, hs: seq<Hole>)
    ensures |CrossKeys(us, hs)| == |us| * |hs|
    decreases |us|
  {
    if us != [] {
      CrossKeysLength(us[..|us| - 1], hs);
      calc {
        |CrossKeys(us, hs)|;
        (|us| - 1) * |hs| + |hs|;
        |us| * |hs|;
      }
    }
  }

  /** Pair number `i * |hs| + j` is user `i` with hole `j`. */
  lemma {:induction false} CrossKeysAt(us: seq<User>, hs: seq<Hole>, i: nat, j: nat)
    requires i < |us| && j < |hs|
    ensures i * |hs| + j < |CrossKeys(us, hs)|
    ensures CrossKeys(us, hs)[i * |hs| + j] == ScoreKey(us[i].id, hs[j].id)
    decreases |us|
  {
    var init := us[..|us| - 1];
    CrossKeysLength(init, hs);
    CrossKeysLength(us, hs);
    if i < |us| - 1 {
      CrossKeysAt(init, hs, i, j);
      assert i * |hs| + j < (i + 1) * |hs| <= (|us| - 1) * |hs|;
    } else {
      assert i * |hs| == |CrossKeys(init, hs)|;
    }
  }

  /** A pair occurs exactly when it joins one of the users with one of the holes. */
  lemma {:induction false} CrossKeysMembers(us: seq<User>, hs: seq<Hole>, k: ScoreKey)
    ensures k in CrossKeys(us, hs) <==>
              exists i, j :: 0 <= i < |us| && 0 <= j < |hs| && k == ScoreKey(us[i].id, hs[j].id)
    decreases |us|
  {
    if us != [] {
      var init, last := us[..|us| - 1], us[|us| - 1];
      CrossKeysMembers(init, hs, k);
      if k in CrossKeys(us, hs) {
        if k in RowKeys(last, hs) {
          var j :| 0 <= j < |hs| && RowKeys(last, hs)[j] == k;
          assert k == ScoreKey(us[|us| - 1].id, hs[j].id);
        } else {
          assert k in CrossKeys(init, hs);
          var i, j :| 0 <= i < |init| && 0 <= j < |hs| && k == ScoreKey(init[i].id, hs[j].id);
          assert us[i] == init[i];
        }
      } else {
        forall i, j | 0 <= i < |us| && 0 <= j < |hs| ensures k != ScoreKey(us[i].id, hs[j].id) {
          if i < |us| - 1 {
            assert us[i] == init[i];
          } else {
            assert RowKeys(last, hs)[j] == ScoreKey(us[i].id, hs[j].id);
          }
        }
      }
    }
  }

  /** The identity on pairs: a sequence of pairs is `Unique` under it when no pair repeats. */
  function SameKey(k: ScoreKey): ScoreKey { k }

  /** Users with unique ids against holes with unique ids give no pair twice. */
  lemma {:induction false} CrossKeysUnique(us: seq<User>, hs: seq<Hole>)
    requires Unique(us, UserId) && Unique(hs, HoleId)
    ensures Unique(CrossKeys(us, hs), SameKey)
    decreases |us|
  {
    if us != [] {
      var init, last := us[..|us| - 1], us[|us| - 1];
      CrossKeysUnique(init, hs);
      var a, b := CrossKeys(init, hs), RowKeys(last, hs);
      forall x | x in a ensures x.userId != last.id {
        CrossKeysMembers(init, hs, x);
        var i, j :| 0 <= i < |init| && 0 <= j < |hs| && x == ScoreKey(init[i].id, hs[j].id);
        assert init[i] == us[i];
      }
      var c := a + b;
      forall p, q | 0 <= p < q < |c| ensures SameKey(c[p]) != SameKey(c[q]) {
        if q < |a| {
          assert c[p] == a[p] && c[q] == a[q];
        } else if p >= |a| {
          assert c[p] == b[p - |a|] && c[q] == b[q - |a|];
        } else {
          assert c[p] == a[p] && c[p] in a;
          assert c[q] == b[q - |a|];
        }
      }
    }
  }

  /** The pairs of `ks` for which `table` has no score row yet, in order. */
  function Unscored(table: seq<UserScore>, ks: seq<ScoreKey>): (r: seq<ScoreKey>)
    ensures |r| <= |ks|
    ensures forall k :: k in r <==> k in ks && IndexOf(table, KeyOf, k).None?
  {
    Filter(ks, k => IndexOf(table, KeyOf, k).None?)
  }

  /** Fresh score rows for `ks`, with ids from `firstId` on, no score and `lastAccessed == now`:
      what a `createMany` (or a sequence of `create`s) with only `userId` and `holeId` inserts. */
  function NewScores(ks: seq<ScoreKey>, firstId: nat, now: Time): (r: seq<UserScore>)
    ensures |r| == |ks|
    ensures forall i :: 0 <= i < |ks| ==>
              r[i] == UserScore(firstId + i, ks[i].userId, ks[i].holeId, None, now)
  {
    seq(|ks|, i requires 0 <= i < |ks| => UserScore(firstId + i, ks[i].userId, ks[i].holeId, None, now))
  }

  lemma UnscoredSnoc(table: seq<UserScore>, ks: seq<ScoreKey>, k: ScoreKey)
    ensures Unscored(table, ks + [k]) ==
            Unscored(table, ks) + (if IndexOf(table, KeyOf, k).None? then [k] else [])
  {
    FilterSnoc(ks, k, k => IndexOf(table, KeyOf, k).None?);
  }

  lemma NewScoresSnoc(ks: seq<ScoreKey>, k: ScoreKey, firstId: nat, now: Time)
    ensures NewScores(ks + [k], firstId, now) ==
            NewScores(ks, firstId, now) + [UserScore(firstId + |ks|, k.userId, k.holeId, None, now)]
  {
  }

  lemma RowKeysSnoc(u: User, hs: seq<Hole>, j: nat)
    requires j < |hs|
    ensures RowKeys(u, hs[..j + 1]) == RowKeys(u, hs[..j]) + [ScoreKey(u.id, hs[j].id)]
  {
    var a, b := RowKeys(u, hs[..j + 1]), RowKeys(u, hs[..j]) + [ScoreKey(u.id, hs[j].id)];
    assert |a| == |b|;
    forall q | 0 <= q < |a| ensures a[q] == b[q] {
      assert hs[..j + 1][q] == hs[q];
    }
  }

  lemma CrossKeysSnoc(us: seq<User>, hs: seq<Hole>, i: nat)
    requires i < |us|
    ensures CrossKeys(us[..i + 1], hs) == CrossKeys(us[..i], hs) + RowKeys(us[i], hs)
  {
    assert us[..i + 1][..i] == us[..i];
    assert hs[..|hs|] == hs;
  }

  /** The missing pairs of a sequence with no repeated pair repeat no pair either. */
  lemma UnscoredKeepsUnique(table: seq<UserScore>, ks: seq<ScoreKey>)
    requires Unique(ks, SameKey)
    ensures Unique(Unscored(table, ks), SameKey)
  {
    FilterKeepsUnique(ks, k => IndexOf(table, KeyOf, k).None?, SameKey);
  }

  /** Filling in the missing pairs once leaves none missing: a second pass creates nothing. */
  lemma FillingIsIdempotent(table: seq<UserScore>, ks: seq<ScoreKey>, firstId: nat, now: Time)
    ensures Unscored(table + NewScores(Unscored(table, ks), firstId, now), ks) == []
  {
    var missing := Unscored(table, ks);
    var created := NewScores(missing, firstId, now);
    var filled := table + created;
    forall k | k in ks ensures IndexOf(filled, KeyOf, k).Some? {
      match IndexOf(table, KeyOf, k)
      case Some(i) =>
        assert KeyOf(filled[i]) == k;
      case None =>
        assert k in missing;
        var q :| 0 <= q < |missing| && missing[q] == k;
        assert KeyOf(filled[|table| + q]) == k;
    }
    FilterRejectingAll(ks, k => IndexOf(filled, KeyOf, k).None?);
  }

  /** Appending a row with the next id, then moving the counter on, keeps the auto-increment invariant. */
  lemma AppendKeepsAutoIncrement<T>(s: seq<T>, x: T, id: T -> nat, next: nat)
    requires AutoIncrement(s, id, next) && id(x) == next
    ensures AutoIncrement(s + [x], id, next + 1)
  {
  }

  /** Appending freshly numbered score rows keeps the auto-increment invariant. */
  lemma AppendNewScoresKeepsAutoIncrement(s: seq<UserScore>, ks: seq<ScoreKey>, next: nat, now: Time)
    requires AutoIncrement(s, ScoreId, next)
    ensures AutoIncrement(s + NewScores(ks, next, now), ScoreId, next + |ks|)
  {
    var t := s + NewScores(ks, next, now);
    forall i, j | 0 <= i < j < |t| ensures ScoreId(t[i]) < ScoreId(t[j]) {
      if j < |s| {
      } else if i < |s| {
        assert ScoreId(t[i]) < next <= ScoreId(t[j]);
      }
    }
  }
}
