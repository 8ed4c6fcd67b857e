/** The client's room-state reducer (react-front-end/src/utils/room-reducer.ts).
    A state is `null` or an object holding the holes and the players; each player
    object owns a mutable array of scores. The reducer's shallow copy shares the
    player objects, and so their score arrays, with the state it was given. */
module RoomReducer {

  /** One hole of `scoreSchema`: its number and its par. */
  datatype HoleInfo = HoleInfo(number: int, par: int)

  /** The value of one player of `scoreSchema`. */
  datatype PlayerRecord = PlayerRecord(name: string, scores: seq<int>)

  /** The value of a `scoreSchema` record. */
  datatype Scores = Scores(holes: seq<HoleInfo>, players: seq<PlayerRecord>)

  /** Every player has one score per hole. */
  predicate Aligned(v: Scores)
  {
    forall p :: 0 <= p < |v.players| ==> |v.players[p].scores| == |v.holes|
  }

  /** A player object: a name and the array of its scores. */
  class Player {
    const name: string
    const scores: array<int>

    constructor (name: string, scores: seq<int>)
      ensures this.name == name && this.scores[..] == scores
      ensures fresh(this.scores)
    {
      this.name := name;
      this.scores := new int[|scores|](i requires 0 <= i < |scores| => scores[i]);
    }
  }

  /** A non-null room state. */
  class ScoreState {
    const holes: seq<HoleInfo>
    const players: seq<Player>

    constructor (holes: seq<HoleInfo>, players: seq<Player>)
      ensures this.holes == holes && this.players == players
    {
      this.holes := holes;
      this.players := players;
    }

    /** No two players share a score array. */
    ghost predicate Separate()
    {
      forall p, q :: 0 <= p < q < |players| ==> players[p].scores != players[q].scores
    }

    /** The value the state currently holds. */
    function View(): (v: Scores)
      reads set p | p in players :: p.scores
      ensures v.holes == holes && |v.players| == |players|
      ensures forall p :: 0 <= p < |players| ==> v.players[p] == PlayerRecord(players[p].name, players[p].scores[..])
    {
      Scores(holes, PlayersView(players))
    }
  }

  /** The values of a sequence of player objects. */
  function PlayersView(ps: seq<Player>): (r: seq<PlayerRecord>)
    reads set p | p in ps :: p.scores
    ensures |r| == |ps|
    ensures forall i :: 0 <= i < |ps| ==> r[i] == PlayerRecord(ps[i].name, ps[i].scores[..])
  {
    if ps == [] then [] else PlayersView(ps[..|ps| - 1]) + [PlayerRecord(ps[|ps| - 1].name, ps[|ps| - 1].scores[..])]
  }

  /** A state object holding the value `v`, as the client gets one from a parsed
      payload: fresh objects, one score array per player. */
  method Load(v: Scores) returns (s: ScoreState)
    ensures fresh(s) && s.Separate() && s.View() == v
    ensures forall p :: 0 <= p < |s.players| ==> fresh(s.players[p].scores)
  {
    var ps: seq<Player> := [];
    for i := 0 to |v.players|
      invariant |ps| == i
      invariant forall p :: 0 <= p < i ==> fresh(ps[p].scores)
      invariant forall p, q :: 0 <= p < q < i ==> ps[p].scores != ps[q].scores
      invariant forall p :: 0 <= p < i ==> ps[p].name == v.players[p].name && ps[p].scores[..] == v.players[p].scores
    {
      var player := new Player(v.players[i].name, v.players[i].scores);
      ps := ps + [player];
    }
    s := new ScoreState(v.holes, ps);
  }

  /** `ACTIONTYPE`: replace the state with a server payload, or set one score. */
  datatype Action =
    | UpdateScoresServer(payload: ScoreState)
    | UpdatePlayerScore(username: string, hole: int, value: int)

  /** What the reducer returns: a state, or the TypeError it throws when a non-null
      state has no players (`copy.players[0]` is undefined). */
  datatype Outcome = Next(state: ScoreState?) | TypeError

  /** The score array the reducer writes into, when there is one. */
  function Target(state: ScoreState?): set<array<int>>
    reads state
  {
    if state != null && |state.players| > 0 then {state.players[0].scores} else {}
  }

  /** `roomReducer`. `UPDATE-SCORES-SERVER` returns its payload. `UPDATE-PLAYER-SCORE`
      returns a null state as it is, throws on a state with no players, and otherwise
      writes the value into the first player's scores, whatever the username, and
      returns a shallow copy that shares the players with the state given. */
  method Reduce(state: ScoreState?, action: Action) returns (out: Outcome)
    requires action.UpdatePlayerScore? && state != null && |state.players| > 0 ==>
               0 <= action.hole < state.players[0].scores.Length
    modifies if action.UpdatePlayerScore? then Target(state) else {}
    ensures action.UpdateScoresServer? ==> out == Next(action.payload)
    ensures action.UpdatePlayerScore? && state == null ==> out == Next(null)
    ensures action.UpdatePlayerScore? && state != null && |state.players| == 0 ==> out == TypeError
    ensures action.UpdatePlayerScore? && state != null && |state.players| > 0 ==>
              && out.Next? && out.state != null && fresh(out.state)
              && out.state.holes == state.holes && out.state.players == state.players
              && state.players[0].scores[..] == old(state.players[0].scores[..])[action.hole := action.value]
              && (forall p :: 0 <= p < |state.players| && state.players[p].scores != state.players[0].scores ==>
                    state.players[p].scores[..] == old(state.players[p].scores[..]))
              && (state.Separate() ==>
                    && state.View() == SetPlayerScore(old(state.View()), action.hole, action.value)
                    && out.state.View() == state.View())
  {
    match action
    case UpdateScoresServer(payload) =>
      out := Next(payload);
    case UpdatePlayerScore(_, hole, value) =>
      if state == null {
        return Next(null);
      }
      if |state.players| == 0 {
        return TypeError;
      }
      var copy := new ScoreState(state.holes, state.players);
      copy.players[0].scores[hole] := value;
      out := Next(copy);
  }

  /** Setting score `hole` of the first player, on values. */
  function SetPlayerScore(v: Scores, hole: int, value: int): (r: Scores)
    requires |v.players| > 0 && 0 <= hole < |v.players[0].scores|
    ensures r.holes == v.holes && |r.players| == |v.players|
    ensures r.players[0].name == v.players[0].name
    ensures |r.players[0].scores| == |v.players[0].scores|
    ensures r.players[0].scores[hole] == value
    ensures forall k :: 0 <= k < |v.players[0].scores| && k != hole ==> r.players[0].scores[k] == v.players[0].scores[k]
    ensures forall p :: 1 <= p < |v.players| ==> r.players[p] == v.players[p]
  {
    var first := v.players[0];
    v.(players := v.players[0 := first.(scores := first.scores[hole := value])])
  }

  /** Setting a score keeps every player at one score per hole. */
  lemma SetPlayerScoreKeepsAligned(v: Scores, hole: int, value: int)
    requires |v.players| > 0 && 0 <= hole < |v.players[0].scores|
    requires Aligned(v)
    ensures Aligned(SetPlayerScore(v, hole, value))
  {
    var r := SetPlayerScore(v, hole, value);
    assert |r.players[0].scores| == |v.holes|;
  }

  /** A second write to the same score overrides the first. */
  lemma SetPlayerScoreLastWins(v: Scores, hole: int, x: int, y: int)
    requires |v.players| > 0 && 0 <= hole < |v.players[0].scores|
    ensures SetPlayerScore(SetPlayerScore(v, hole, x), hole, y) == SetPlayerScore(v, hole, y)
  {
    var a := SetPlayerScore(SetPlayerScore(v, hole, x), hole, y);
    var b := SetPlayerScore(v, hole, y);
    assert a.players[0].scores == b.players[0].scores;
    assert a.players == b.players;
  }

  /** Writes to two different scores commute. */
  lemma SetPlayerScoreCommutes(v: Scores, h1: int, x: int, h2: int, y: int)
    requires |v.players| > 0 && 0 <= h1 < |v.players[0].scores| && 0 <= h2 < |v.players[0].scores|
    requires h1 != h2
    ensures SetPlayerScore(SetPlayerScore(v, h1, x), h2, y) == SetPlayerScore(SetPlayerScore(v, h2, y), h1, x)
  {
    var a := SetPlayerScore(SetPlayerScore(v, h1, x), h2, y);
    var b := SetPlayerScore(SetPlayerScore(v, h2, y), h1, x);
    assert a.players[0].scores == b.players[0].scores;
    assert a.players == b.players;
  }

  /** `placeholderScores`: six holes numbered 1 to 6 and two players, each with one
      score per hole. */
  function PlaceholderScores(): (r: Scores)
    ensures |r.holes| == 6 && |r.players| == 2
    ensures forall i :: 0 <= i < 6 ==> r.holes[i].number == i + 1
    ensures Aligned(r)
  {
    Scores(
      [HoleInfo(1, 2), HoleInfo(2, 5), HoleInfo(3, 3), HoleInfo(4, 6), HoleInfo(5, 9), HoleInfo(6, 8)],
      [PlayerRecord("John", [3, 5, 3, 7, 8, 7]),
       PlayerRecord("Sam", [4, 4, 5, 6, 9, 8])])
  }
}
