// The admin result editor (src/pages/admin/MatchResultEditor.tsx): the form
// state it starts from, the scorer-list edits, and the submit that hands the
// state to updateMatchResult.

module MatchResultEditor {
  import opened Util
  import opened Types
  import Results
  import RoundRobin
  import GameRecords
  import MatchResult

  /** The `team: 'A' | 'B'` argument of the handlers. */
  datatype Side = SideA | SideB
  {
    function Other(): Side
    {
      if this == SideA then SideB else SideA
    }
  }

  /** The four `useState` values of the form. */
  datatype EditorState = EditorState(scoreA: int, scoreB: int, scorersA: seq<Scorer>, scorersB: seq<Scorer>)
  {
    function Scorers(side: Side): seq<Scorer>
    {
      if side == SideA then scorersA else scorersB
    }

    function WithScorers(side: Side, s: seq<Scorer>): EditorState
    {
      if side == SideA then this.(scorersA := s) else this.(scorersB := s)
    }
  }

  /** The form's start: `match?.scoreA || 0`, `match?.scorersA || []`, and likewise for B. */
  function InitialState(m: Option<Match>): EditorState
  {
    if m.None? then EditorState(0, 0, [], [])
    else EditorState(m.value.scoreA.GetOr(0), m.value.scoreB.GetOr(0),
                     m.value.scorersA.GetOr([]), m.value.scorersB.GetOr([]))
  }

  /** A freshly generated match opens as 0 : 0 with no scorers. */
  lemma FreshMatchOpensEmpty(m: Match)
    requires RoundRobin.Unscored(m)
    ensures InitialState(Some(m)) == EditorState(0, 0, [], [])
  {
  }

  /**
   * The candidate scorers of a side: the confirmed players of the first team
   * with that identifier, or none when no team has it.
   */
  function Candidates(game: Game, teamId: string): (r: seq<Player>)
    ensures FindTeam(game.teams, teamId).None? ==> r == []
    ensures forall k :: 0 <= k < |r| ==> r[k].status == Confirmed
    ensures FindTeam(game.teams, teamId).Some? ==>
      var team := game.teams[FindTeam(game.teams, teamId).value];
      && team.id == teamId
      && (forall k :: 0 <= k < |r| ==> r[k] in team.players)
      && (forall k :: 0 <= k < |team.players| && team.players[k].status == Confirmed ==> team.players[k] in r)
  {
    match FindTeam(game.teams, teamId)
    case None => []
    case Some(t) => Filter(game.teams[t].players, (p: Player) => p.status == Confirmed)
  }

  /** `teamAPlayers` or `teamBPlayers`. */
  function SideCandidates(game: Game, m: Match, side: Side): seq<Player>
  {
    Candidates(game, if side == SideA then m.teamAId else m.teamBId)
  }

  const BlankScorer: Scorer := Scorer("", "", 1)

  /** handleAddScorer: one blank entry with one goal at the end of the chosen side. */
  function AddScorer(st: EditorState, side: Side): (r: EditorState)
    ensures r.Scorers(side) == st.Scorers(side) + [BlankScorer]
    ensures r.Scorers(side.Other()) == st.Scorers(side.Other())
    ensures r.scoreA == st.scoreA && r.scoreB == st.scoreB
  {
    st.WithScorers(side, st.Scorers(side) + [BlankScorer])
  }

  /** handleRemoveScorer: `filter((_, i) => i !== index)` on the chosen side. */
  function RemoveScorer(st: EditorState, side: Side, index: int): (r: EditorState)
  {
    st.WithScorers(side, WithoutIndex(st.Scorers(side), index))
  }

  /**
   * Removing drops exactly the entry at `index`, keeping the order of the
   * rest; the other side and the scores are untouched, and an index outside
   * the list changes nothing.
   */
  lemma RemoveScorerEffect(st: EditorState, side: Side, index: int)
    ensures var r := RemoveScorer(st, side, index);
      && r.Scorers(side.Other()) == st.Scorers(side.Other())
      && r.scoreA == st.scoreA && r.scoreB == st.scoreB
      && (0 <= index < |st.Scorers(side)| ==>
            r.Scorers(side) == st.Scorers(side)[..index] + st.Scorers(side)[index + 1..])
      && (!(0 <= index < |st.Scorers(side)|) ==> r == st)
  {
    var s := st.Scorers(side);
    var r := RemoveScorer(st, side, index);
    if 0 <= index < |s| {
      assert r.Scorers(side) == s[..index] + s[index + 1..];
    }
  }

  /** Removing the entry just added gives back the form as it was. */
  lemma AddThenRemoveScorer(st: EditorState, side: Side)
    ensures RemoveScorer(AddScorer(st, side), side, |st.Scorers(side)|) == st
  {
    var s := st.Scorers(side);
    assert WithoutIndex(s + [BlankScorer], |s|) == s;
  }

  /**
   * `player?.name || ''` for `find(p => p.id === value)`: the name of the
   * first candidate with that identifier, or the empty string.
   */
  function NameOf(candidates: seq<Player>, playerId: string): (r: string)
    ensures (forall k :: 0 <= k < |candidates| ==> candidates[k].id != playerId) ==> r == ""
    ensures (exists k :: 0 <= k < |candidates| && candidates[k].id == playerId) ==>
      exists k :: 0 <= k < |candidates| && candidates[k].id == playerId && r == candidates[k].name &&
        forall l :: 0 <= l < k ==> candidates[l].id != playerId
  {
    match FindFirst(candidates, (p: Player) => p.id == playerId)
    case None => ""
    case Some(k) => candidates[k].name
  }

  /** The field and the new value of handleScorerChange. */
  datatype ScorerEdit = PlayerIdEdit(playerId: string) | PlayerNameEdit(playerName: string) | GoalsEdit(goals: int)

  /** `{ ...s, [field]: value }`. */
  function SetField(s: Scorer, edit: ScorerEdit): Scorer
  {
    match edit
    case PlayerIdEdit(id) => s.(playerId := id)
    case PlayerNameEdit(name) => s.(playerName := name)
    case GoalsEdit(g) => s.(goals := g)
  }

  /**
   * handleScorerChange: the chosen side's list is copied, the entry at
   * `index` gets the new field value, and a new player identifier also
   * refreshes the name from that side's candidates. The source's callers
   * pass the index of a rendered entry, so it is in range.
   */
  method ChangeScorer(st: EditorState, game: Game, m: Match, side: Side, index: nat, edit: ScorerEdit)
    returns (r: EditorState)
    requires index < |st.Scorers(side)|
    ensures r.scoreA == st.scoreA && r.scoreB == st.scoreB
    ensures r.Scorers(side.Other()) == st.Scorers(side.Other())
    ensures |r.Scorers(side)| == |st.Scorers(side)|
    ensures forall k :: 0 <= k < |st.Scorers(side)| && k != index ==> r.Scorers(side)[k] == st.Scorers(side)[k]
    ensures var before := st.Scorers(side)[index];
      var after := r.Scorers(side)[index];
      match edit
      case PlayerIdEdit(id) => after == before.(playerId := id, playerName := NameOf(SideCandidates(game, m, side), id))
      case PlayerNameEdit(name) => after == before.(playerName := name)
      case GoalsEdit(g) => after == before.(goals := g)
  {
    var current := st.Scorers(side);
    var updated := new Scorer[|current|](k requires 0 <= k < |current| => current[k]);
    updated[index] := SetField(updated[index], edit);
    if edit.PlayerIdEdit? {
      var name := NameOf(SideCandidates(game, m, side), edit.playerId);
      updated[index] := updated[index].(playerName := name);
    }
    r := st.WithScorers(side, updated[..]);
  }

  /**
   * handleSubmit: the current form goes unchanged to updateMatchResult for
   * the game and match the page shows (the form only exists for a match the
   * page found).
   */
  function Submit(games: seq<Game>, gameId: string, matchId: string, st: EditorState): seq<Game>
    requires MatchResult.ShownMatch(games, gameId, matchId).Some?
  {
    var game := GameRecords.GetGame(games, gameId).value;
    var m := MatchResult.ShownMatch(games, gameId, matchId).value;
    Results.UpdateMatchResult(games, game.id, m.id, st.scoreA, st.scoreB, st.scorersA, st.scorersB)
  }

  /** Reopening the editor after a submit shows exactly the form that was submitted. */
  lemma SubmitThenReopen(games: seq<Game>, gameId: string, matchId: string, st: EditorState)
    requires MatchResult.ShownMatch(games, gameId, matchId).Some?
    ensures InitialState(MatchResult.ShownMatch(Submit(games, gameId, matchId, st), gameId, matchId)) == st
  {
    MatchResult.RecordedResultShown(games, gameId, matchId, st.scoreA, st.scoreB, st.scorersA, st.scorersB);
  }
}
