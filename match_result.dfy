// The public result page (src/pages/MatchResult.tsx): which match it shows,
// whether a result exists, who won, and the goal label of a scorer row.

module MatchResult {
  import opened Util
  import opened Types
  import Results
  import GameRecords

  const DrawLabel: string := "Draw"

  /** `getGame(gameId)` followed by `game?.matches?.find(m => m.id === matchId)`. */
  function ShownMatch(games: seq<Game>, gameId: string, matchId: string): (r: Option<Match>)
    ensures r.Some? ==>
      && GameRecords.GetGame(games, gameId).Some?
      && GameRecords.GetGame(games, gameId).value.matches.Some?
      && r.value in GameRecords.GetGame(games, gameId).value.matches.value
      && r.value.id == matchId
    ensures r.None? ==>
      || GameRecords.GetGame(games, gameId).None?
      || GameRecords.GetGame(games, gameId).value.matches.None?
      || matchId !in (set m | m in GameRecords.GetGame(games, gameId).value.matches.value :: m.id)
  {
    match GameRecords.GetGame(games, gameId)
    case None => None
    case Some(game) =>
      if game.matches.None? then None
      else
        match FindMatch(game.matches.value, matchId)
        case None => None
        case Some(k) => Some(game.matches.value[k])
  }

  /** `hasResult`: both scores are present. */
  predicate HasResult(m: Match)
  {
    m.scoreA.Some? && m.scoreB.Some?
  }

  /** `winner`: no winner without a result; otherwise the higher score's team name, or 'Draw'. */
  function Winner(m: Match): (r: Option<string>)
    ensures r.None? <==> !HasResult(m)
  {
    if !HasResult(m) then None
    else if m.scoreA.value > m.scoreB.value then Some(m.teamAName)
    else if m.scoreB.value > m.scoreA.value then Some(m.teamBName)
    else Some(DrawLabel)
  }

  /** The same match seen from the other side. */
  function Mirror(m: Match): Match
  {
    m.(teamAId := m.teamBId, teamAName := m.teamBName, teamBId := m.teamAId, teamBName := m.teamAName,
       scoreA := m.scoreB, scoreB := m.scoreA, scorersA := m.scorersB, scorersB := m.scorersA)
  }

  /** The winner does not depend on which team is listed first. */
  lemma WinnerMirror(m: Match)
    ensures HasResult(Mirror(m)) == HasResult(m)
    ensures Winner(Mirror(m)) == Winner(m)
  {
  }

  /**
   * When neither team is called 'Draw', the page announces a draw exactly
   * when the two recorded scores are equal, and a team exactly when it
   * scored more.
   */
  lemma WinnerMeaning(m: Match)
    requires m.teamAName != DrawLabel && m.teamBName != DrawLabel
    requires m.teamAName != m.teamBName
    ensures Winner(m) == Some(DrawLabel) <==> HasResult(m) && m.scoreA.value == m.scoreB.value
    ensures Winner(m) == Some(m.teamAName) <==> HasResult(m) && m.scoreA.value > m.scoreB.value
    ensures Winner(m) == Some(m.teamBName) <==> HasResult(m) && m.scoreB.value > m.scoreA.value
  {
  }

  /** The label after a scorer's goal count. */
  function GoalLabel(goals: int): (r: string)
    ensures r == "goal" <==> goals == 1
    ensures r == "goals" <==> goals != 1
  {
    if goals == 1 then "goal" else "goals"
  }

  /**
   * Once a result is recorded for a match the page can show, the page shows
   * that same match with a result, and its winner follows the recorded
   * scores.
   */
  lemma RecordedResultShown(games: seq<Game>, gameId: string, matchId: string, scoreA: int, scoreB: int,
                            scorersA: seq<Scorer>, scorersB: seq<Scorer>)
    requires ShownMatch(games, gameId, matchId).Some?
    ensures var m := ShownMatch(games, gameId, matchId).value;
      var after := ShownMatch(Results.UpdateMatchResult(games, gameId, matchId, scoreA, scoreB, scorersA, scorersB),
                              gameId, matchId);
      && after == Some(m.(scoreA := Some(scoreA), scoreB := Some(scoreB),
                          scorersA := Some(scorersA), scorersB := Some(scorersB)))
      && HasResult(after.value)
      && Winner(after.value) == (if scoreA > scoreB then Some(m.teamAName)
                                 else if scoreB > scoreA then Some(m.teamBName)
                                 else Some(DrawLabel))
  {
    var r := Results.UpdateMatchResult(games, gameId, matchId, scoreA, scoreB, scorersA, scorersB);
    Results.UpdateMatchResultEffect(games, gameId, matchId, scoreA, scoreB, scorersA, scorersB);
    FindGameSameIds(games, r, gameId);
    var gi := FindGame(games, gameId).value;
    var ms := games[gi].matches.value;
    var ms' := r[gi].matches.value;
    FindMatchSameIds(ms, ms', matchId);
  }
}
