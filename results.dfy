// updateMatchResult (src/context/DataContext.tsx:264-293): the match with
// the given identifier gets both scores and both scorer lists.

module Results {
  import opened Util
  import opened Types

  /** `matches.map(m => m.id === matchId ? { ...m, scoreA, scoreB, scorersA, scorersB } : m)`. */
  function RecordResult(matches: seq<Match>, matchId: string, scoreA: int, scoreB: int,
                        scorersA: seq<Scorer>, scorersB: seq<Scorer>): seq<Match>
  {
    seq(|matches|, k requires 0 <= k < |matches| =>
      if matches[k].id == matchId then
        matches[k].(scoreA := Some(scoreA), scoreB := Some(scoreB), scorersA := Some(scorersA), scorersB := Some(scorersB))
      else matches[k])
  }

  /** updateMatchResult: only games with that identifier that already have a match list are touched. */
  function UpdateMatchResult(games: seq<Game>, gameId: string, matchId: string, scoreA: int, scoreB: int,
                             scorersA: seq<Scorer>, scorersB: seq<Scorer>): seq<Game>
  {
    seq(|games|, g requires 0 <= g < |games| =>
      if games[g].id == gameId && games[g].matches.Some? then
        games[g].(matches := Some(RecordResult(games[g].matches.value, matchId, scoreA, scoreB, scorersA, scorersB)))
      else games[g])
  }

  /**
   * Recording a result changes nothing but the four result fields of the
   * matches with `matchId`: no team, player, other game or other match is
   * touched, the match list keeps its length and order, and a game without a
   * match list is left as it is.
   */
  lemma UpdateMatchResultEffect(games: seq<Game>, gameId: string, matchId: string, scoreA: int, scoreB: int,
                                scorersA: seq<Scorer>, scorersB: seq<Scorer>)
    ensures var r := UpdateMatchResult(games, gameId, matchId, scoreA, scoreB, scorersA, scorersB);
      && |r| == |games|
      && (forall g :: 0 <= g < |games| ==> r[g] == games[g].(matches := r[g].matches))
      && (forall g :: 0 <= g < |games| && (games[g].id != gameId || games[g].matches.None?) ==> r[g] == games[g])
      && (forall g :: 0 <= g < |games| && games[g].id == gameId && games[g].matches.Some? ==>
            && r[g].matches.Some?
            && |r[g].matches.value| == |games[g].matches.value|
            && (forall k :: 0 <= k < |games[g].matches.value| ==>
                  var m := games[g].matches.value[k];
                  var m' := r[g].matches.value[k];
                  && m'.id == m.id && m'.teamAId == m.teamAId && m'.teamBId == m.teamBId
                  && m'.teamAName == m.teamAName && m'.teamBName == m.teamBName
                  && (m.id != matchId ==> m' == m)
                  && (m.id == matchId ==>
                        m'.scoreA == Some(scoreA) && m'.scoreB == Some(scoreB) &&
                        m'.scorersA == Some(scorersA) && m'.scorersB == Some(scorersB))))
  {
  }

  /** Recording the same result twice is the same as recording it once. */
  lemma UpdateMatchResultIdempotent(games: seq<Game>, gameId: string, matchId: string, scoreA: int, scoreB: int,
                                    scorersA: seq<Scorer>, scorersB: seq<Scorer>)
    ensures var once := UpdateMatchResult(games, gameId, matchId, scoreA, scoreB, scorersA, scorersB);
      UpdateMatchResult(once, gameId, matchId, scoreA, scoreB, scorersA, scorersB) == once
  {
    var once := UpdateMatchResult(games, gameId, matchId, scoreA, scoreB, scorersA, scorersB);
    var twice := UpdateMatchResult(once, gameId, matchId, scoreA, scoreB, scorersA, scorersB);
    forall g | 0 <= g < |games|
      ensures twice[g] == once[g]
    {
      if games[g].id == gameId && games[g].matches.Some? {
        var ms := once[g].matches.value;
        assert RecordResult(ms, matchId, scoreA, scoreB, scorersA, scorersB) == ms;
      }
    }
  }
}
