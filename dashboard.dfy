// The admin dashboard's numbers (src/pages/admin/Dashboard.tsx:63-82, 124-166):
// players per game, the upcoming/completed split and the pending counter.

module Dashboard {
  import opened Util
  import opened Types
  import opened Registration
  import opened Verification

  /** `teams.reduce((sum, team) => sum + <non-rejected players of team>, 0)`, folding from the left. */
  function TotalOver(teams: seq<Team>): nat
    decreases |teams|
  {
    if teams == [] then 0
    else TotalOver(teams[..|teams| - 1]) + |ActivePlayers(teams[|teams| - 1].players)|
  }

  /** getTotalPlayers. */
  function TotalPlayers(game: Game): nat
  {
    TotalOver(game.teams)
  }

  /** The total is the number of non-rejected players across all teams of the game. */
  lemma {:induction false} TotalOverCountsActive(teams: seq<Team>)
    ensures TotalOver(teams) == |ActivePlayers(AllPlayers(teams))|
    decreases |teams|
  {
    if teams != [] {
      var init := teams[..|teams| - 1];
      var last := teams[|teams| - 1];
      TotalOverCountsActive(init);
      assert teams == init + [last];
      AllPlayersSnoc(init, last);
      FilterAppend(AllPlayers(init), last.players, (p: Player) => p.status != Rejected);
    }
  }

  lemma TotalPlayersCountsActive(game: Game)
    ensures TotalPlayers(game) == |ActivePlayers(AllPlayers(game.teams))|
    ensures game.teams == [] ==> TotalPlayers(game) == 0
  {
    TotalOverCountsActive(game.teams);
  }

  /** Some team carries the identifier. */
  predicate HasTeam(teams: seq<Team>, teamId: string)
  {
    exists k :: 0 <= k < |teams| && teams[k].id == teamId
  }

  lemma {:induction false} TotalOverAppend(teams: seq<Team>, teamId: string, p: Player)
    requires UniqueTeamIds(teams)
    requires p.status == Pending
    ensures TotalOver(AppendToTeam(teams, teamId, p)) == TotalOver(teams) + (if HasTeam(teams, teamId) then 1 else 0)
    decreases |teams|
  {
    if teams != [] {
      var n := |teams|;
      var init := teams[..n - 1];
      var last := teams[n - 1];
      var r := AppendToTeam(teams, teamId, p);
      var rinit := AppendToTeam(init, teamId, p);
      assert r[..n - 1] == rinit;
      assert TotalOver(r) == TotalOver(rinit) + |ActivePlayers(r[n - 1].players)|;
      assert UniqueTeamIds(init);
      TotalOverAppend(init, teamId, p);
      if last.id == teamId {
        assert r[n - 1].players == last.players + [p];
        ActiveAppendPending(last.players, p);
        assert !HasTeam(init, teamId);
        assert HasTeam(teams, teamId);
      } else {
        assert r[n - 1] == last;
        if HasTeam(teams, teamId) {
          var k :| 0 <= k < n && teams[k].id == teamId;
          assert init[k].id == teamId;
        }
        if HasTeam(init, teamId) {
          var k :| 0 <= k < n - 1 && init[k].id == teamId;
          assert teams[k].id == teamId;
        }
      }
    }
  }

  /**
   * A successful registration raises the player total of the game the checks
   * looked at by exactly one, when its team identifiers are unique.
   */
  lemma RegisterRaisesTotal(games: seq<Game>, gameId: string, teamId: string, data: PlayerData,
                            newId: string, registeredAt: string)
    requires Register(games, gameId, teamId, data, newId, registeredAt).result.success
    requires forall g :: 0 <= g < |games| ==> UniqueTeamIds(games[g].teams)
    ensures FindGame(games, gameId).Some?
    ensures var gi := FindGame(games, gameId).value;
      var after := Register(games, gameId, teamId, data, newId, registeredAt).games;
      gi < |after| && TotalPlayers(after[gi]) == TotalPlayers(games[gi]) + 1
  {
    var gi, ti := RegisterSuccessAt(games, gameId, teamId, data, newId, registeredAt);
    FindGameIsFirst(games, gameId, gi);
    FindTeamIsFirst(games[gi].teams, teamId, ti);
    var p := NewPlayer(data, newId, registeredAt);
    var after := Register(games, gameId, teamId, data, newId, registeredAt).games;
    assert after[gi] == games[gi].(teams := AppendToTeam(games[gi].teams, teamId, p));
    assert games[gi].teams[ti].id == teamId;
    TotalOverAppend(games[gi].teams, teamId, p);
  }

  /** `games.filter(g => g.status === 'upcoming')`. */
  function UpcomingGames(games: seq<Game>): seq<Game>
  {
    Filter(games, (g: Game) => g.status == Upcoming)
  }

  /** `games.filter(g => g.status === 'completed')`. */
  function CompletedGames(games: seq<Game>): seq<Game>
  {
    Filter(games, (g: Game) => g.status == Completed)
  }

  /**
   * The two lists split the games: every game is in the one its status
   * names, no game is in both, and the two counts add up to the number of
   * games.
   */
  lemma {:induction false} UpcomingCompletedPartition(games: seq<Game>)
    ensures |UpcomingGames(games)| + |CompletedGames(games)| == |games|
    ensures forall k :: 0 <= k < |UpcomingGames(games)| ==> UpcomingGames(games)[k].status == Upcoming
    ensures forall k :: 0 <= k < |CompletedGames(games)| ==> CompletedGames(games)[k].status == Completed
    ensures forall k :: 0 <= k < |games| ==> games[k] in UpcomingGames(games) || games[k] in CompletedGames(games)
    ensures forall g :: g in UpcomingGames(games) ==> g !in CompletedGames(games)
  {
    if games != [] {
      UpcomingCompletedPartition(games[1..]);
    }
  }

  /** The pending players of all games, in the order the store holds them. */
  function PendingPlayers(games: seq<Game>): seq<Player>
  {
    Filter(Everyone(games), (p: Player) => p.status == Pending)
  }

  lemma {:induction false} EveryoneSnoc(games: seq<Game>, g: Game)
    ensures Everyone(games + [g]) == Everyone(games) + AllPlayers(g.teams)
    decreases |games|
  {
    if games == [] {
      assert Everyone([g]) == AllPlayers(g.teams) + Everyone([]);
    } else {
      assert (games + [g])[1..] == games[1..] + [g];
      EveryoneSnoc(games[1..], g);
    }
  }

  lemma {:induction false} PendingInTeamCount(game: Game, players: seq<Player>)
    ensures |PendingInTeam(game, players)| == |Filter(players, (p: Player) => p.status == Pending)|
    decreases |players|
  {
    if players != [] {
      var init := players[..|players| - 1];
      var last := players[|players| - 1];
      PendingInTeamCount(game, init);
      assert players == init + [last];
      FilterAppend(init, [last], (p: Player) => p.status == Pending);
    }
  }

  lemma {:induction false} PendingInTeamsCount(game: Game, teams: seq<Team>)
    ensures |PendingInTeams(game, teams)| == |Filter(AllPlayers(teams), (p: Player) => p.status == Pending)|
    decreases |teams|
  {
    if teams != [] {
      var init := teams[..|teams| - 1];
      var last := teams[|teams| - 1];
      PendingInTeamsCount(game, init);
      PendingInTeamCount(game, last.players);
      assert teams == init + [last];
      AllPlayersSnoc(init, last);
      FilterAppend(AllPlayers(init), last.players, (p: Player) => p.status == Pending);
    }
  }

  /**
   * The dashboard's pending counter (the length of getPendingRegistrations())
   * is the number of players across all games whose status is `pending`.
   */
  lemma {:induction false} PendingCountIsPendingPlayers(games: seq<Game>)
    ensures |PendingOf(games)| == |PendingPlayers(games)|
    decreases |games|
  {
    if games != [] {
      var init := games[..|games| - 1];
      var last := games[|games| - 1];
      assert PendingOf(games) == PendingOf(init) + PendingInTeams(last, last.teams);
      PendingCountIsPendingPlayers(init);
      PendingInTeamsCount(last, last.teams);
      assert games == init + [last];
      EveryoneSnoc(init, last);
      FilterAppend(Everyone(init), AllPlayers(last.teams), (p: Player) => p.status == Pending);
      assert PendingPlayers(games) == PendingPlayers(init) + Filter(AllPlayers(last.teams), (p: Player) => p.status == Pending);
    }
  }
}
