// updatePlayerStatus and getPendingRegistrations
// (src/context/DataContext.tsx:173-203).

module Verification {
  import opened Util
  import opened Types
  import opened Registration

  /** `players.map(p => p.id === playerId ? { ...p, status } : p)`. */
  function SetStatus(players: seq<Player>, playerId: string, status: Status): (r: seq<Player>)
  {
    seq(|players|, k requires 0 <= k < |players| =>
      if players[k].id == playerId then players[k].(status := status) else players[k])
  }

  function SetStatusInTeams(teams: seq<Team>, playerId: string, status: Status): (r: seq<Team>)
  {
    seq(|teams|, t requires 0 <= t < |teams| =>
      teams[t].(players := SetStatus(teams[t].players, playerId, status)))
  }

  /**
   * updatePlayerStatus: the admin's verdict overwrites the status of every
   * player with `playerId` in the game(s) with `gameId`, whatever it was.
   */
  function UpdatePlayerStatus(games: seq<Game>, gameId: string, playerId: string, status: Status): (r: seq<Game>)
    requires status != Pending
  {
    seq(|games|, g requires 0 <= g < |games| =>
      if games[g].id == gameId then games[g].(teams := SetStatusInTeams(games[g].teams, playerId, status))
      else games[g])
  }

  /**
   * Only the status of the matching players changes: every game, team and
   * player keeps its place and every other field.
   */
  lemma UpdatePlayerStatusEffect(games: seq<Game>, gameId: string, playerId: string, status: Status)
    requires status != Pending
    ensures var r := UpdatePlayerStatus(games, gameId, playerId, status);
      && |r| == |games|
      && (forall g :: 0 <= g < |games| && games[g].id != gameId ==> r[g] == games[g])
      && (forall g :: 0 <= g < |games| ==> r[g].id == games[g].id && |r[g].teams| == |games[g].teams|)
      && (forall g, t :: 0 <= g < |games| && 0 <= t < |games[g].teams| ==>
            r[g].teams[t].id == games[g].teams[t].id && |r[g].teams[t].players| == |games[g].teams[t].players|)
      && (forall g, t, k ::
            (0 <= g < |games| && games[g].id == gameId && 0 <= t < |games[g].teams| &&
             0 <= k < |games[g].teams[t].players|) ==>
            var p := games[g].teams[t].players[k];
            r[g].teams[t].players[k] == if p.id == playerId then p.(status := status) else p)
  {
  }

  /** Giving the same verdict twice is the same as giving it once. */
  lemma UpdatePlayerStatusIdempotent(games: seq<Game>, gameId: string, playerId: string, status: Status)
    requires status != Pending
    ensures var once := UpdatePlayerStatus(games, gameId, playerId, status);
      UpdatePlayerStatus(once, gameId, playerId, status) == once
  {
    var once := UpdatePlayerStatus(games, gameId, playerId, status);
    var twice := UpdatePlayerStatus(once, gameId, playerId, status);
    forall g | 0 <= g < |games|
      ensures twice[g] == once[g]
    {
      if games[g].id == gameId {
        var ts := once[g].teams;
        assert SetStatusInTeams(ts, playerId, status) == ts by {
          forall t | 0 <= t < |ts|
            ensures SetStatus(ts[t].players, playerId, status) == ts[t].players
          {
          }
        }
      }
    }
  }

  /** Rejecting a player never takes a slot: the non-rejected count of a team does not grow. */
  lemma RejectFreesCapacity(players: seq<Player>, playerId: string)
    ensures |ActivePlayers(SetStatus(players, playerId, Rejected))| <= |ActivePlayers(players)|
    decreases |players|
  {
    if players != [] {
      var r := SetStatus(players, playerId, Rejected);
      assert r[1..] == SetStatus(players[1..], playerId, Rejected);
      RejectFreesCapacity(players[1..], playerId);
    }
  }

  /**
   * Once the only player using a contact is rejected, that contact can
   * register again in the same game, on any team with a free slot.
   */
  lemma ReRegisterAfterRejection(games: seq<Game>, gameId: string, playerId: string, gi: nat,
                                 teamId: string, ti: nat, data: PlayerData, newId: string, registeredAt: string)
    requires FirstGame(games, gameId, gi)
    requires forall t, k ::
               (0 <= t < |games[gi].teams| && 0 <= k < |games[gi].teams[t].players| &&
                games[gi].teams[t].players[k].contact == data.contact) ==>
               games[gi].teams[t].players[k].id == playerId
    requires FirstTeam(games[gi].teams, teamId, ti)
    ensures var after := UpdatePlayerStatus(games, gameId, playerId, Rejected);
      |ActivePlayers(after[gi].teams[ti].players)| < after[gi].maxPlayersPerTeam ==>
        Register(after, gameId, teamId, data, newId, registeredAt).result.success
  {
    var after := UpdatePlayerStatus(games, gameId, playerId, Rejected);
    UpdatePlayerStatusEffect(games, gameId, playerId, Rejected);
    assert FirstGame(after, gameId, gi);
    assert FirstTeam(after[gi].teams, teamId, ti);
    assert !HasActiveContact(after[gi].teams, data.contact);
    RegisterCheckOrder(after, gameId, teamId, data, newId, registeredAt, gi, ti);
  }

  /** One element of getPendingRegistrations(): the whole game and the player. */
  datatype PendingEntry = PendingEntry(game: Game, player: Player)

  /** The pending players of one team, in order, each paired with `game`. */
  function PendingInTeam(game: Game, players: seq<Player>): seq<PendingEntry>
    decreases |players|
  {
    if players == [] then []
    else
      var last := players[|players| - 1];
      PendingInTeam(game, players[..|players| - 1]) + (if last.status == Pending then [PendingEntry(game, last)] else [])
  }

  /** The pending players of a list of teams, team by team. */
  function PendingInTeams(game: Game, teams: seq<Team>): seq<PendingEntry>
    decreases |teams|
  {
    if teams == [] then []
    else PendingInTeams(game, teams[..|teams| - 1]) + PendingInTeam(game, teams[|teams| - 1].players)
  }

  /** getPendingRegistrations as a value: game by game, then team by team, then player by player. */
  function PendingOf(games: seq<Game>): seq<PendingEntry>
    decreases |games|
  {
    if games == [] then []
    else PendingOf(games[..|games| - 1]) + PendingInTeams(games[|games| - 1], games[|games| - 1].teams)
  }

  /** The innermost `forEach` of getPendingRegistrations: one team's pending players, in order. */
  method ScanTeam(game: Game, players: seq<Player>) returns (found: seq<PendingEntry>)
    ensures found == PendingInTeam(game, players)
  {
    found := [];
    var k := 0;
    while k < |players|
      invariant 0 <= k <= |players|
      invariant found == PendingInTeam(game, players[..k])
    {
      var player := players[k];
      assert players[..k + 1][..k] == players[..k];
      if player.status == Pending {
        found := found + [PendingEntry(game, player)];
      }
      k := k + 1;
    }
    assert players[..k] == players;
  }

  /** The middle `forEach`: one game's pending players, team by team. */
  method ScanGame(game: Game) returns (found: seq<PendingEntry>)
    ensures found == PendingInTeams(game, game.teams)
  {
    found := [];
    var t := 0;
    while t < |game.teams|
      invariant 0 <= t <= |game.teams|
      invariant found == PendingInTeams(game, game.teams[..t])
    {
      var team := game.teams[t];
      var inTeam := ScanTeam(game, team.players);
      assert game.teams[..t + 1][..t] == game.teams[..t];
      found := found + inTeam;
      t := t + 1;
    }
    assert game.teams[..t] == game.teams;
  }

  lemma {:induction false} PendingInTeamMembers(game: Game, players: seq<Player>)
    ensures forall e :: e in PendingInTeam(game, players) <==>
      exists k :: 0 <= k < |players| && players[k].status == Pending && e == PendingEntry(game, players[k])
    decreases |players|
  {
    if players != [] {
      var init := players[..|players| - 1];
      PendingInTeamMembers(game, init);
      forall e | e in PendingInTeam(game, players)
        ensures exists k :: 0 <= k < |players| && players[k].status == Pending && e == PendingEntry(game, players[k])
      {
        if e in PendingInTeam(game, init) {
          var k :| 0 <= k < |init| && init[k].status == Pending && e == PendingEntry(game, init[k]);
          assert players[k] == init[k];
        }
      }
      forall e, k | 0 <= k < |players| && players[k].status == Pending && e == PendingEntry(game, players[k])
        ensures e in PendingInTeam(game, players)
      {
        if k < |init| {
          assert init[k] == players[k];
        }
      }
    }
  }

  lemma {:induction false} PendingInTeamsMembers(game: Game, teams: seq<Team>)
    ensures forall e :: e in PendingInTeams(game, teams) <==>
      exists t, k :: 0 <= t < |teams| && 0 <= k < |teams[t].players| &&
        teams[t].players[k].status == Pending && e == PendingEntry(game, teams[t].players[k])
    decreases |teams|
  {
    if teams != [] {
      var init := teams[..|teams| - 1];
      var last := |teams| - 1;
      assert PendingInTeams(game, teams) == PendingInTeams(game, init) + PendingInTeam(game, teams[last].players);
      PendingInTeamsMembers(game, init);
      PendingInTeamMembers(game, teams[last].players);
      forall e | e in PendingInTeams(game, teams)
        ensures exists t, k ::
                  0 <= t < |teams| && 0 <= k < |teams[t].players| &&
                  teams[t].players[k].status == Pending && e == PendingEntry(game, teams[t].players[k])
      {
        if e in PendingInTeams(game, init) {
          var t, k :| 0 <= t < |init| && 0 <= k < |init[t].players| &&
            init[t].players[k].status == Pending && e == PendingEntry(game, init[t].players[k]);
          assert teams[t] == init[t];
        } else {
          var k :| 0 <= k < |teams[last].players| && teams[last].players[k].status == Pending &&
            e == PendingEntry(game, teams[last].players[k]);
        }
      }
      forall e, t, k | 0 <= t < |teams| && 0 <= k < |teams[t].players| &&
          teams[t].players[k].status == Pending && e == PendingEntry(game, teams[t].players[k])
        ensures e in PendingInTeams(game, teams)
      {
        if t < last {
          assert init[t] == teams[t];
        }
      }
    }
  }

  /**
   * getPendingRegistrations returns exactly the `pending` players of all
   * games, each with the game it belongs to.
   */
  lemma {:induction false} PendingOfMembers(games: seq<Game>)
    ensures forall e :: e in PendingOf(games) <==>
      exists g, t, k :: 0 <= g < |games| && 0 <= t < |games[g].teams| && 0 <= k < |games[g].teams[t].players| &&
        games[g].teams[t].players[k].status == Pending && e == PendingEntry(games[g], games[g].teams[t].players[k])
    decreases |games|
  {
    if games != [] {
      var init := games[..|games| - 1];
      var last := |games| - 1;
      assert PendingOf(games) == PendingOf(init) + PendingInTeams(games[last], games[last].teams);
      PendingOfMembers(init);
      PendingInTeamsMembers(games[last], games[last].teams);
      forall e | e in PendingOf(games)
        ensures exists g, t, k ::
                  0 <= g < |games| && 0 <= t < |games[g].teams| && 0 <= k < |games[g].teams[t].players| &&
                  games[g].teams[t].players[k].status == Pending && e == PendingEntry(games[g], games[g].teams[t].players[k])
      {
        if e in PendingOf(init) {
          var g, t, k :| 0 <= g < |init| && 0 <= t < |init[g].teams| && 0 <= k < |init[g].teams[t].players| &&
            init[g].teams[t].players[k].status == Pending && e == PendingEntry(init[g], init[g].teams[t].players[k]);
          assert games[g] == init[g];
        } else {
          var t, k :| 0 <= t < |games[last].teams| && 0 <= k < |games[last].teams[t].players| &&
            games[last].teams[t].players[k].status == Pending && e == PendingEntry(games[last], games[last].teams[t].players[k]);
        }
      }
      forall e, g, t, k | 0 <= g < |games| && 0 <= t < |games[g].teams| && 0 <= k < |games[g].teams[t].players| &&
          games[g].teams[t].players[k].status == Pending && e == PendingEntry(games[g], games[g].teams[t].players[k])
        ensures e in PendingOf(games)
      {
        if g < last {
          assert init[g] == games[g];
        }
      }
    }
  }

  /** After a verdict, that player of that game is no longer listed as pending. */
  lemma VerdictLeavesPending(games: seq<Game>, gameId: string, playerId: string, status: Status)
    requires status != Pending
    ensures forall e :: e in PendingOf(UpdatePlayerStatus(games, gameId, playerId, status)) ==>
      !(e.game.id == gameId && e.player.id == playerId)
  {
    var r := UpdatePlayerStatus(games, gameId, playerId, status);
    PendingOfMembers(r);
    UpdatePlayerStatusEffect(games, gameId, playerId, status);
  }
}
