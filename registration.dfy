// registerPlayer (src/context/DataContext.tsx:124-171): four checks in a
// fixed order, then one `pending` player appended to the chosen team.

module Registration {
  import opened Util
  import opened Types

  const GameNotFound: string := "Game not found"
  const TeamNotFound: string := "Team not found"
  const TeamFull: string := "Team is full"
  const AlreadyRegistered: string := "You have already registered for this game"

  /** `{ success: boolean; error?: string }`. */
  datatype RegisterResult = RegisterResult(success: bool, error: Option<string>)

  /** What the caller supplies: `Omit<Player, 'id' | 'status' | 'registeredAt'>`. */
  datatype PlayerData = PlayerData(name: string, contact: string, proofFile: ProofFile, teamId: string)

  /** The new `games` array together with the returned result. */
  datatype Registration = Registration(games: seq<Game>, result: RegisterResult)

  function Failed(error: string): RegisterResult
  {
    RegisterResult(false, Some(error))
  }

  /** The record built from the caller's data; the identifier and the time come from the clock. */
  function NewPlayer(data: PlayerData, id: string, registeredAt: string): Player
  {
    Player(id, data.name, data.contact, data.proofFile, Pending, data.teamId, registeredAt)
  }

  /** The duplicate check as written: `flatMap` over the teams, then `find`. */
  predicate ContactTaken(game: Game, contact: string)
  {
    FindFirst(AllPlayers(game.teams), (p: Player) => p.contact == contact && p.status != Rejected).Some?
  }

  /** Some non-rejected player of some team uses `contact`. */
  predicate HasActiveContact(teams: seq<Team>, contact: string)
  {
    exists t, k :: 0 <= t < |teams| && 0 <= k < |teams[t].players| &&
      teams[t].players[k].contact == contact && teams[t].players[k].status != Rejected
  }

  /** The inner `teams.map`: the team(s) with `teamId` get `p` at the end. */
  function AppendToTeam(teams: seq<Team>, teamId: string, p: Player): (r: seq<Team>)
  {
    seq(|teams|, k requires 0 <= k < |teams| =>
      if teams[k].id == teamId then teams[k].(players := teams[k].players + [p]) else teams[k])
  }

  /** The outer `games.map`. */
  function AddPlayer(games: seq<Game>, gameId: string, teamId: string, p: Player): (r: seq<Game>)
  {
    seq(|games|, k requires 0 <= k < |games| =>
      if games[k].id == gameId then games[k].(teams := AppendToTeam(games[k].teams, teamId, p)) else games[k])
  }

  /** registerPlayer: the first failing check decides the error; only success changes `games`. */
  function Register(games: seq<Game>, gameId: string, teamId: string, data: PlayerData,
                    newId: string, registeredAt: string): (r: Registration)
  {
    match FindGame(games, gameId)
    case None => Registration(games, Failed(GameNotFound))
    case Some(gi) =>
      var game := games[gi];
      match FindTeam(game.teams, teamId)
      case None => Registration(games, Failed(TeamNotFound))
      case Some(ti) =>
        if |ActivePlayers(game.teams[ti].players)| >= game.maxPlayersPerTeam then
          Registration(games, Failed(TeamFull))
        else if ContactTaken(game, data.contact) then
          Registration(games, Failed(AlreadyRegistered))
        else
          Registration(AddPlayer(games, gameId, teamId, NewPlayer(data, newId, registeredAt)),
                       RegisterResult(true, None))
  }

  /** `gi` is where `games.find(g => g.id === gameId)` stops. */
  predicate FirstGame(games: seq<Game>, gameId: string, gi: nat)
  {
    gi < |games| && games[gi].id == gameId && forall k :: 0 <= k < gi ==> games[k].id != gameId
  }

  /** `ti` is where `game.teams.find(t => t.id === teamId)` stops. */
  predicate FirstTeam(teams: seq<Team>, teamId: string, ti: nat)
  {
    ti < |teams| && teams[ti].id == teamId && forall k :: 0 <= k < ti ==> teams[k].id != teamId
  }

  lemma FindGameIsFirst(games: seq<Game>, gameId: string, gi: nat)
    requires FirstGame(games, gameId, gi)
    ensures FindGame(games, gameId) == Some(gi)
  {
    assert ((g: Game) => g.id == gameId)(games[gi]);
  }

  lemma FindTeamIsFirst(teams: seq<Team>, teamId: string, ti: nat)
    requires FirstTeam(teams, teamId, ti)
    ensures FindTeam(teams, teamId) == Some(ti)
  {
    assert ((t: Team) => t.id == teamId)(teams[ti]);
  }

  /** The `flatMap`/`find` duplicate check looks at every team of the game, not only the chosen one. */
  lemma ContactTakenIff(game: Game, contact: string)
    ensures ContactTaken(game, contact) <==> HasActiveContact(game.teams, contact)
  {
    var all := AllPlayers(game.teams);
    var dup := (p: Player) => p.contact == contact && p.status != Rejected;
    if ContactTaken(game, contact) {
      var i := FindFirst(all, dup).value;
      assert all[i] in all;
      var t :| 0 <= t < |game.teams| && all[i] in game.teams[t].players;
      var k :| 0 <= k < |game.teams[t].players| && game.teams[t].players[k] == all[i];
      assert dup(game.teams[t].players[k]);
    }
    if HasActiveContact(game.teams, contact) {
      var t, k :| 0 <= t < |game.teams| && 0 <= k < |game.teams[t].players| &&
        game.teams[t].players[k].contact == contact && game.teams[t].players[k].status != Rejected;
      var p := game.teams[t].players[k];
      assert p in all;
      var i :| 0 <= i < |all| && all[i] == p;
      assert dup(all[i]);
    }
  }

  /** A missing game is reported first, whatever else is wrong. */
  lemma RegisterGameMissing(games: seq<Game>, gameId: string, teamId: string, data: PlayerData,
                            newId: string, registeredAt: string)
    ensures var r := Register(games, gameId, teamId, data, newId, registeredAt);
      r.result == Failed(GameNotFound) <==> forall k :: 0 <= k < |games| ==> games[k].id != gameId
  {
    var r := Register(games, gameId, teamId, data, newId, registeredAt);
    if r.result == Failed(GameNotFound) {
      assert FindGame(games, gameId).None?;
    }
  }

  /** Once the game is found, a missing team is reported next. */
  lemma RegisterTeamMissing(games: seq<Game>, gameId: string, teamId: string, data: PlayerData,
                            newId: string, registeredAt: string, gi: nat)
    requires FirstGame(games, gameId, gi)
    ensures var r := Register(games, gameId, teamId, data, newId, registeredAt);
      r.result == Failed(TeamNotFound) <==> forall k :: 0 <= k < |games[gi].teams| ==> games[gi].teams[k].id != teamId
  {
    FindGameIsFirst(games, gameId, gi);
  }

  /**
   * With game and team found, the capacity check comes before the duplicate
   * check, and registration succeeds exactly when both pass. Rejected players
   * count for neither.
   */
  lemma RegisterCheckOrder(games: seq<Game>, gameId: string, teamId: string, data: PlayerData,
                           newId: string, registeredAt: string, gi: nat, ti: nat)
    requires FirstGame(games, gameId, gi)
    requires FirstTeam(games[gi].teams, teamId, ti)
    ensures var r := Register(games, gameId, teamId, data, newId, registeredAt);
      var full := |ActivePlayers(games[gi].teams[ti].players)| >= games[gi].maxPlayersPerTeam;
      && (r.result == Failed(TeamFull) <==> full)
      && (r.result == Failed(AlreadyRegistered) <==> !full && HasActiveContact(games[gi].teams, data.contact))
      && (r.result.success <==> !full && !HasActiveContact(games[gi].teams, data.contact))
  {
    FindGameIsFirst(games, gameId, gi);
    FindTeamIsFirst(games[gi].teams, teamId, ti);
    ContactTakenIff(games[gi], data.contact);
  }

  /** A failed registration carries a reason and leaves `games` as it was. */
  lemma RegisterFailureKeepsGames(games: seq<Game>, gameId: string, teamId: string, data: PlayerData,
                                  newId: string, registeredAt: string)
    ensures var r := Register(games, gameId, teamId, data, newId, registeredAt);
      !r.result.success ==> r.games == games && r.result.error.Some? && r.result.error.value != ""
    ensures var r := Register(games, gameId, teamId, data, newId, registeredAt);
      r.result.success ==> r.result.error.None?
  {
  }

  /**
   * A successful registration adds a `pending` player carrying the caller's
   * data at the end of each team with `teamId` in each game with `gameId`;
   * every other game, team and player is unchanged.
   */
  lemma RegisterSuccessEffect(games: seq<Game>, gameId: string, teamId: string, data: PlayerData,
                              newId: string, registeredAt: string)
    ensures var r := Register(games, gameId, teamId, data, newId, registeredAt);
      r.result.success ==>
        && |r.games| == |games|
        && (forall k :: 0 <= k < |games| && games[k].id != gameId ==> r.games[k] == games[k])
        && (forall k :: 0 <= k < |games| && games[k].id == gameId ==>
              && r.games[k] == games[k].(teams := r.games[k].teams)
              && |r.games[k].teams| == |games[k].teams|
              && (forall t :: 0 <= t < |games[k].teams| && games[k].teams[t].id != teamId ==>
                    r.games[k].teams[t] == games[k].teams[t])
              && (forall t :: 0 <= t < |games[k].teams| && games[k].teams[t].id == teamId ==>
                    r.games[k].teams[t] == games[k].teams[t].(players := games[k].teams[t].players + [NewPlayer(data, newId, registeredAt)])))
    ensures NewPlayer(data, newId, registeredAt).status == Pending
    ensures NewPlayer(data, newId, registeredAt).contact == data.contact
  {
    if Register(games, gameId, teamId, data, newId, registeredAt).result.success {
      var gi, ti := RegisterSuccessAt(games, gameId, teamId, data, newId, registeredAt);
    }
  }

  /** A success names the game and team the checks looked at. */
  lemma RegisterSuccessAt(games: seq<Game>, gameId: string, teamId: string, data: PlayerData,
                          newId: string, registeredAt: string) returns (gi: nat, ti: nat)
    requires Register(games, gameId, teamId, data, newId, registeredAt).result.success
    ensures FirstGame(games, gameId, gi) && FirstTeam(games[gi].teams, teamId, ti)
    ensures |ActivePlayers(games[gi].teams[ti].players)| < games[gi].maxPlayersPerTeam
    ensures !HasActiveContact(games[gi].teams, data.contact)
    ensures Register(games, gameId, teamId, data, newId, registeredAt).games
              == AddPlayer(games, gameId, teamId, NewPlayer(data, newId, registeredAt))
  {
    gi := FindGame(games, gameId).value;
    ti := FindTeam(games[gi].teams, teamId).value;
    ContactTakenIff(games[gi], data.contact);
  }

  /** All players of all games, game by game. */
  function Everyone(games: seq<Game>): seq<Player>
  {
    if games == [] then [] else AllPlayers(games[0].teams) + Everyone(games[1..])
  }

  lemma {:induction false} AppendToTeamExactlyOne(teams: seq<Team>, teamId: string, p: Player)
    requires UniqueTeamIds(teams)
    requires exists t :: 0 <= t < |teams| && teams[t].id == teamId
    ensures multiset(AllPlayers(AppendToTeam(teams, teamId, p))) == multiset(AllPlayers(teams)) + multiset{p}
    decreases |teams|
  {
    var r := AppendToTeam(teams, teamId, p);
    assert r[1..] == AppendToTeam(teams[1..], teamId, p);
    if teams[0].id == teamId {
      assert AppendToTeam(teams[1..], teamId, p) == teams[1..];
    } else {
      AppendToTeamExactlyOne(teams[1..], teamId, p);
    }
  }

  lemma AppendToTeamNone(teams: seq<Team>, teamId: string, p: Player)
    requires forall t :: 0 <= t < |teams| ==> teams[t].id != teamId
    ensures AppendToTeam(teams, teamId, p) == teams
  {
  }

  lemma {:induction false} AddPlayerExactlyOne(games: seq<Game>, gameId: string, teamId: string, p: Player, gi: nat)
    requires UniqueGameIds(games)
    requires gi < |games| && games[gi].id == gameId
    requires UniqueTeamIds(games[gi].teams)
    requires exists t :: 0 <= t < |games[gi].teams| && games[gi].teams[t].id == teamId
    ensures multiset(Everyone(AddPlayer(games, gameId, teamId, p))) == multiset(Everyone(games)) + multiset{p}
    decreases |games|
  {
    var r := AddPlayer(games, gameId, teamId, p);
    assert r[1..] == AddPlayer(games[1..], gameId, teamId, p);
    if gi == 0 {
      assert AddPlayer(games[1..], gameId, teamId, p) == games[1..];
      AppendToTeamExactlyOne(games[0].teams, teamId, p);
    } else {
      assert r[0] == games[0];
      AddPlayerExactlyOne(games[1..], gameId, teamId, p, gi - 1);
    }
  }

  /**
   * When game and team identifiers are unique, a successful registration adds
   * exactly one player to the store and removes or alters none.
   */
  lemma RegisterAddsExactlyOne(games: seq<Game>, gameId: string, teamId: string, data: PlayerData,
                               newId: string, registeredAt: string)
    requires UniqueGameIds(games)
    requires forall g :: 0 <= g < |games| ==> UniqueTeamIds(games[g].teams)
    ensures var r := Register(games, gameId, teamId, data, newId, registeredAt);
      r.result.success ==>
        multiset(Everyone(r.games)) == multiset(Everyone(games)) + multiset{NewPlayer(data, newId, registeredAt)}
  {
    var r := Register(games, gameId, teamId, data, newId, registeredAt);
    if r.result.success {
      var p := NewPlayer(data, newId, registeredAt);
      var gi, ti := RegisterSuccessAt(games, gameId, teamId, data, newId, registeredAt);
      assert UniqueTeamIds(games[gi].teams);
      assert games[gi].teams[ti].id == teamId;
      AddPlayerExactlyOne(games, gameId, teamId, p, gi);
      assert r.games == AddPlayer(games, gameId, teamId, p);
    }
  }

  /** No team holds more non-rejected players than the game allows. */
  predicate WithinCapacity(game: Game)
  {
    forall t :: 0 <= t < |game.teams| ==> |ActivePlayers(game.teams[t].players)| <= game.maxPlayersPerTeam
  }

  /** No two non-rejected players of one game share a contact. */
  predicate ContactsDistinct(game: Game)
  {
    forall t1, k1, t2, k2 ::
      0 <= t1 < |game.teams| && 0 <= k1 < |game.teams[t1].players| &&
      0 <= t2 < |game.teams| && 0 <= k2 < |game.teams[t2].players| &&
      (t1, k1) != (t2, k2) &&
      game.teams[t1].players[k1].status != Rejected && game.teams[t2].players[k2].status != Rejected
      ==> game.teams[t1].players[k1].contact != game.teams[t2].players[k2].contact
  }

  /** The two registration invariants of the store. */
  predicate Consistent(games: seq<Game>)
  {
    && UniqueGameIds(games)
    && (forall g :: 0 <= g < |games| ==> UniqueTeamIds(games[g].teams))
    && (forall g :: 0 <= g < |games| ==> WithinCapacity(games[g]) && ContactsDistinct(games[g]))
  }

  lemma ActiveAppendPending(players: seq<Player>, p: Player)
    requires p.status == Pending
    ensures |ActivePlayers(players + [p])| == |ActivePlayers(players)| + 1
  {
    FilterAppend(players, [p], (q: Player) => q.status != Rejected);
  }

  lemma AppendKeepsGame(game: Game, teamId: string, p: Player, ti: nat)
    requires UniqueTeamIds(game.teams)
    requires FirstTeam(game.teams, teamId, ti)
    requires WithinCapacity(game) && ContactsDistinct(game)
    requires |ActivePlayers(game.teams[ti].players)| < game.maxPlayersPerTeam
    requires !HasActiveContact(game.teams, p.contact)
    requires p.status == Pending
    ensures var g2 := game.(teams := AppendToTeam(game.teams, teamId, p));
      UniqueTeamIds(g2.teams) && WithinCapacity(g2) && ContactsDistinct(g2)
  {
    var g2 := game.(teams := AppendToTeam(game.teams, teamId, p));
    forall t | 0 <= t < |g2.teams|
      ensures |ActivePlayers(g2.teams[t].players)| <= g2.maxPlayersPerTeam
    {
      if t == ti {
        ActiveAppendPending(game.teams[ti].players, p);
      } else {
        assert game.teams[t].id != teamId;
      }
    }
    // Every position of the new game is an old position or the new player's.
    forall t, k | 0 <= t < |g2.teams| && 0 <= k < |g2.teams[t].players|
      ensures (t == ti && k == |game.teams[ti].players| && g2.teams[t].players[k] == p)
           || (k < |game.teams[t].players| && g2.teams[t].players[k] == game.teams[t].players[k])
    {
      if t != ti {
        assert game.teams[t].id != teamId;
      }
    }
  }

  /** Appending a player who passed both checks to the first matching game keeps the store consistent. */
  lemma AddPlayerKeepsConsistent(games: seq<Game>, gameId: string, teamId: string, p: Player, gi: nat, ti: nat)
    requires Consistent(games)
    requires FirstGame(games, gameId, gi) && FirstTeam(games[gi].teams, teamId, ti)
    requires |ActivePlayers(games[gi].teams[ti].players)| < games[gi].maxPlayersPerTeam
    requires !HasActiveContact(games[gi].teams, p.contact)
    requires p.status == Pending
    ensures Consistent(AddPlayer(games, gameId, teamId, p))
  {
    AppendKeepsGame(games[gi], teamId, p, ti);
    var after := AddPlayer(games, gameId, teamId, p);
    forall g | 0 <= g < |after|
      ensures after[g].id == games[g].id
      ensures UniqueTeamIds(after[g].teams) && WithinCapacity(after[g]) && ContactsDistinct(after[g])
    {
      if g == gi {
        assert after[g] == games[gi].(teams := AppendToTeam(games[gi].teams, teamId, p));
      } else {
        assert games[g].id != gameId;
        assert after[g] == games[g];
      }
    }
  }

  /**
   * Registration keeps the store consistent: with unique identifiers, a team
   * never exceeds its capacity and no contact is active twice in one game.
   */
  lemma RegisterKeepsConsistent(games: seq<Game>, gameId: string, teamId: string, data: PlayerData,
                                newId: string, registeredAt: string)
    requires Consistent(games)
    ensures Consistent(Register(games, gameId, teamId, data, newId, registeredAt).games)
  {
    var r := Register(games, gameId, teamId, data, newId, registeredAt);
    if r.result.success {
      var gi, ti := RegisterSuccessAt(games, gameId, teamId, data, newId, registeredAt);
      AddPlayerKeepsConsistent(games, gameId, teamId, NewPlayer(data, newId, registeredAt), gi, ti);
    } else {
      RegisterFailureKeepsGames(games, gameId, teamId, data, newId, registeredAt);
    }
  }
}
