// The store itself (src/context/DataContext.tsx:89-293): one mutable list
// of games; every operation computes a new list and saves it in place.

module DataContext {
  import opened Util
  import opened Types
  import opened Registration
  import opened Verification
  import opened RoundRobin
  import Results
  import GameRecords

  class DataProvider {
    /** The `games` state; saving is assignment (browser storage is not modelled). */
    var games: seq<Game>

    /** The mount effect: the stored list when there is one, the seed data otherwise. */
    constructor(stored: Option<seq<Game>>, seed: seq<Game>)
      ensures games == (if stored.Some? then stored.value else seed)
    {
      if stored.Some? {
        games := stored.value;
      } else {
        games := seed;
      }
    }

    /** saveGames: the new list replaces the old one. */
    method SaveGames(newGames: seq<Game>)
      modifies this
      ensures games == newGames
    {
      games := newGames;
    }

    /** addGame: the new game, under the clock-given identifier, goes at the end. */
    method AddGame(draft: Game, newId: string)
      modifies this
      ensures games == GameRecords.AddGame(old(games), draft, newId)
      ensures games[..|old(games)|] == old(games) && games[|old(games)|].id == newId
    {
      SaveGames(games + [draft.(id := newId)]);
    }

    /** updateGame. */
    method UpdateGame(id: string, patch: GameRecords.GamePatch)
      modifies this
      ensures games == GameRecords.UpdateGame(old(games), id, patch)
    {
      var current := games;
      var updated := seq(|current|, k requires 0 <= k < |current| =>
        if current[k].id == id then GameRecords.ApplyPatch(current[k], patch) else current[k]);
      SaveGames(updated);
    }

    /** getGame: the first game with that identifier, if any. */
    function GetGame(id: string): (r: Option<Game>)
      reads this
      ensures r.Some? <==> exists k :: 0 <= k < |games| && games[k].id == id
      ensures r.Some? ==> r.value in games && r.value.id == id
    {
      GameRecords.GetGame(games, id)
    }

    /**
     * registerPlayer: the checks return early in the source's order; only a
     * registration that passes all four saves a new list.
     */
    method RegisterPlayer(gameId: string, teamId: string, data: PlayerData, newId: string, registeredAt: string)
      returns (result: RegisterResult)
      modifies this
      ensures Registration(games, result) == Register(old(games), gameId, teamId, data, newId, registeredAt)
      ensures !result.success ==> games == old(games)
    {
      var gi := FindGame(games, gameId);
      if gi.None? {
        return Failed(GameNotFound);
      }
      var game := games[gi.value];
      var ti := FindTeam(game.teams, teamId);
      if ti.None? {
        return Failed(TeamNotFound);
      }
      var team := game.teams[ti.value];
      if |ActivePlayers(team.players)| >= game.maxPlayersPerTeam {
        return Failed(TeamFull);
      }
      if ContactTaken(game, data.contact) {
        return Failed(AlreadyRegistered);
      }
      var newPlayer := NewPlayer(data, newId, registeredAt);
      SaveGames(AddPlayer(games, gameId, teamId, newPlayer));
      return RegisterResult(true, None);
    }

    /** updatePlayerStatus: the status parameter is `'confirmed' | 'rejected'`. */
    method UpdatePlayerStatus(gameId: string, playerId: string, status: Status)
      requires status != Pending
      modifies this
      ensures games == Verification.UpdatePlayerStatus(old(games), gameId, playerId, status)
    {
      var current := games;
      var updated := seq(|current|, g requires 0 <= g < |current| =>
        if current[g].id == gameId then current[g].(teams := SetStatusInTeams(current[g].teams, playerId, status))
        else current[g]);
      SaveGames(updated);
    }

    /** getPendingRegistrations: three nested `forEach` loops pushing each pending player with its game. */
    method GetPendingRegistrations() returns (pending: seq<PendingEntry>)
      ensures pending == PendingOf(games)
    {
      var all := games;
      pending := [];
      var g := 0;
      while g < |all|
        invariant 0 <= g <= |all|
        invariant pending == PendingOf(all[..g])
      {
        var game := all[g];
        var found := ScanGame(game);
        pending := pending + found;
        assert all[..g + 1][..g] == all[..g];
        assert PendingOf(all[..g + 1]) == PendingOf(all[..g]) + PendingInTeams(game, game.teams);
        g := g + 1;
      }
      assert all[..g] == all;
    }

    /** addGalleryLink. */
    method AddGalleryLink(gameId: string, link: string)
      modifies this
      ensures games == GameRecords.AddGalleryLink(old(games), gameId, link)
    {
      var current := games;
      var updated := seq(|current|, k requires 0 <= k < |current| =>
        if current[k].id == gameId then current[k].(galleryLinks := current[k].galleryLinks + [link]) else current[k]);
      SaveGames(updated);
    }

    /** removeGalleryLink. */
    method RemoveGalleryLink(gameId: string, linkIndex: int)
      modifies this
      ensures games == GameRecords.RemoveGalleryLink(old(games), gameId, linkIndex)
    {
      var current := games;
      var updated := seq(|current|, k requires 0 <= k < |current| =>
        if current[k].id == gameId then current[k].(galleryLinks := WithoutIndex(current[k].galleryLinks, linkIndex))
        else current[k]);
      SaveGames(updated);
    }

    /**
     * generateMatches: the pairings are built by the nested loops, shuffled
     * in place in an array, and stored in every game with that identifier;
     * `stamp` stands for `Date.now()` and `pick(i)` for
     * `Math.floor(Math.random() * (i + 1))`.
     */
    method GenerateMatches(gameId: string, stamp: nat, pick: nat -> nat)
      requires PicksInRange(pick)
      modifies this
      ensures games == GenerateMatchesIn(old(games), gameId, stamp, pick)
    {
      var found := FindGame(games, gameId);
      if found.None? || |games[found.value].teams| < 2 {
        return;
      }
      var teams := games[found.value].teams;
      var generated := BuildPairings(teams, stamp);
      var a := new Match[|generated|](k requires 0 <= k < |generated| => generated[k]);
      assert a[..] == generated;
      ShuffleInPlace(a, pick);
      var shuffled := a[..];
      var current := games;
      var updated := seq(|current|, k requires 0 <= k < |current| =>
        if current[k].id == gameId then current[k].(matches := Some(shuffled)) else current[k]);
      SaveGames(updated);
    }

    /** updateMatchResult. */
    method UpdateMatchResult(gameId: string, matchId: string, scoreA: int, scoreB: int,
                             scorersA: seq<Scorer>, scorersB: seq<Scorer>)
      modifies this
      ensures games == Results.UpdateMatchResult(old(games), gameId, matchId, scoreA, scoreB, scorersA, scorersB)
    {
      var current := games;
      var updated := seq(|current|, g requires 0 <= g < |current| =>
        if current[g].id == gameId && current[g].matches.Some? then
          current[g].(matches := Some(Results.RecordResult(current[g].matches.value, matchId, scoreA, scoreB, scorersA, scorersB)))
        else current[g]);
      SaveGames(updated);
    }
  }
}
