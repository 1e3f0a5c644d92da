// The game page (src/pages/GameDetail.tsx): the per-team capacity badge and
// Join button, the "Start the Game" gating, the banner after a registration
// and the per-match result flag.

module GameDetail {
  import opened Util
  import opened Types
  import opened Registration
  import opened RoundRobin
  import MatchResult

  /** `isFull`: the team's non-rejected players fill the game's per-team limit. */
  predicate TeamIsFull(game: Game, team: Team)
  {
    |ActivePlayers(team.players)| >= game.maxPlayersPerTeam
  }

  /** The Join button of one team: disabled and labelled 'Team Full' when full. */
  datatype JoinButton = JoinButton(caption: string, disabled: bool)

  function JoinButtonOf(game: Game, team: Team): (b: JoinButton)
    ensures b.disabled <==> TeamIsFull(game, team)
    ensures b.caption == (if b.disabled then "Team Full" else "Join Team")
  {
    var full := TeamIsFull(game, team);
    JoinButton(if full then "Team Full" else "Join Team", full)
  }

  /**
   * On the page's game (the first with its identifier) and the first team
   * with an identifier, the Join button is disabled exactly when registering
   * for that team fails with 'Team is full'; when it is enabled, a contact
   * no active player of the game uses registers successfully.
   */
  lemma JoinButtonAgreesWithRegister(games: seq<Game>, gameId: string, gi: nat, teamId: string, ti: nat,
                                     data: PlayerData, newId: string, registeredAt: string)
    requires FirstGame(games, gameId, gi)
    requires FirstTeam(games[gi].teams, teamId, ti)
    ensures var r := Register(games, gameId, teamId, data, newId, registeredAt);
      var b := JoinButtonOf(games[gi], games[gi].teams[ti]);
      && (b.disabled <==> r.result == Failed(TeamFull))
      && (!b.disabled && !HasActiveContact(games[gi].teams, data.contact) ==> r.result.success)
  {
    RegisterCheckOrder(games, gameId, teamId, data, newId, registeredAt, gi, ti);
  }

  /** `isAdmin && game.teams.length >= 2`. */
  predicate ShowStartButton(isAdmin: bool, game: Game)
  {
    isAdmin && |game.teams| >= 2
  }

  /**
   * The button is shown to an admin exactly when pressing it would do
   * something: when shown, generateMatches gives the page's game a round
   * robin of its teams; when not, generateMatches leaves the store as it is.
   */
  lemma StartButtonMatchesGuard(games: seq<Game>, gi: nat, stamp: nat, pick: nat -> nat)
    requires PicksInRange(pick)
    requires gi < |games| && FirstGame(games, games[gi].id, gi)
    ensures var r := GenerateMatchesIn(games, games[gi].id, stamp, pick);
      && (ShowStartButton(true, games[gi]) ==>
            r[gi].matches.Some? && IsRoundRobin(r[gi].matches.value, games[gi].teams))
      && (!ShowStartButton(true, games[gi]) ==> r == games)
  {
    FindGameIsFirst(games, games[gi].id, gi);
    GenerateMatchesEffect(games, games[gi].id, stamp, pick);
  }

  /** A freshly generated match list shows every match as 'vs', with no result yet. */
  lemma GeneratedMatchesHaveNoResult(games: seq<Game>, gi: nat, stamp: nat, pick: nat -> nat)
    requires PicksInRange(pick)
    requires gi < |games| && FirstGame(games, games[gi].id, gi)
    requires |games[gi].teams| >= 2
    ensures var r := GenerateMatchesIn(games, games[gi].id, stamp, pick);
      r[gi].matches.Some? && forall k :: 0 <= k < |r[gi].matches.value| ==> !MatchResult.HasResult(r[gi].matches.value[k])
  {
    StartButtonMatchesGuard(games, gi, stamp, pick);
    var r := GenerateMatchesIn(games, games[gi].id, stamp, pick);
    forall k | 0 <= k < |r[gi].matches.value|
      ensures !MatchResult.HasResult(r[gi].matches.value[k])
    {
      assert ValidPairing(r[gi].matches.value[k], games[gi].teams);
    }
  }

  const SuccessText: string := "Registration submitted successfully! Please wait for admin verification."
  const FallbackError: string := "Registration failed"

  /** The banner set after a registration attempt. */
  datatype Banner = SuccessBanner(text: string) | ErrorBanner(text: string)

  /**
   * The banner after a registration: success shows the success text; a
   * failure shows `result.error || 'Registration failed'`, so an absent or
   * empty reason falls back.
   */
  function BannerFor(result: RegisterResult): (b: Banner)
    ensures b.SuccessBanner? <==> result.success
    ensures result.success ==> b == SuccessBanner(SuccessText)
    ensures b.ErrorBanner? ==> b.text != ""
    ensures !result.success && result.error.Some? && result.error.value != "" ==> b == ErrorBanner(result.error.value)
    ensures !result.success && (result.error.None? || result.error.value == "") ==> b == ErrorBanner(FallbackError)
  {
    if result.success then SuccessBanner(SuccessText)
    else if result.error.Some? && result.error.value != "" then ErrorBanner(result.error.value)
    else ErrorBanner(FallbackError)
  }

  /** What the modal hands to the page: name, contact and the uploaded proof. */
  datatype ModalData = ModalData(name: string, contact: string, proofFile: ProofFile)

  /** handleRegistration: the selected team is both the target and the player's `teamId`. */
  function HandleRegistration(games: seq<Game>, game: Game, selectedTeamId: string, data: ModalData,
                              newId: string, registeredAt: string): (seq<Game>, Banner)
  {
    var r := Register(games, game.id, selectedTeamId,
                      PlayerData(data.name, data.contact, data.proofFile, selectedTeamId), newId, registeredAt);
    (r.games, BannerFor(r.result))
  }

  /**
   * The store's failures always carry one of its four reasons, so the page
   * never shows the fallback text; success shows the success text.
   */
  lemma BannerNeverFallsBack(games: seq<Game>, game: Game, selectedTeamId: string, data: ModalData,
                             newId: string, registeredAt: string)
    ensures var b := HandleRegistration(games, game, selectedTeamId, data, newId, registeredAt).1;
      && b != ErrorBanner(FallbackError)
      && (b.ErrorBanner? ==> b.text in {GameNotFound, TeamNotFound, TeamFull, AlreadyRegistered})
  {
  }

  /** Every player sits in the team its `teamId` names. */
  predicate PlayersOnOwnTeam(games: seq<Game>)
  {
    forall g, t, k :: 0 <= g < |games| && 0 <= t < |games[g].teams| && 0 <= k < |games[g].teams[t].players| ==>
      games[g].teams[t].players[k].teamId == games[g].teams[t].id
  }

  /** Registering through the page keeps every player in the team its `teamId` names. */
  lemma HandleRegistrationKeepsTeamIds(games: seq<Game>, game: Game, selectedTeamId: string, data: ModalData,
                                       newId: string, registeredAt: string)
    requires PlayersOnOwnTeam(games)
    ensures PlayersOnOwnTeam(HandleRegistration(games, game, selectedTeamId, data, newId, registeredAt).0)
  {
    var pd := PlayerData(data.name, data.contact, data.proofFile, selectedTeamId);
    RegisterSuccessEffect(games, game.id, selectedTeamId, pd, newId, registeredAt);
    var r := Register(games, game.id, selectedTeamId, pd, newId, registeredAt);
    if r.result.success {
      forall g, t, k | 0 <= g < |r.games| && 0 <= t < |r.games[g].teams| && 0 <= k < |r.games[g].teams[t].players|
        ensures r.games[g].teams[t].players[k].teamId == r.games[g].teams[t].id
      {
        if games[g].id == game.id && games[g].teams[t].id == selectedTeamId && k == |games[g].teams[t].players| {
          assert r.games[g].teams[t].players[k] == NewPlayer(pd, newId, registeredAt);
        } else {
          assert r.games[g].teams[t].players[k] == games[g].teams[t].players[k];
        }
      }
    }
  }

  /** The admin's button on a match row: 'Edit' once a result exists, 'Add Result' before. */
  function AdminMatchLabel(m: Match): (caption: string)
    ensures caption == "Edit" <==> MatchResult.HasResult(m)
  {
    if MatchResult.HasResult(m) then "Edit" else "Add Result"
  }
}
