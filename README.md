# fun-soccer game store — a Dafny model

fun-soccer is a small web app for booking amateur football games. An admin
creates a game with a few teams and a per-team player limit. Players join a
team by sending a payment proof. The admin confirms or rejects each
registration, starts the game (which draws a shuffled round robin of the
teams) and records the result of each match.

This project models the app's in-memory store (`DataProvider` in
`src/context/DataContext.tsx`) and the decision logic of the pages that read
or feed it:

- the game page's capacity badge, Join button, Start gating and result banner;
- the result page's winner rule;
- the admin result editor's scorer list;
- the dashboard counts;
- the game form's team rebuild;
- the registration dialog's file checks.

Layout, one module per file:

- `util.dfy` (module `Util`): `Option`, and JavaScript's `filter`, `find`, index-`filter` and two-slot swap
- `text.dfy` (module `Text`): decimal rendering of numbers inside `team-${n}` / `match-${t}-${k}` identifiers, and its injectivity
- `types.dfy` (module `Types`): `Player`, `Team`, `Scorer`, `Match`, `Game`; lookup by identifier
- `registration.dfy` (module `Registration`): `registerPlayer`
- `verification.dfy` (module `Verification`): `updatePlayerStatus`, `getPendingRegistrations`
- `round_robin.dfy` (module `RoundRobin`): `generateMatches`: the pairing loops and the in-place shuffle
- `results.dfy` (module `Results`): `updateMatchResult`
- `game_records.dfy` (module `GameRecords`): `addGame`, `updateGame`, `getGame`, gallery links
- `data_context.dfy` (module `DataContext`): the store as a class whose methods save a new `games` list
- `match_result.dfy` (module `MatchResult`): `src/pages/MatchResult.tsx`
- `match_result_editor.dfy` (module `MatchResultEditor`): `src/pages/admin/MatchResultEditor.tsx`
- `game_detail.dfy` (module `GameDetail`): `src/pages/GameDetail.tsx`
- `dashboard.dfy` (module `Dashboard`): `src/pages/admin/Dashboard.tsx`
- `game_form.dfy` (module `GameForm`): `src/pages/admin/GameForm.tsx`
- `registration_modal.dfy` (module `RegistrationModal`): `src/components/RegistrationModal.tsx`

How the model is built:

- Each store operation is a pure function from the old `games` list to the
  new one. The class `DataContext.DataProvider` holds `games` as a field.
  Each of its methods mirrors the source's control flow (the early returns
  of `registerPlayer`, the nested loops of `getPendingRegistrations` and
  `generateMatches`, the in-place swap on an array). Each method is proved
  to leave exactly the state the matching function describes.
- The clock and the random generator are parameters:
  - `newId`, `registeredAt` and `stamp` stand for `Date.now()` and
    `new Date()`;
  - `pick(i)` stands for `Math.floor(Math.random() * (i + 1))` and is only
    assumed to lie in `[0, i]`.
- The source looks a game or team up with `find`, which stops at the first
  hit, but it rewrites with `map`, which touches every entry with that
  identifier. The model keeps both behaviours. Lemmas that need unique
  identifiers say so in their `requires`.
- Editing a game whose route identifier names no game falls through to
  `addGame`, as the source does. `GameForm.SubmitNewAdds` states this case.

## Model

| member | source | states |
|---|---|---|
| `Util.WithoutIndex` | src/context/DataContext.tsx:218 | `filter((_, i) => i !== k)`: for an index in range the result is one shorter, keeps the elements before `k` and shifts the ones after it down; any other index leaves the list unchanged |
| `Util.FindFirstAlike` | src/context/DataContext.tsx:129 | two lists whose elements answer the two tests alike give the same `find` position |
| `Types.AllPlayers` | src/context/DataContext.tsx:139-140 | `flatMap(t => t.players)` holds every player of every team, and only those |
| `Text.NatToStringInjective` | src/context/DataContext.tsx:240 | different numbers render as different decimal strings |
| `Registration.Register` | src/context/DataContext.tsx:124-171 | `registerPlayer` itself: the four checks in the source's order, each returning early with its error and the list untouched, then the append; what it guarantees is stated by `RegisterGameMissing`, `RegisterTeamMissing`, `RegisterCheckOrder`, `RegisterFailureKeepsGames` and `RegisterSuccessEffect` |
| `Registration.ContactTaken` | src/context/DataContext.tsx:139-141 | the duplicate check as written (`flatMap` then `find`); `ContactTakenIff` states what it decides |
| `Registration.AddPlayer` | src/context/DataContext.tsx:154-167 | the outer `games.map` of a successful registration; `AddPlayerExactlyOne` and `AddPlayerKeepsConsistent` state its effect |
| `Registration.AppendToTeam` | src/context/DataContext.tsx:158-163 | the inner `teams.map` that appends the new player; `AppendToTeamExactlyOne`, `ActiveAppendPending` and `AppendKeepsGame` state its effect |
| `Registration.FindGameIsFirst` | src/context/DataContext.tsx:129 | the `find` for the game stops at the first game with that identifier |
| `Registration.FindTeamIsFirst` | src/context/DataContext.tsx:132 | the `find` for the team stops at the first team with that identifier |
| `Registration.ContactTakenIff` | src/context/DataContext.tsx:139-143 | the duplicate check fires exactly when some non-rejected player in any team of the game uses the contact |
| `Registration.RegisterGameMissing` | src/context/DataContext.tsx:129-130 | 'Game not found' is returned exactly when no game has the identifier, whatever else is wrong |
| `Registration.RegisterTeamMissing` | src/context/DataContext.tsx:132-133 | with the game found, 'Team not found' is returned exactly when none of its teams has the identifier |
| `Registration.RegisterCheckOrder` | src/context/DataContext.tsx:135-145 | with game and team found: 'Team is full' exactly when the non-rejected count reaches the limit; the duplicate error exactly when the team is not full and the contact is active in the game; success exactly when neither holds |
| `Registration.RegisterFailureKeepsGames` | src/context/DataContext.tsx:129-145 | a failed registration returns a non-empty reason and leaves `games` unchanged; a success carries no error |
| `Registration.RegisterSuccessEffect` | src/context/DataContext.tsx:147-170 | a success appends one pending player with the caller's data to the end of each team with `teamId` in each game with `gameId`; every other game, team and player is unchanged |
| `Registration.RegisterSuccessAt` | src/context/DataContext.tsx:129-170 | a success means the checked game and team exist, the team had a free slot, the contact was free, and the new list is the append |
| `Registration.AppendToTeamExactlyOne` | src/context/DataContext.tsx:158-163 | with unique team identifiers, the team rewrite adds the new player exactly once to the game's players |
| `Registration.AddPlayerExactlyOne` | src/context/DataContext.tsx:154-167 | with unique game and team identifiers, the game rewrite adds the new player exactly once to the store |
| `Registration.RegisterAddsExactlyOne` | src/context/DataContext.tsx:147-170 | with unique identifiers, a success grows the multiset of all players by exactly the new player |
| `Registration.ActiveAppendPending` | src/context/DataContext.tsx:135 | appending a pending player raises the team's non-rejected count by one |
| `Registration.AppendKeepsGame` | src/context/DataContext.tsx:135-167 | appending a player who passed both checks keeps the game within capacity and free of duplicate active contacts |
| `Registration.AddPlayerKeepsConsistent` | src/context/DataContext.tsx:147-170 | appending a player who passed both checks to the first game with the identifier keeps the whole store consistent |
| `Registration.RegisterKeepsConsistent` | src/context/DataContext.tsx:124-171 | registration preserves the invariant: unique identifiers, no team over its limit, no contact active twice in a game |
| `Verification.UpdatePlayerStatus` | src/context/DataContext.tsx:173-189 | `updatePlayerStatus` itself: the status of every player with the identifier in each game with the identifier is overwritten; `UpdatePlayerStatusEffect` and `UpdatePlayerStatusIdempotent` state its effect |
| `Verification.PendingOf` | src/context/DataContext.tsx:191-203 | `getPendingRegistrations` as a value, game → team → player; `PendingOfMembers` and `Dashboard.PendingCountIsPendingPlayers` state what it holds |
| `Verification.UpdatePlayerStatusEffect` | src/context/DataContext.tsx:173-189 | every player with the identifier in the matching game(s) gets the new status, whatever the old one; games, teams and players keep their places and all other fields |
| `Verification.UpdatePlayerStatusIdempotent` | src/context/DataContext.tsx:173-189 | giving the same verdict twice equals giving it once |
| `Verification.RejectFreesCapacity` | src/context/DataContext.tsx:135 | rejecting a player never raises a team's non-rejected count |
| `Verification.ReRegisterAfterRejection` | src/context/DataContext.tsx:135-145 | once the only player using a contact is rejected, that contact registers successfully on any team of the game with a free slot |
| `Verification.PendingInTeamMembers` | src/context/DataContext.tsx:195-199 | one team's scan yields exactly its pending players, each paired with the game |
| `Verification.PendingInTeamsMembers` | src/context/DataContext.tsx:194-200 | one game's scan yields exactly the pending players of its teams |
| `Verification.ScanTeam` | src/context/DataContext.tsx:195-199 | the innermost loop collects exactly one team's pending players, in order |
| `Verification.ScanGame` | src/context/DataContext.tsx:194-200 | the middle loop collects exactly one game's pending players, team by team |
| `Verification.PendingOfMembers` | src/context/DataContext.tsx:191-203 | the full scan yields exactly the pending players of all games, each with its own game |
| `Verification.VerdictLeavesPending` | src/context/DataContext.tsx:173-203 | after a verdict, that player of that game is no longer listed as pending |
| `RoundRobin.Pairings` | src/context/DataContext.tsx:231-247 | the match list the two pairing loops build, with the running counter; `PairingsRoundRobin` and `IndexPairsFacts` state what it is |
| `RoundRobin.Shuffled` | src/context/DataContext.tsx:249-253 | the descending swap loop with the random oracle; `ShuffledPermutes` and `ShuffledRoundRobin` state what it keeps |
| `RoundRobin.GenerateMatchesIn` | src/context/DataContext.tsx:225-262 | `generateMatches` itself: no-op for a missing game or fewer than two teams, else every game with the identifier gets the shuffled list; `GenerateMatchesEffect` states its effect |
| `RoundRobin.RowPairsSorted` | src/context/DataContext.tsx:238 | the inner loop for `i` emits exactly the pairs `(i, j)` with `i < j < n`, in increasing order |
| `RoundRobin.PairsBeforeFacts` | src/context/DataContext.tsx:237-247 | after `i` outer iterations there are `i(2n-i-1)/2` pairs: exactly those with first index below `i`, strictly increasing |
| `RoundRobin.IndexPairsFacts` | src/context/DataContext.tsx:237-247 | the loops emit `n(n-1)/2` pairs: exactly the `i < j < n`, in lexicographic order |
| `RoundRobin.MatchIdsDistinct` | src/context/DataContext.tsx:240 | different counter values in one run give different match identifiers |
| `RoundRobin.PairingAt` | src/context/DataContext.tsx:237-247 | every pair of team positions `i < j` has a match pitting `teams[i]` against `teams[j]` |
| `RoundRobin.PairingsRoundRobin` | src/context/DataContext.tsx:237-247 | before the shuffle the list is a round robin: n(n-1)/2 unscored matches with distinct identifiers, each pitting an earlier team against a later one, every pair covered; with unique team identifiers, each pair exactly once |
| `RoundRobin.ShuffleDownPermutes` | src/context/DataContext.tsx:250-253 | each step of the shuffle loop keeps the length and the multiset of matches |
| `RoundRobin.ShuffledPermutes` | src/context/DataContext.tsx:250-253 | the shuffle is a permutation |
| `RoundRobin.ShuffleDownKeepsDistinct` | src/context/DataContext.tsx:250-253 | the swaps keep match identifiers distinct |
| `RoundRobin.ShuffledValid` | src/context/DataContext.tsx:250-253 | after the shuffle every match is still a valid unscored pairing |
| `RoundRobin.ShuffledCovers` | src/context/DataContext.tsx:250-253 | after the shuffle every pair of teams still has its match |
| `RoundRobin.ShuffledOnce` | src/context/DataContext.tsx:250-253 | after the shuffle, with unique team identifiers, every pair still plays once |
| `RoundRobin.ShuffledRoundRobin` | src/context/DataContext.tsx:250-253 | the shuffle maps a round robin to a round robin |
| `RoundRobin.GeneratedList` | src/context/DataContext.tsx:231-253 | the list generateMatches stores is a round robin of the teams, once per pair when team identifiers are unique, and a permutation of the ordered pairings |
| `RoundRobin.GenerateMatchesEffect` | src/context/DataContext.tsx:225-261 | a missing game or one with fewer than two teams changes nothing; otherwise each game with the identifier gets a fresh round robin of the first such game's teams, a permutation of the pairings, and nothing else changes |
| `RoundRobin.MatchesForSnoc` | src/context/DataContext.tsx:239-245 | pushing one pair appends exactly its match, numbered by the running counter |
| `RoundRobin.BuildPairings` | src/context/DataContext.tsx:231-247 | the nested loops with the running counter produce exactly the ordered pairings |
| `RoundRobin.ShuffleInPlace` | src/context/DataContext.tsx:249-253 | the descending swap loop on the array leaves exactly the shuffle of its old contents |
| `Results.UpdateMatchResult` | src/context/DataContext.tsx:264-293 | `updateMatchResult` itself: games with the identifier and a match list get the result recorded; `UpdateMatchResultEffect` and `UpdateMatchResultIdempotent` state its effect |
| `Results.RecordResult` | src/context/DataContext.tsx:276-287 | the inner `matches.map` setting the four result fields of the matches with the identifier; its effect is part of `UpdateMatchResultEffect` |
| `Results.UpdateMatchResultEffect` | src/context/DataContext.tsx:264-293 | only the four result fields of the matches with `matchId` in games with `gameId` and a match list change; teams, players, other matches and other games stay; a game without matches is untouched |
| `Results.UpdateMatchResultIdempotent` | src/context/DataContext.tsx:264-293 | recording the same result twice equals recording it once |
| `GameRecords.AddGame` | src/context/DataContext.tsx:107-113 | `addGame`: the draft appended under the new identifier; `AddThenGet` states its effect on lookup |
| `GameRecords.ApplyPatch` | src/context/DataContext.tsx:116 | the spread `{ ...g, ...gameUpdate }`: a present field overrides, an absent one keeps the old value; `EmptyPatchKeepsGames` and `UpdateThenGet` state it |
| `GameRecords.UpdateGame` | src/context/DataContext.tsx:115-118 | `updateGame`: every game with the identifier gets the patch; `EmptyPatchKeepsGames`, `UpdateGameIdempotent` and `UpdateThenGet` state its effect |
| `GameRecords.AddGalleryLink` | src/context/DataContext.tsx:205-213 | `addGalleryLink`: the link appended to every game with the identifier; `AddThenRemoveGalleryLink` states it |
| `GameRecords.RemoveGalleryLink` | src/context/DataContext.tsx:215-223 | `removeGalleryLink`: the link at the index dropped from every game with the identifier; `RemoveGalleryLinkEffect` states its effect |
| `GameRecords.GetGame` | src/context/DataContext.tsx:120-122 | a game is returned exactly when some game has the identifier, and it is the first such game |
| `GameRecords.AddThenGet` | src/context/DataContext.tsx:107-122 | after adding under a fresh identifier, `getGame` finds the new game, and every identifier found before still finds the same game |
| `GameRecords.EmptyPatchKeepsGames` | src/context/DataContext.tsx:115-118 | an update with no fields changes nothing |
| `GameRecords.UpdateGameIdempotent` | src/context/DataContext.tsx:115-118 | applying the same update twice equals applying it once |
| `GameRecords.UpdateThenGet` | src/context/DataContext.tsx:115-122 | after an update that keeps the identifier, `getGame` returns the old game with the patch applied; a missing identifier changes nothing |
| `GameRecords.RemoveGalleryLinkEffect` | src/context/DataContext.tsx:215-223 | removal drops exactly the link at the index and keeps the rest in order; an index out of range changes nothing; other games and fields stay |
| `GameRecords.AddThenRemoveGalleryLink` | src/context/DataContext.tsx:205-223 | adding a link and then removing the last index restores the store |
| `DataContext.DataProvider.constructor` | src/context/DataContext.tsx:92-100 | the store starts from the stored list when there is one, else from the seed data |
| `DataContext.DataProvider.SaveGames` | src/context/DataContext.tsx:102-105 | saving replaces the list |
| `DataContext.DataProvider.AddGame` | src/context/DataContext.tsx:107-113 | the new game goes at the end under the new identifier; the old games stay in front |
| `DataContext.DataProvider.UpdateGame` | src/context/DataContext.tsx:115-118 | the new list is the patched one |
| `DataContext.DataProvider.GetGame` | src/context/DataContext.tsx:120-122 | a game is returned exactly when one has the identifier, and it is in the store |
| `DataContext.DataProvider.RegisterPlayer` | src/context/DataContext.tsx:124-171 | the early-return checks return the result and leave the list that `Registration.Register` describes; a failure saves nothing |
| `DataContext.DataProvider.UpdatePlayerStatus` | src/context/DataContext.tsx:173-189 | the new list is the one with the verdict applied |
| `DataContext.DataProvider.GetPendingRegistrations` | src/context/DataContext.tsx:191-203 | the loop over games, with the inner loops in `ScanGame` and `ScanTeam`, returns exactly the game → team → player scan of pending players |
| `DataContext.DataProvider.AddGalleryLink` | src/context/DataContext.tsx:205-213 | the new list has the link appended to each game with the identifier |
| `DataContext.DataProvider.RemoveGalleryLink` | src/context/DataContext.tsx:215-223 | the new list has the link at the index removed from each game with the identifier |
| `DataContext.DataProvider.GenerateMatches` | src/context/DataContext.tsx:225-262 | building, shuffling in place and saving leaves exactly the generated state |
| `DataContext.DataProvider.UpdateMatchResult` | src/context/DataContext.tsx:264-293 | the new list is the one with the result recorded |
| `MatchResult.HasResult` | src/pages/MatchResult.tsx:31 | both scores are present; `Winner`, `WinnerMeaning` and `GameDetail.AdminMatchLabel` state how the pages use it |
| `MatchResult.ShownMatch` | src/pages/MatchResult.tsx:12-13 | the page shows a match only from the match list of the game `getGame` returns, and only one with the requested identifier; otherwise game, list or match is missing |
| `MatchResult.Winner` | src/pages/MatchResult.tsx:32-34 | there is no winner exactly when the match has no result |
| `MatchResult.WinnerMirror` | src/pages/MatchResult.tsx:31-34 | swapping the two sides changes neither whether there is a result nor the winner |
| `MatchResult.WinnerMeaning` | src/pages/MatchResult.tsx:31-34 | with distinct team names other than 'Draw': 'Draw' exactly when both scores exist and are equal; a team's name exactly when it scored more |
| `MatchResult.GoalLabel` | src/pages/MatchResult.tsx:113 | the label is 'goal' exactly for one goal, and 'goals' otherwise (also line 147) |
| `MatchResult.RecordedResultShown` | src/context/DataContext.tsx:272-292 | after recording a result for a match the page shows, the page shows that match with both scores and scorers, and the winner follows the recorded scores (src/pages/MatchResult.tsx:31-34) |
| `MatchResultEditor.InitialState` | src/pages/admin/MatchResultEditor.tsx:14-20 | the editor's initial scores (0 when absent) and scorer lists (empty when absent); `FreshMatchOpensEmpty` and `SubmitThenReopen` state it |
| `MatchResultEditor.FreshMatchOpensEmpty` | src/pages/admin/MatchResultEditor.tsx:17-20 | a freshly generated match opens the editor at 0 : 0 with no scorers |
| `MatchResultEditor.Candidates` | src/pages/admin/MatchResultEditor.tsx:53-56 | the candidates are exactly the confirmed players of the first team with the side's identifier, or none when no team has it |
| `MatchResultEditor.AddScorer` | src/pages/admin/MatchResultEditor.tsx:58-64 | one blank entry with one goal goes at the end of the chosen side; the other side and the scores stay |
| `MatchResultEditor.RemoveScorer` | src/pages/admin/MatchResultEditor.tsx:66-72 | `handleRemoveScorer`: the index filtered out of the chosen side; `RemoveScorerEffect` and `AddThenRemoveScorer` state its effect |
| `MatchResultEditor.RemoveScorerEffect` | src/pages/admin/MatchResultEditor.tsx:66-72 | exactly the entry at the index leaves the chosen side and the rest keep their order; the other side and the scores stay; an index out of range changes nothing |
| `MatchResultEditor.AddThenRemoveScorer` | src/pages/admin/MatchResultEditor.tsx:58-72 | removing the entry just added restores the form |
| `MatchResultEditor.NameOf` | src/pages/admin/MatchResultEditor.tsx:79-80 | the name of the first candidate with the identifier, or '' when none has it |
| `MatchResultEditor.ChangeScorer` | src/pages/admin/MatchResultEditor.tsx:74-92 | only the named field of the entry at the index changes; a new player identifier also sets the name from that side's candidates; other entries, the other side and the scores stay |
| `MatchResultEditor.Submit` | src/pages/admin/MatchResultEditor.tsx:94-96 | `handleSubmit`: the form's scores and scorers passed to `updateMatchResult` for the shown match; `SubmitThenReopen` states its effect |
| `MatchResultEditor.SubmitThenReopen` | src/pages/admin/MatchResultEditor.tsx:94-96 | the form is passed unchanged to `updateMatchResult`: reopening the editor on that match afterwards shows exactly the submitted form |
| `GameDetail.TeamIsFull` | src/pages/GameDetail.tsx:190-191 | `isFull`: the team's non-rejected players reach the per-team limit; `JoinButtonAgreesWithRegister` ties it to the store's capacity check |
| `GameDetail.ShowStartButton` | src/pages/GameDetail.tsx:177 | the Start button's guard; `StartButtonMatchesGuard` ties it to `generateMatches` |
| `GameDetail.HandleRegistration` | src/pages/GameDetail.tsx:55-71 | `handleRegistration`: the selected team as target and as the player's `teamId`, then the banner; `BannerNeverFallsBack` and `HandleRegistrationKeepsTeamIds` state its effect |
| `GameDetail.JoinButtonOf` | src/pages/GameDetail.tsx:190-230 | the Join button is disabled, and reads 'Team Full', exactly when the team's non-rejected players reach the limit |
| `GameDetail.JoinButtonAgreesWithRegister` | src/pages/GameDetail.tsx:221-223 | the button is disabled exactly when registering for that team fails with 'Team is full' (src/context/DataContext.tsx:135); an enabled button with a free contact means registration succeeds |
| `GameDetail.StartButtonMatchesGuard` | src/pages/GameDetail.tsx:177-179 | for an admin the button shows exactly when `generateMatches` acts: shown means the game gets a round robin, hidden means the store is unchanged (src/context/DataContext.tsx:226-229) |
| `GameDetail.GeneratedMatchesHaveNoResult` | src/pages/GameDetail.tsx:243-260 | right after generation no match row has a result |
| `GameDetail.BannerFor` | src/pages/GameDetail.tsx:65-71 | success shows exactly the success text; a failure shows its reason when that is non-empty, and exactly 'Registration failed' when the reason is absent or empty |
| `GameDetail.BannerNeverFallsBack` | src/pages/GameDetail.tsx:55-71 | every failure of the store carries one of its four reasons, so the fallback text never appears |
| `GameDetail.HandleRegistrationKeepsTeamIds` | src/pages/GameDetail.tsx:55-61 | registering through the page keeps every player in the team its `teamId` names |
| `GameDetail.AdminMatchLabel` | src/pages/GameDetail.tsx:278 | the admin button reads 'Edit' exactly when the match has a result (line 244) |
| `Dashboard.TotalPlayers` | src/pages/admin/Dashboard.tsx:78-82 | `getTotalPlayers`, a left fold over the teams; `TotalPlayersCountsActive` and `RegisterRaisesTotal` state what it counts |
| `Dashboard.UpcomingGames` | src/pages/admin/Dashboard.tsx:63 | the games whose status is upcoming; `UpcomingCompletedPartition` states it |
| `Dashboard.CompletedGames` | src/pages/admin/Dashboard.tsx:64 | the games whose status is completed; `UpcomingCompletedPartition` states it |
| `Dashboard.TotalOverCountsActive` | src/pages/admin/Dashboard.tsx:78-82 | the left fold equals the number of non-rejected players across the teams |
| `Dashboard.TotalPlayersCountsActive` | src/pages/admin/Dashboard.tsx:78-82 | `getTotalPlayers` counts the game's non-rejected players, and is 0 for a game without teams |
| `Dashboard.TotalOverAppend` | src/pages/admin/Dashboard.tsx:78-82 | with unique team identifiers, appending a pending player to a team raises the total by one if the team exists, else by nothing |
| `Dashboard.RegisterRaisesTotal` | src/pages/admin/Dashboard.tsx:78-82 | with unique team identifiers, a successful registration raises the checked game's total by exactly one |
| `Dashboard.UpcomingCompletedPartition` | src/pages/admin/Dashboard.tsx:63-64 | each list holds only games of its status, every game is in one of them, none in both, and the counts add up to the number of games |
| `Dashboard.EveryoneSnoc` | src/pages/admin/Dashboard.tsx:65 | the players of a list ending in a game are those of the rest followed by that game's |
| `Dashboard.PendingInTeamCount` | src/pages/admin/Dashboard.tsx:65 | one team's pending entries are as many as its pending players |
| `Dashboard.PendingInTeamsCount` | src/pages/admin/Dashboard.tsx:65 | one game's pending entries are as many as the pending players of its teams |
| `Dashboard.PendingCountIsPendingPlayers` | src/pages/admin/Dashboard.tsx:154 | the pending counter equals the number of pending players across all games |
| `GameForm.FormOf` | src/pages/admin/GameForm.tsx:35-50 | the prefilled team names are the existing teams' names, in order |
| `GameForm.RebuildTeams` | src/pages/admin/GameForm.tsx:66-70 | one team per name, in the same order, with that name |
| `GameForm.RebuildTeamsSlots` | src/pages/admin/GameForm.tsx:67-69 | a slot the existing game has keeps its players and its non-empty identifier; any other slot gets `team-${idx+1}` and no players |
| `GameForm.NewGameTeamsDistinct` | src/pages/admin/GameForm.tsx:66-70 | a new game's teams have distinct identifiers and no players |
| `GameForm.UneditedTeamsKept` | src/pages/admin/GameForm.tsx:47-70 | saving the prefilled names unchanged rebuilds exactly the existing teams when their identifiers are non-empty |
| `GameForm.DraftGame` | src/pages/admin/GameForm.tsx:55-71 | `gameData`: the form's fields, the existing gallery or none, and the rebuilt teams; `SubmitEditUpdates` and `SubmitNewAdds` state what is saved |
| `GameForm.PatchOf` | src/pages/admin/GameForm.tsx:73-74 | `gameData` as the partial update, naming no `id` and no `matches`; `SubmitEditUpdates` states that both survive |
| `GameForm.SubmitGameForm` | src/pages/admin/GameForm.tsx:52-77 | `handleSubmit`: update when the route names an existing game (lines 13-14), add otherwise; `SubmitEditUpdates`, `SubmitNewAdds` and `UneditedSaveKeepsGames` state its effect |
| `GameForm.SubmitEditUpdates` | src/pages/admin/GameForm.tsx:73-74 | editing an existing game rewrites its fields from the form and keeps its identifier, gallery and matches |
| `GameForm.SubmitNewAdds` | src/pages/admin/GameForm.tsx:75-77 | with no route identifier, or one naming no game, one game is appended with an empty gallery, no matches and distinct empty teams |
| `GameForm.UneditedSaveKeepsGames` | src/pages/admin/GameForm.tsx:35-77 | with unique game identifiers, opening a game and saving the prefilled form unchanged leaves the store as it was |
| `GameForm.HandleTeamNameChange` | src/pages/admin/GameForm.tsx:82-86 | only the name at the index changes; the other names and the other fields stay |
| `RegistrationModal.HandleFileChange` | src/components/RegistrationModal.tsx:22-40 | `handleFileChange`: no file changes nothing; the type check, then the size check, else the file is kept; `FileChangeOutcome` and `SizeBoundary` state its effect |
| `RegistrationModal.HandleSubmit` | src/components/RegistrationModal.tsx:49-56 | `handleSubmit` up to the upload; `SubmitOutcome` states its effect |
| `RegistrationModal.FileChangeOutcome` | src/components/RegistrationModal.tsx:22-40 | a file is kept, with no message, exactly when its type is accepted and it is at most 5 MiB; a wrong type reports the type error whatever the size; a rejected file leaves the kept one; no file changes nothing |
| `RegistrationModal.SizeBoundary` | src/components/RegistrationModal.tsx:34-38 | exactly 5 MiB is kept and one byte more is refused with the size error |
| `RegistrationModal.SubmitOutcome` | src/components/RegistrationModal.tsx:49-56 | with no file the submit shows 'Please upload payment proof' and never reaches the upload; with a file it uploads exactly that file |
| `RegistrationModal.HandlersKeepFileAcceptable` | src/components/RegistrationModal.tsx:22-56 | both handlers keep the dialog holding only acceptable files, so every uploaded proof has an accepted type and size |

## Left out

- Browser storage: the JSON round trip through `localStorage` (src/context/DataContext.tsx:92-105) is not modelled. Saving is assignment. The constructor takes the stored list, if any, and the seed list as parameters.
- Seed data: the concrete seed games (src/context/DataContext.tsx:22-87) are not written out, because their registration times come from the clock.
- Clock: `Date.now()` and `new Date()` become the parameters `newId`, `registeredAt` and `stamp`. Nothing claims player or game identifiers are unique across calls.
- Randomness: `Math.random` becomes the oracle `pick`. Only `pick(i) <= i` is assumed; the distribution of the shuffle is not modelled.
- Upload: the storage upload, public URL, loading flag, error logging, form reset and `FileReader` preview of the registration dialog (src/components/RegistrationModal.tsx:42-104) are I/O. The model stops at the file handed to the upload.
- Auth and routing: `src/context/AuthContext.tsx`, `src/App.tsx`, the admin redirects and every `navigate` call are not part of this model.
- Other pages: `src/pages/admin/Verifications.tsx`, `src/pages/admin/MediaEditor.tsx` and `src/pages/MatchList.tsx` are not part of this model. The last two call store members that do not exist.
- Rendering: markup, styling, date formatting, the status badges, the gallery link captions and HTML `min` attributes are not modelled.
- Numbers: JavaScript numbers are modelled as unbounded integers. Fractional values and `NaN` from `Number(...)` are not modelled.
- Single-field setters: `setScoreA`/`setScoreB` and the game form's one-field `setFormData` calls each replace one field with the input's value. They are not modelled as separate operations.
- Dialog state: `handleJoinClick` and the modal's open and close flags are not modelled.
- Status terminality: not claimed. `updatePlayerStatus` overwrites any status, and the model says so.
- GameRecords.GamePatch: a field is either present or absent. A present field holding `undefined`, which the spread would copy over the old value, is not modelled.
- MatchResultEditor.ChangeScorer: requires the index to be in range, because the page only passes indices of rendered entries. An out-of-range JavaScript assignment would grow the array.
- GameForm.HandleTeamNameChange: requires the index to be in range, for the same reason.
- MatchResultEditor.Submit: requires the page to have found the game and the match, because the form is only rendered then.
- Registration.RegisterAddsExactlyOne, Dashboard.RegisterRaisesTotal and GameForm.UneditedSaveKeepsGames: these assume unique game or team identifiers. Nothing in the source enforces uniqueness, and with duplicates the `map` rewrites touch every entry that shares the identifier.
