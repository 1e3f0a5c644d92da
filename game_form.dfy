// The admin game form (src/pages/admin/GameForm.tsx): its defaults, the
// prefill from an existing game, the team-list rebuild on submit, the choice
// between updateGame and addGame, and the team-name edit.

module GameForm {
  import opened Util
  import opened Text
  import opened Types
  import GameRecords

  /** The `formData` state. */
  datatype FormData = FormData(
    title: string,
    dateTime: string,
    fieldName: string,
    address: string,
    mapsLink: string,
    description: string,
    pricePerPlayer: int,
    maxPlayersPerTeam: int,
    status: GameStatus,
    teamNames: seq<string>)

  /** The form of a new game. */
  const DefaultForm: FormData := FormData("", "", "", "", "", "", 50000, 11, Upcoming,
                                          ["Team Merah", "Team Biru", "Team Kuning", "Team Hijau"])

  /** The prefill effect: the existing game's fields, and its team names in order. */
  function FormOf(g: Game): (f: FormData)
    ensures |f.teamNames| == |g.teams|
    ensures forall k :: 0 <= k < |g.teams| ==> f.teamNames[k] == g.teams[k].name
  {
    FormData(g.title, g.dateTime, g.fieldName, g.address, g.mapsLink, g.description,
             g.pricePerPlayer, g.maxPlayersPerTeam, g.status,
             seq(|g.teams|, k requires 0 <= k < |g.teams| => g.teams[k].name))
  }

  /** `team-${idx + 1}`. */
  function FallbackTeamId(idx: nat): string
  {
    "team-" + NatToString(idx + 1)
  }

  /**
   * One team per name: `existingGame?.teams[idx]?.id || team-${idx + 1}`
   * (an absent or empty identifier falls back) and the existing players of
   * that slot, or none.
   */
  function RebuildTeams(teamNames: seq<string>, existing: Option<Game>): (r: seq<Team>)
    ensures |r| == |teamNames|
    ensures forall k :: 0 <= k < |r| ==> r[k].name == teamNames[k]
  {
    seq(|teamNames|, idx requires 0 <= idx < |teamNames| =>
      var slot := if existing.Some? && idx < |existing.value.teams| then Some(existing.value.teams[idx]) else None;
      Team(if slot.Some? && slot.value.id != "" then slot.value.id else FallbackTeamId(idx),
           teamNames[idx],
           if slot.Some? then slot.value.players else []))
  }

  /**
   * Where the existing game has a team at that position, the rebuilt team
   * keeps its players and (unless it is empty) its identifier; elsewhere the
   * team is new, with the fallback identifier and no players.
   */
  lemma RebuildTeamsSlots(teamNames: seq<string>, existing: Option<Game>)
    ensures var r := RebuildTeams(teamNames, existing);
      forall k :: 0 <= k < |r| ==>
        if existing.Some? && k < |existing.value.teams| then
          && r[k].players == existing.value.teams[k].players
          && (existing.value.teams[k].id != "" ==> r[k].id == existing.value.teams[k].id)
          && (existing.value.teams[k].id == "" ==> r[k].id == FallbackTeamId(k))
        else r[k].id == FallbackTeamId(k) && r[k].players == []
  {
  }

  /** A new game's teams get distinct identifiers and start empty. */
  lemma NewGameTeamsDistinct(teamNames: seq<string>)
    ensures UniqueTeamIds(RebuildTeams(teamNames, None))
    ensures forall k :: 0 <= k < |teamNames| ==> RebuildTeams(teamNames, None)[k].players == []
  {
    var r := RebuildTeams(teamNames, None);
    forall i, j | 0 <= i < j < |r|
      ensures r[i].id != r[j].id
    {
      SuffixedDistinct("team-", i + 1, j + 1);
    }
  }

  /** Saving the prefilled team names unchanged gives back the existing teams, when their identifiers are non-empty. */
  lemma UneditedTeamsKept(g: Game)
    requires forall k :: 0 <= k < |g.teams| ==> g.teams[k].id != ""
    ensures RebuildTeams(FormOf(g).teamNames, Some(g)) == g.teams
  {
  }

  /** `gameData`: the form's fields, the existing gallery (or none) and the rebuilt teams; no matches. */
  function DraftGame(form: FormData, existing: Option<Game>): Game
  {
    Game("", form.title, form.dateTime, form.fieldName, form.address, form.mapsLink, form.description,
         form.pricePerPlayer, form.maxPlayersPerTeam, form.status,
         if existing.Some? then existing.value.galleryLinks else [],
         RebuildTeams(form.teamNames, existing), None)
  }

  /** `gameData` as the partial update passed to updateGame: every field it names, and neither `id` nor `matches`. */
  function PatchOf(d: Game): GameRecords.GamePatch
  {
    GameRecords.GamePatch(None, Some(d.title), Some(d.dateTime), Some(d.fieldName), Some(d.address),
                          Some(d.mapsLink), Some(d.description), Some(d.pricePerPlayer),
                          Some(d.maxPlayersPerTeam), Some(d.status), Some(d.galleryLinks), Some(d.teams), None)
  }

  /**
   * handleSubmit: `isEdit` is a non-empty route identifier; an edit whose
   * game is found updates it, anything else adds a new game under `newId`.
   */
  function SubmitGameForm(games: seq<Game>, routeId: Option<string>, form: FormData, newId: string): seq<Game>
  {
    var isEdit := routeId.Some? && routeId.value != "";
    var existing := if isEdit then GameRecords.GetGame(games, routeId.value) else None;
    var draft := DraftGame(form, existing);
    if isEdit && existing.Some? then GameRecords.UpdateGame(games, existing.value.id, PatchOf(draft))
    else GameRecords.AddGame(games, draft, newId)
  }

  /**
   * Editing a game that exists rewrites it in place from the form: the
   * identifier, the gallery and the match list stay; every other field comes
   * from the form.
   */
  lemma SubmitEditUpdates(games: seq<Game>, id: string, form: FormData, newId: string)
    requires id != ""
    requires GameRecords.GetGame(games, id).Some?
    ensures var g := GameRecords.GetGame(games, id).value;
      var r := SubmitGameForm(games, Some(id), form, newId);
      && |r| == |games|
      && GameRecords.GetGame(r, id) == Some(g.(title := form.title, dateTime := form.dateTime,
           fieldName := form.fieldName, address := form.address, mapsLink := form.mapsLink,
           description := form.description, pricePerPlayer := form.pricePerPlayer,
           maxPlayersPerTeam := form.maxPlayersPerTeam, status := form.status,
           teams := RebuildTeams(form.teamNames, Some(g))))
  {
    var g := GameRecords.GetGame(games, id).value;
    GameRecords.UpdateThenGet(games, id, PatchOf(DraftGame(form, Some(g))));
  }

  /**
   * A new game (no route identifier, or one that names no game) is appended
   * under `newId` with an empty gallery, no matches and fresh empty teams.
   */
  lemma SubmitNewAdds(games: seq<Game>, routeId: Option<string>, form: FormData, newId: string)
    requires routeId.None? || routeId.value == "" || GameRecords.GetGame(games, routeId.value).None?
    ensures var r := SubmitGameForm(games, routeId, form, newId);
      && |r| == |games| + 1
      && r[..|games|] == games
      && r[|games|].id == newId
      && r[|games|].galleryLinks == []
      && r[|games|].matches.None?
      && r[|games|].teams == RebuildTeams(form.teamNames, None)
      && UniqueTeamIds(r[|games|].teams)
  {
    NewGameTeamsDistinct(form.teamNames);
  }

  /**
   * Opening an existing game and saving the prefilled form unchanged leaves
   * the store as it was, when game identifiers are unique and its teams'
   * identifiers are non-empty.
   */
  lemma UneditedSaveKeepsGames(games: seq<Game>, id: string, newId: string)
    requires id != "" && UniqueGameIds(games)
    requires GameRecords.GetGame(games, id).Some?
    requires var g := GameRecords.GetGame(games, id).value;
      forall k :: 0 <= k < |g.teams| ==> g.teams[k].id != ""
    ensures SubmitGameForm(games, Some(id), FormOf(GameRecords.GetGame(games, id).value), newId) == games
  {
    var g := GameRecords.GetGame(games, id).value;
    UneditedTeamsKept(g);
    var r := SubmitGameForm(games, Some(id), FormOf(g), newId);
    forall k | 0 <= k < |games|
      ensures r[k] == games[k]
    {
      if games[k].id == id {
        var i :| 0 <= i < |games| && games[i] == g && forall l :: 0 <= l < i ==> games[l].id != id;
        assert k == i;
      }
    }
  }

  /**
   * handleTeamNameChange: the names are copied into a fresh list and the
   * slot at `index` is overwritten. The source's callers pass the index of
   * a rendered name, so it is in range.
   */
  method HandleTeamNameChange(form: FormData, index: nat, value: string) returns (r: FormData)
    requires index < |form.teamNames|
    ensures |r.teamNames| == |form.teamNames| && r.teamNames[index] == value
    ensures forall k :: 0 <= k < |form.teamNames| && k != index ==> r.teamNames[k] == form.teamNames[k]
    ensures r == form.(teamNames := r.teamNames)
  {
    var names := form.teamNames;
    var newTeamNames := new string[|names|](k requires 0 <= k < |names| => names[k]);
    newTeamNames[index] := value;
    r := form.(teamNames := newTeamNames[..]);
  }
}
