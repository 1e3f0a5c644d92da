// addGame, updateGame, getGame, addGalleryLink and removeGalleryLink
// (src/context/DataContext.tsx:107-122, 205-223).

module GameRecords {
  import opened Util
  import opened Types

  /** addGame: the draft (`Omit<Game, 'id'>`; its own id is ignored) is appended under a fresh identifier. */
  function AddGame(games: seq<Game>, draft: Game, newId: string): seq<Game>
  {
    games + [draft.(id := newId)]
  }

  /** getGame: the first game with that identifier, if any. */
  function GetGame(games: seq<Game>, id: string): (r: Option<Game>)
    ensures r.Some? <==> exists k :: 0 <= k < |games| && games[k].id == id
    ensures r.Some? ==> r.value in games && r.value.id == id
    ensures r.Some? ==> exists k :: 0 <= k < |games| && games[k] == r.value &&
                                    forall l :: 0 <= l < k ==> games[l].id != id
  {
    match FindGame(games, id)
    case None => None
    case Some(k) => Some(games[k])
  }

  /** A fresh identifier finds the added game, and every earlier identifier still finds what it found. */
  lemma AddThenGet(games: seq<Game>, draft: Game, newId: string)
    requires forall k :: 0 <= k < |games| ==> games[k].id != newId
    ensures GetGame(AddGame(games, draft, newId), newId) == Some(draft.(id := newId))
    ensures forall id :: GetGame(games, id).Some? ==> GetGame(AddGame(games, draft, newId), id) == GetGame(games, id)
  {
    var r := AddGame(games, draft, newId);
    assert r[|games|] == draft.(id := newId);
    forall id | GetGame(games, id).Some?
      ensures GetGame(r, id) == GetGame(games, id)
    {
      var k :| 0 <= k < |games| && games[k] == GetGame(games, id).value &&
               forall l :: 0 <= l < k ==> games[l].id != id;
      assert r[k] == games[k] && r[k].id == id;
      var k' :| 0 <= k' < |r| && r[k'] == GetGame(r, id).value &&
                forall l :: 0 <= l < k' ==> r[l].id != id;
      assert r[k] == games[k];
      if k' < k {
        assert r[k'] == games[k'];
      }
    }
  }

  /** `Partial<Game>`: a field is present (Some) or absent (None). */
  datatype GamePatch = GamePatch(
    id: Option<string>,
    title: Option<string>,
    dateTime: Option<string>,
    fieldName: Option<string>,
    address: Option<string>,
    mapsLink: Option<string>,
    description: Option<string>,
    pricePerPlayer: Option<int>,
    maxPlayersPerTeam: Option<int>,
    status: Option<GameStatus>,
    galleryLinks: Option<seq<string>>,
    teams: Option<seq<Team>>,
    matches: Option<seq<Match>>)

  const EmptyPatch: GamePatch := GamePatch(None, None, None, None, None, None, None, None, None, None, None, None, None)

  /** `{ ...g, ...patch }`: each present field overrides, each absent one keeps `g`'s. */
  function ApplyPatch(g: Game, p: GamePatch): Game
  {
    Game(
      p.id.GetOr(g.id), p.title.GetOr(g.title), p.dateTime.GetOr(g.dateTime),
      p.fieldName.GetOr(g.fieldName), p.address.GetOr(g.address), p.mapsLink.GetOr(g.mapsLink),
      p.description.GetOr(g.description), p.pricePerPlayer.GetOr(g.pricePerPlayer),
      p.maxPlayersPerTeam.GetOr(g.maxPlayersPerTeam), p.status.GetOr(g.status),
      p.galleryLinks.GetOr(g.galleryLinks), p.teams.GetOr(g.teams),
      if p.matches.Some? then Some(p.matches.value) else g.matches)
  }

  /** updateGame: every game with `id` gets the patch. */
  function UpdateGame(games: seq<Game>, id: string, patch: GamePatch): seq<Game>
  {
    seq(|games|, k requires 0 <= k < |games| => if games[k].id == id then ApplyPatch(games[k], patch) else games[k])
  }

  /** A patch with no fields changes nothing. */
  lemma EmptyPatchKeepsGames(games: seq<Game>, id: string)
    ensures UpdateGame(games, id, EmptyPatch) == games
  {
  }

  /**
   * Applying the same update twice is the same as applying it once, even
   * when the patch renames the game.
   */
  lemma UpdateGameIdempotent(games: seq<Game>, id: string, patch: GamePatch)
    ensures UpdateGame(UpdateGame(games, id, patch), id, patch) == UpdateGame(games, id, patch)
  {
  }

  /** After an update that keeps the identifier, getGame returns the patched game. */
  lemma UpdateThenGet(games: seq<Game>, id: string, patch: GamePatch)
    requires patch.id.None?
    ensures GetGame(games, id).Some? ==>
      GetGame(UpdateGame(games, id, patch), id) == Some(ApplyPatch(GetGame(games, id).value, patch))
    ensures GetGame(games, id).None? ==> UpdateGame(games, id, patch) == games
  {
    var r := UpdateGame(games, id, patch);
    FindGameSameIds(games, r, id);
    if GetGame(games, id).Some? {
      var k := FindGame(games, id).value;
      assert r[k] == ApplyPatch(games[k], patch);
    }
  }

  /** addGalleryLink: the link goes at the end of the list of every game with `gameId`. */
  function AddGalleryLink(games: seq<Game>, gameId: string, link: string): seq<Game>
  {
    seq(|games|, k requires 0 <= k < |games| =>
      if games[k].id == gameId then games[k].(galleryLinks := games[k].galleryLinks + [link]) else games[k])
  }

  /** removeGalleryLink: `galleryLinks.filter((_, i) => i !== linkIndex)` on every game with `gameId`. */
  function RemoveGalleryLink(games: seq<Game>, gameId: string, linkIndex: int): seq<Game>
  {
    seq(|games|, k requires 0 <= k < |games| =>
      if games[k].id == gameId then games[k].(galleryLinks := WithoutIndex(games[k].galleryLinks, linkIndex))
      else games[k])
  }

  /**
   * Removing drops exactly the link at `linkIndex` and keeps the others in
   * order; an index outside the list removes nothing.
   */
  lemma RemoveGalleryLinkEffect(games: seq<Game>, gameId: string, linkIndex: int)
    ensures var r := RemoveGalleryLink(games, gameId, linkIndex);
      && |r| == |games|
      && (forall k :: 0 <= k < |games| ==> r[k] == games[k].(galleryLinks := r[k].galleryLinks))
      && (forall k :: 0 <= k < |games| && games[k].id != gameId ==> r[k] == games[k])
      && (forall k :: 0 <= k < |games| && games[k].id == gameId ==>
            var old_ := games[k].galleryLinks;
            var new_ := r[k].galleryLinks;
            && (0 <= linkIndex < |old_| ==>
                  && |new_| == |old_| - 1
                  && new_ == old_[..linkIndex] + old_[linkIndex + 1..])
            && (!(0 <= linkIndex < |old_|) ==> new_ == old_))
  {
    var r := RemoveGalleryLink(games, gameId, linkIndex);
    forall k | 0 <= k < |games| && games[k].id == gameId && 0 <= linkIndex < |games[k].galleryLinks|
      ensures r[k].galleryLinks == games[k].galleryLinks[..linkIndex] + games[k].galleryLinks[linkIndex + 1..]
    {
    }
  }

  /** Adding a link and then removing the last one restores every game. */
  lemma AddThenRemoveGalleryLink(games: seq<Game>, gameId: string, link: string, n: nat)
    requires forall k :: 0 <= k < |games| && games[k].id == gameId ==> |games[k].galleryLinks| == n
    ensures RemoveGalleryLink(AddGalleryLink(games, gameId, link), gameId, n) == games
  {
    var added := AddGalleryLink(games, gameId, link);
    var r := RemoveGalleryLink(added, gameId, n);
    forall k | 0 <= k < |games|
      ensures r[k] == games[k]
    {
      if games[k].id == gameId {
        assert added[k].galleryLinks == games[k].galleryLinks + [link];
        assert WithoutIndex(added[k].galleryLinks, n) == games[k].galleryLinks;
      }
    }
  }
}
