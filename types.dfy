// The records the store keeps: Player and Team as declared in src/types.ts,
// Game, Match and Scorer as src/context/DataContext.tsx uses them.

module Types {
  import opened Util

  datatype Status = Pending | Confirmed | Rejected

  /** The uploaded proof of payment (name, MIME type, public URL). */
  datatype ProofFile = ProofFile(name: string, mimeType: string, url: string)

  datatype Player = Player(
    id: string,
    name: string,
    contact: string,
    proofFile: ProofFile,
    status: Status,
    teamId: string,
    registeredAt: string)

  datatype Team = Team(id: string, name: string, players: seq<Player>)

  datatype Scorer = Scorer(playerId: string, playerName: string, goals: int)

  /** A pairing; the scores and scorer lists are absent until a result is recorded. */
  datatype Match = Match(
    id: string,
    teamAId: string,
    teamAName: string,
    teamBId: string,
    teamBName: string,
    scoreA: Option<int>,
    scoreB: Option<int>,
    scorersA: Option<seq<Scorer>>,
    scorersB: Option<seq<Scorer>>)

  datatype GameStatus = Upcoming | Completed

  datatype Game = Game(
    id: string,
    title: string,
    dateTime: string,
    fieldName: string,
    address: string,
    mapsLink: string,
    description: string,
    pricePerPlayer: int,
    maxPlayersPerTeam: int,
    status: GameStatus,
    galleryLinks: seq<string>,
    teams: seq<Team>,
    matches: Option<seq<Match>>)

  /** The players that occupy a slot: every one whose status is not `rejected`. */
  function ActivePlayers(players: seq<Player>): (r: seq<Player>)
  {
    Filter(players, (p: Player) => p.status != Rejected)
  }

  /** `game.teams.flatMap(t => t.players)`. */
  function AllPlayers(teams: seq<Team>): (r: seq<Player>)
    ensures forall t, k :: 0 <= t < |teams| && 0 <= k < |teams[t].players| ==> teams[t].players[k] in r
    ensures forall p :: p in r ==> exists t :: 0 <= t < |teams| && p in teams[t].players
  {
    if teams == [] then [] else teams[0].players + AllPlayers(teams[1..])
  }

  lemma {:induction false} AllPlayersAppend(a: seq<Team>, b: seq<Team>)
    ensures AllPlayers(a + b) == AllPlayers(a) + AllPlayers(b)
  {
    if a == [] {
      assert a + b == b;
    } else {
      assert (a + b)[1..] == a[1..] + b;
      AllPlayersAppend(a[1..], b);
    }
  }

  lemma AllPlayersSnoc(teams: seq<Team>, last: Team)
    ensures AllPlayers(teams + [last]) == AllPlayers(teams) + last.players
  {
    AllPlayersAppend(teams, [last]);
    assert AllPlayers([last]) == last.players + AllPlayers([]);
  }

  function FindGame(games: seq<Game>, id: string): (r: Option<nat>)
  {
    FindFirst(games, (g: Game) => g.id == id)
  }

  function FindTeam(teams: seq<Team>, id: string): (r: Option<nat>)
  {
    FindFirst(teams, (t: Team) => t.id == id)
  }

  function FindMatch(matches: seq<Match>, id: string): (r: Option<nat>)
  {
    FindFirst(matches, (m: Match) => m.id == id)
  }

  /** Rewriting games without touching their identifiers keeps what `find` by identifier returns. */
  lemma FindGameSameIds(games: seq<Game>, games': seq<Game>, id: string)
    requires |games| == |games'|
    requires forall k :: 0 <= k < |games| ==> games[k].id == games'[k].id
    ensures FindGame(games, id) == FindGame(games', id)
  {
    FindFirstAlike(games, (g: Game) => g.id == id, games', (g: Game) => g.id == id);
  }

  /** The same for a match list. */
  lemma FindMatchSameIds(matches: seq<Match>, matches': seq<Match>, id: string)
    requires |matches| == |matches'|
    requires forall k :: 0 <= k < |matches| ==> matches[k].id == matches'[k].id
    ensures FindMatch(matches, id) == FindMatch(matches', id)
  {
    FindFirstAlike(matches, (m: Match) => m.id == id, matches', (m: Match) => m.id == id);
  }

  /** No two games share an identifier. */
  predicate UniqueGameIds(games: seq<Game>)
  {
    forall i, j :: 0 <= i < j < |games| ==> games[i].id != games[j].id
  }

  /** No two teams of one game share an identifier. */
  predicate UniqueTeamIds(teams: seq<Team>)
  {
    forall i, j :: 0 <= i < j < |teams| ==> teams[i].id != teams[j].id
  }
}
