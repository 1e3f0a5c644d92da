// generateMatches (src/context/DataContext.tsx:225-262): every pair of teams
// i < j in nested-loop order, numbered by a counter, then a Fisher-Yates
// shuffle whose random index comes from an oracle.

module RoundRobin {
  import opened Util
  import opened Text
  import opened Types

  /** The inner loop's pairs for outer index `i`: (i, i+1), ..., (i, n-1). */
  function RowPairs(i: nat, n: nat): seq<(nat, nat)>
  {
    seq(if i < n then n - i - 1 else 0, d requires 0 <= d => (i, i + 1 + d))
  }

  /** The pairs emitted by the outer iterations 0 .. i-1. */
  function PairsBefore(i: nat, n: nat): seq<(nat, nat)>
    decreases i
  {
    if i == 0 then [] else PairsBefore(i - 1, n) + RowPairs(i - 1, n)
  }

  /** All index pairs for `n` teams, in the order the loops emit them. */
  function IndexPairs(n: nat): seq<(nat, nat)>
  {
    PairsBefore(n, n)
  }

  predicate LexLess(p: (nat, nat), q: (nat, nat))
  {
    p.0 < q.0 || (p.0 == q.0 && p.1 < q.1)
  }

  predicate StrictlySorted(ps: seq<(nat, nat)>)
  {
    forall k, l :: 0 <= k < l < |ps| ==> LexLess(ps[k], ps[l])
  }

  lemma RowPairsSorted(i: nat, n: nat)
    ensures StrictlySorted(RowPairs(i, n))
    ensures forall p :: p in RowPairs(i, n) <==> p.0 == i && i < p.1 < n
  {
    var row := RowPairs(i, n);
    forall p: (nat, nat) | i < n && p.0 == i && i < p.1 < n
      ensures p in row
    {
      assert row[p.1 - i - 1] == p;
    }
  }

  /**
   * The first `i` outer iterations emit i*(2n-i-1)/2 pairs: exactly the
   * (a, b) with a < i and a < b < n, in strictly increasing lexicographic order.
   */
  lemma {:induction false} PairsBeforeFacts(i: nat, n: nat)
    requires i <= n
    ensures 2 * |PairsBefore(i, n)| == i * (2 * n - i - 1)
    ensures forall p :: p in PairsBefore(i, n) <==> p.0 < i && p.0 < p.1 < n
    ensures StrictlySorted(PairsBefore(i, n))
    decreases i
  {
    if i > 0 {
      var a, b := PairsBefore(i - 1, n), RowPairs(i - 1, n);
      PairsBeforeFacts(i - 1, n);
      RowPairsSorted(i - 1, n);
      assert |b| == n - i;
      assert 2 * (|a| + |b|) == i * (2 * n - i - 1) by {
        assert 2 * |a| == (i - 1) * (2 * n - i);
        assert (i - 1) * (2 * n - i) + 2 * (n - i) == i * (2 * n - i - 1);
      }
      var ab := a + b;
      forall k, l | 0 <= k < l < |ab|
        ensures LexLess(ab[k], ab[l])
      {
        if l < |a| {
          assert ab[k] == a[k] && ab[l] == a[l];
        } else if k >= |a| {
          assert ab[k] == b[k - |a|] && ab[l] == b[l - |a|];
        } else {
          assert ab[k] == a[k] && a[k] in a;
          assert ab[l] == b[l - |a|] && b[l - |a|] in b;
        }
      }
    }
  }

  /** For n teams there are n*(n-1)/2 pairs, each a < b < n, in lexicographic order. */
  lemma IndexPairsFacts(n: nat)
    ensures |IndexPairs(n)| == n * (n - 1) / 2
    ensures forall p :: p in IndexPairs(n) <==> p.0 < p.1 < n
    ensures StrictlySorted(IndexPairs(n))
  {
    PairsBeforeFacts(n, n);
  }

  /** `match-${baseTimestamp}-${matchCounter}`. */
  function MatchId(stamp: nat, counter: nat): string
  {
    "match-" + NatToString(stamp) + "-" + NatToString(counter)
  }

  /** One run's counter values give distinct identifiers. */
  lemma MatchIdsDistinct(stamp: nat, k: nat, l: nat)
    requires k != l
    ensures MatchId(stamp, k) != MatchId(stamp, l)
  {
    SuffixedDistinct("match-" + NatToString(stamp) + "-", k, l);
  }

  /** The record pushed for teams[i] against teams[j]: both snapshots, no result yet. */
  function Pairing(teams: seq<Team>, stamp: nat, counter: nat, i: nat, j: nat): Match
    requires i < |teams| && j < |teams|
  {
    Match(MatchId(stamp, counter), teams[i].id, teams[i].name, teams[j].id, teams[j].name, None, None, None, None)
  }

  predicate InRange(ps: seq<(nat, nat)>, n: nat)
  {
    forall p :: p in ps ==> p.0 < n && p.1 < n
  }

  /** The k-th pair becomes the match numbered k. */
  function MatchesFor(teams: seq<Team>, stamp: nat, ps: seq<(nat, nat)>): seq<Match>
    requires InRange(ps, |teams|)
  {
    seq(|ps|, k requires 0 <= k < |ps| => Pairing(teams, stamp, k, ps[k].0, ps[k].1))
  }

  /** The list the nested loops build before the shuffle. */
  function Pairings(teams: seq<Team>, stamp: nat): seq<Match>
  {
    IndexPairsFacts(|teams|);
    MatchesFor(teams, stamp, IndexPairs(|teams|))
  }

  /** `m` snapshots teams[i] as side A and teams[j] as side B. */
  predicate Pits(m: Match, teams: seq<Team>, i: nat, j: nat)
  {
    i < |teams| && j < |teams| &&
    m.teamAId == teams[i].id && m.teamAName == teams[i].name &&
    m.teamBId == teams[j].id && m.teamBName == teams[j].name
  }

  predicate Unscored(m: Match)
  {
    m.scoreA.None? && m.scoreB.None? && m.scorersA.None? && m.scorersB.None?
  }

  /** An unscored match between teams[i] and teams[j] for some i < j. */
  predicate ValidPairing(m: Match, teams: seq<Team>)
  {
    Unscored(m) && exists i, j :: 0 <= i < j < |teams| && Pits(m, teams, i, j)
  }

  /** Some match of `ms` is teams[i] against teams[j]. */
  predicate Covered(ms: seq<Match>, teams: seq<Team>, i: nat, j: nat)
  {
    exists k :: 0 <= k < |ms| && Pits(ms[k], teams, i, j)
  }

  predicate DistinctIds(ms: seq<Match>)
  {
    forall k, l :: 0 <= k < |ms| && 0 <= l < |ms| && k != l ==> ms[k].id != ms[l].id
  }

  /**
   * A full round robin for `teams`: n*(n-1)/2 unscored matches with distinct
   * identifiers, each between teams[i] and teams[j] with i < j, and every
   * such pair present.
   */
  predicate IsRoundRobin(ms: seq<Match>, teams: seq<Team>)
  {
    && |ms| == |teams| * (|teams| - 1) / 2
    && DistinctIds(ms)
    && (forall k :: 0 <= k < |ms| ==> ValidPairing(ms[k], teams))
    && (forall i: nat, j: nat :: i < j < |teams| ==> Covered(ms, teams, i, j))
  }

  /** With distinct team identifiers, no pair of teams is played twice. */
  predicate OncePerPair(ms: seq<Match>, teams: seq<Team>)
  {
    forall i, j, k, l ::
      (0 <= i < j < |teams| && 0 <= k < |ms| && 0 <= l < |ms| &&
       Pits(ms[k], teams, i, j) && Pits(ms[l], teams, i, j)) ==> k == l
  }

  /** The pairing positions: where (i, j) sits in IndexPairs. */
  lemma PairingAt(teams: seq<Team>, stamp: nat, i: nat, j: nat) returns (k: nat)
    requires i < j < |teams|
    ensures k < |Pairings(teams, stamp)| && k < |IndexPairs(|teams|)|
    ensures IndexPairs(|teams|)[k] == (i, j)
    ensures Pits(Pairings(teams, stamp)[k], teams, i, j)
  {
    IndexPairsFacts(|teams|);
    var ps := IndexPairs(|teams|);
    assert (i, j) in ps;
    k :| 0 <= k < |ps| && ps[k] == (i, j);
  }

  /** The list before the shuffle is a round robin, in lexicographic order of team positions. */
  lemma PairingsRoundRobin(teams: seq<Team>, stamp: nat)
    ensures IsRoundRobin(Pairings(teams, stamp), teams)
    ensures UniqueTeamIds(teams) ==> OncePerPair(Pairings(teams, stamp), teams)
  {
    var n := |teams|;
    var ps := IndexPairs(n);
    var ms := Pairings(teams, stamp);
    IndexPairsFacts(n);
    forall k, l | 0 <= k < |ms| && 0 <= l < |ms| && k != l
      ensures ms[k].id != ms[l].id
    {
      MatchIdsDistinct(stamp, k, l);
    }
    forall k | 0 <= k < |ms|
      ensures ValidPairing(ms[k], teams)
    {
      assert ps[k] in ps;
      assert Pits(ms[k], teams, ps[k].0, ps[k].1);
    }
    forall i: nat, j: nat | i < j < n
      ensures Covered(ms, teams, i, j)
    {
      var k := PairingAt(teams, stamp, i, j);
    }
    if UniqueTeamIds(teams) {
      forall i, j, k, l | 0 <= i < j < n && 0 <= k < |ms| && 0 <= l < |ms| &&
          Pits(ms[k], teams, i, j) && Pits(ms[l], teams, i, j)
        ensures k == l
      {
        assert ps[k] in ps && ps[l] in ps;
        assert ps[k] == (i, j) && ps[l] == (i, j);
      }
    }
  }

  /** Math.random as an oracle: at step i it names a slot in [0, i]. */
  ghost predicate PicksInRange(pick: nat -> nat)
  {
    forall i: nat :: pick(i) <= i
  }

  /** The shuffle loop from index i down to 1: swap slot i with slot pick(i). */
  function ShuffleDown<T>(s: seq<T>, pick: nat -> nat, i: nat): seq<T>
    requires PicksInRange(pick)
    requires i < |s| || i == 0
    decreases i
  {
    if i == 0 then s else ShuffleDown(Swap(s, i, pick(i)), pick, i - 1)
  }

  /** The whole shuffle, from the last index down. */
  function Shuffled<T>(s: seq<T>, pick: nat -> nat): seq<T>
    requires PicksInRange(pick)
  {
    ShuffleDown(s, pick, if |s| == 0 then 0 else |s| - 1)
  }

  lemma {:induction false} ShuffleDownPermutes<T>(s: seq<T>, pick: nat -> nat, i: nat)
    requires PicksInRange(pick)
    requires i < |s| || i == 0
    ensures |ShuffleDown(s, pick, i)| == |s|
    ensures multiset(ShuffleDown(s, pick, i)) == multiset(s)
    decreases i
  {
    if i > 0 {
      SwapPermutes(s, i, pick(i));
      ShuffleDownPermutes(Swap(s, i, pick(i)), pick, i - 1);
    }
  }

  /** The shuffle only reorders: same length, same elements with the same multiplicities. */
  lemma ShuffledPermutes<T>(s: seq<T>, pick: nat -> nat)
    requires PicksInRange(pick)
    ensures |Shuffled(s, pick)| == |s|
    ensures multiset(Shuffled(s, pick)) == multiset(s)
  {
    ShuffleDownPermutes(s, pick, if |s| == 0 then 0 else |s| - 1);
  }

  /** One swap keeps match identifiers distinct. */
  lemma SwapKeepsDistinct(s: seq<Match>, i: nat, j: nat)
    requires i < |s| && j < |s|
    requires DistinctIds(s)
    ensures DistinctIds(Swap(s, i, j))
  {
    var t := Swap(s, i, j);
    forall k, l | 0 <= k < |t| && 0 <= l < |t| && k != l
      ensures t[k].id != t[l].id
    {
      var k' := if k == i then j else if k == j then i else k;
      var l' := if l == i then j else if l == j then i else l;
      assert t[k] == s[k'];
      assert t[l] == s[l'];
      assert k' != l';
    }
  }

  lemma {:induction false} ShuffleDownKeepsDistinct(s: seq<Match>, pick: nat -> nat, i: nat)
    requires PicksInRange(pick)
    requires i < |s| || i == 0
    requires DistinctIds(s)
    ensures DistinctIds(ShuffleDown(s, pick, i))
    decreases i
  {
    if i > 0 {
      var t := Swap(s, i, pick(i));
      SwapKeepsDistinct(s, i, pick(i));
      ShuffleDownKeepsDistinct(t, pick, i - 1);
    }
  }

  lemma ShuffledValid(ms: seq<Match>, teams: seq<Team>, pick: nat -> nat)
    requires PicksInRange(pick)
    requires forall k :: 0 <= k < |ms| ==> ValidPairing(ms[k], teams)
    ensures forall k :: 0 <= k < |Shuffled(ms, pick)| ==> ValidPairing(Shuffled(ms, pick)[k], teams)
  {
    var r := Shuffled(ms, pick);
    ShuffledPermutes(ms, pick);
    forall k | 0 <= k < |r|
      ensures ValidPairing(r[k], teams)
    {
      assert r[k] in multiset(ms);
      var k' :| 0 <= k' < |ms| && ms[k'] == r[k];
    }
  }

  lemma ShuffledCovers(ms: seq<Match>, teams: seq<Team>, pick: nat -> nat, i: nat, j: nat)
    requires PicksInRange(pick)
    requires Covered(ms, teams, i, j)
    ensures Covered(Shuffled(ms, pick), teams, i, j)
  {
    var r := Shuffled(ms, pick);
    ShuffledPermutes(ms, pick);
    var k' :| 0 <= k' < |ms| && Pits(ms[k'], teams, i, j);
    assert ms[k'] in multiset(r);
    var k :| 0 <= k < |r| && r[k] == ms[k'];
  }

  lemma ShuffledOnce(ms: seq<Match>, teams: seq<Team>, pick: nat -> nat)
    requires PicksInRange(pick)
    requires DistinctIds(ms) && OncePerPair(ms, teams)
    ensures OncePerPair(Shuffled(ms, pick), teams)
  {
    var r := Shuffled(ms, pick);
    ShuffledPermutes(ms, pick);
    ShuffleDownKeepsDistinct(ms, pick, if |ms| == 0 then 0 else |ms| - 1);
    forall i, j, k, l | 0 <= i < j < |teams| && 0 <= k < |r| && 0 <= l < |r| &&
        Pits(r[k], teams, i, j) && Pits(r[l], teams, i, j)
      ensures k == l
    {
      assert r[k] in multiset(ms) && r[l] in multiset(ms);
      var k' :| 0 <= k' < |ms| && ms[k'] == r[k];
      var l' :| 0 <= l' < |ms| && ms[l'] == r[l];
    }
  }

  /** Shuffling a round robin gives a round robin. */
  lemma ShuffledRoundRobin(ms: seq<Match>, teams: seq<Team>, pick: nat -> nat)
    requires PicksInRange(pick)
    requires IsRoundRobin(ms, teams)
    ensures IsRoundRobin(Shuffled(ms, pick), teams)
    ensures OncePerPair(ms, teams) ==> OncePerPair(Shuffled(ms, pick), teams)
  {
    ShuffledPermutes(ms, pick);
    ShuffleDownKeepsDistinct(ms, pick, if |ms| == 0 then 0 else |ms| - 1);
    ShuffledValid(ms, teams, pick);
    forall i: nat, j: nat | i < j < |teams|
      ensures Covered(Shuffled(ms, pick), teams, i, j)
    {
      ShuffledCovers(ms, teams, pick, i, j);
    }
    if OncePerPair(ms, teams) {
      ShuffledOnce(ms, teams, pick);
    }
  }

  /**
   * generateMatches as a value: nothing happens for a missing game or one
   * with fewer than two teams; otherwise every game with that identifier gets
   * the shuffled pairings of the first such game's teams as its new `matches`.
   */
  function GenerateMatchesIn(games: seq<Game>, gameId: string, stamp: nat, pick: nat -> nat): seq<Game>
    requires PicksInRange(pick)
  {
    match FindGame(games, gameId)
    case None => games
    case Some(gi) =>
      if |games[gi].teams| < 2 then games
      else
        var ms := Shuffled(Pairings(games[gi].teams, stamp), pick);
        seq(|games|, k requires 0 <= k < |games| =>
          if games[k].id == gameId then games[k].(matches := Some(ms)) else games[k])
  }

  /**
   * The regenerated match list replaces the old one in full: it is a round
   * robin of the game's teams (played once per pair when team identifiers are
   * unique), and no other game and no other field changes.
   */
  lemma GenerateMatchesEffect(games: seq<Game>, gameId: string, stamp: nat, pick: nat -> nat)
    requires PicksInRange(pick)
    ensures var r := GenerateMatchesIn(games, gameId, stamp, pick);
      && |r| == |games|
      && (forall k :: 0 <= k < |games| && games[k].id != gameId ==> r[k] == games[k])
      && (FindGame(games, gameId).None? ==> r == games)
    ensures var r := GenerateMatchesIn(games, gameId, stamp, pick);
      FindGame(games, gameId).Some? ==>
        var teams := games[FindGame(games, gameId).value].teams;
        && (|teams| < 2 ==> r == games)
        && (|teams| >= 2 ==> forall k :: 0 <= k < |games| && games[k].id == gameId ==>
              && r[k].matches.Some?
              && r[k] == games[k].(matches := r[k].matches)
              && IsRoundRobin(r[k].matches.value, teams)
              && (UniqueTeamIds(teams) ==> OncePerPair(r[k].matches.value, teams))
              && multiset(r[k].matches.value) == multiset(Pairings(teams, stamp)))
  {
    var r := GenerateMatchesIn(games, gameId, stamp, pick);
    if FindGame(games, gameId).Some? {
      var teams := games[FindGame(games, gameId).value].teams;
      if |teams| >= 2 {
        var ms := Shuffled(Pairings(teams, stamp), pick);
        GeneratedList(teams, stamp, pick);
        forall k | 0 <= k < |games| && games[k].id == gameId
          ensures r[k].matches == Some(ms) && r[k] == games[k].(matches := r[k].matches)
        {
        }
      }
    }
  }

  /** The list generateMatches stores: a shuffled round robin of the teams. */
  lemma GeneratedList(teams: seq<Team>, stamp: nat, pick: nat -> nat)
    requires PicksInRange(pick)
    ensures var ms := Shuffled(Pairings(teams, stamp), pick);
      && IsRoundRobin(ms, teams)
      && (UniqueTeamIds(teams) ==> OncePerPair(ms, teams))
      && multiset(ms) == multiset(Pairings(teams, stamp))
  {
    PairingsRoundRobin(teams, stamp);
    ShuffledRoundRobin(Pairings(teams, stamp), teams, pick);
    ShuffledPermutes(Pairings(teams, stamp), pick);
  }

  lemma MatchesForSnoc(teams: seq<Team>, stamp: nat, ps: seq<(nat, nat)>, i: nat, j: nat)
    requires InRange(ps, |teams|) && i < |teams| && j < |teams|
    ensures InRange(ps + [(i, j)], |teams|)
    ensures MatchesFor(teams, stamp, ps + [(i, j)]) == MatchesFor(teams, stamp, ps) + [Pairing(teams, stamp, |ps|, i, j)]
  {
  }

  /** The nested loops of generateMatches, pushing one match per pair with a running counter. */
  method BuildPairings(teams: seq<Team>, stamp: nat) returns (ms: seq<Match>)
    ensures ms == Pairings(teams, stamp)
  {
    var n := |teams|;
    ms := [];
    ghost var ps: seq<(nat, nat)> := [];
    var counter: nat := 0;
    var i: nat := 0;
    while i < n
      invariant i <= n
      invariant ps == PairsBefore(i, n)
      invariant InRange(ps, n)
      invariant counter == |ps|
      invariant ms == MatchesFor(teams, stamp, ps)
    {
      var j: nat := i + 1;
      while j < n
        invariant i + 1 <= j <= n
        invariant ps == PairsBefore(i, n) + RowPairs(i, n)[..j - i - 1]
        invariant InRange(ps, n)
        invariant counter == |ps|
        invariant ms == MatchesFor(teams, stamp, ps)
      {
        MatchesForSnoc(teams, stamp, ps, i, j);
        assert RowPairs(i, n)[..j - i] == RowPairs(i, n)[..j - i - 1] + [(i, j)];
        ms := ms + [Match(MatchId(stamp, counter), teams[i].id, teams[i].name, teams[j].id, teams[j].name,
                          None, None, None, None)];
        ps := ps + [(i, j)];
        counter := counter + 1;
        j := j + 1;
      }
      assert RowPairs(i, n)[..j - i - 1] == RowPairs(i, n);
      i := i + 1;
    }
    IndexPairsFacts(n);
  }

  /** The shuffle loop, in place: `for (i = len - 1; i > 0; i--) swap(a[i], a[pick(i)])`. */
  method ShuffleInPlace(a: array<Match>, pick: nat -> nat)
    requires PicksInRange(pick)
    modifies a
    ensures a[..] == Shuffled(old(a[..]), pick)
  {
    if a.Length == 0 {
      return;
    }
    var i := a.Length - 1;
    while i > 0
      invariant 0 <= i < a.Length
      invariant ShuffleDown(a[..], pick, i) == Shuffled(old(a[..]), pick)
    {
      ghost var before := a[..];
      var j := pick(i);
      var tmp := a[i];
      a[i] := a[j];
      a[j] := tmp;
      assert a[..] == Swap(before, i, j);
      i := i - 1;
    }
  }
}
