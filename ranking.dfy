/** Ordering players by score, highest first: the sorted copy that the
    leaderboard and the final results display, and the order of the
    players query. */
module Ranking {
  import opened Collections
  import opened Types

  /** Sort key that puts higher scores first. */
  function ScoreDesc(p: Player): int
  {
    -p.score
  }

  /** Scores never increase along `ps`. */
  ghost predicate ByScoreDescending(ps: seq<Player>)
  {
    forall i, j :: 0 <= i < j < |ps| ==> ps[i].score >= ps[j].score
  }

  /** `[...players].sort((a, b) => b.score - a.score)`: a new sequence holding
      the same players, each as often as in `ps`, highest score first. */
  function SortedByScore(ps: seq<Player>): (r: seq<Player>)
    ensures multiset(r) == multiset(ps)
    ensures ByScoreDescending(r)
  {
    SortBy(ps, ScoreDesc)
  }

  /** The sorted copy has as many entries as the input, and holds exactly
      the input's players. */
  lemma SortedByScoreMembers(ps: seq<Player>)
    ensures |SortedByScore(ps)| == |ps|
    ensures forall p :: p in SortedByScore(ps) <==> p in ps
  {
    SortByMembers(ps, ScoreDesc);
  }

  /** One drawn row of a ranking: its 1-based rank, the player, and the
      highlight the row is drawn with. */
  datatype Ranked<H> = Ranked(rank: nat, player: Player, highlight: H)

  /** The players of the rows, top to bottom. */
  function PlayersOf<H>(rows: seq<Ranked<H>>): (ps: seq<Player>)
    ensures |ps| == |rows|
    ensures forall i :: 0 <= i < |rows| ==> ps[i] == rows[i].player
  {
    seq(|rows|, i requires 0 <= i < |rows| => rows[i].player)
  }

  /** The first sorted player holds the highest score of all players and the
      last sorted player the lowest. */
  lemma TopAndBottom(ps: seq<Player>)
    requires ps != []
    ensures |SortedByScore(ps)| == |ps|
    ensures SortedByScore(ps)[0] in ps && SortedByScore(ps)[|ps| - 1] in ps
    ensures forall p :: p in ps ==> SortedByScore(ps)[|ps| - 1].score <= p.score <= SortedByScore(ps)[0].score
  {
    var r := SortedByScore(ps);
    SortedByScoreMembers(ps);
    assert r[0] in r && r[|r| - 1] in r;
    forall p | p in ps
      ensures r[|r| - 1].score <= p.score <= r[0].score
    {
      var k :| 0 <= k < |r| && r[k] == p;
    }
  }
}
