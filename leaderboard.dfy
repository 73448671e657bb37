/** The between-questions leaderboard: players ranked by score, the leader
    highlighted, and an optional "Next Question" control. */
module Leaderboard {
  import opened Collections
  import opened Types
  import opened Ranking

  /** A row's highlight is whether it carries the leader highlight. */
  type Row = Ranked<bool>

  datatype Board = Board(title: string, rows: seq<Row>, showsContinue: bool)

  /** The board for `players`: the title (by default "Leaderboard"); every
      player once, highest score first, ranked 1, 2, ...; the highlight on
      the first row only; and the continue control exactly when it is both
      requested and wired to a handler. */
  function View(players: seq<Player>, title: Option<string>, showContinue: bool, hasOnContinue: bool): (b: Board)
    ensures b.title == if title.Some? then title.value else "Leaderboard"
    ensures |b.rows| == |players|
    ensures multiset(PlayersOf(b.rows)) == multiset(players)
    ensures forall i :: 0 <= i < |b.rows| ==> b.rows[i].rank == i + 1 && (b.rows[i].highlight <==> i == 0)
    ensures forall i, j :: 0 <= i < j < |b.rows| ==> b.rows[i].player.score >= b.rows[j].player.score
    ensures b.showsContinue <==> showContinue && hasOnContinue
  {
    var sorted := SortedByScore(players);
    SortedByScoreMembers(players);
    var rows := seq(|sorted|, i requires 0 <= i < |sorted| => Ranked(i + 1, sorted[i], i == 0));
    assert PlayersOf(rows) == sorted;
    Board(if title.Some? then title.value else "Leaderboard", rows, showContinue && hasOnContinue)
  }

  /** The highlighted leader holds the highest score of all players. */
  lemma LeaderHasTopScore(players: seq<Player>, title: Option<string>, showContinue: bool, hasOnContinue: bool)
    requires players != []
    ensures View(players, title, showContinue, hasOnContinue).rows[0].highlight
    ensures forall p :: p in players ==> p.score <= View(players, title, showContinue, hasOnContinue).rows[0].player.score
  {
    var b := View(players, title, showContinue, hasOnContinue);
    var ps := PlayersOf(b.rows);
    forall p | p in players
      ensures p.score <= b.rows[0].player.score
    {
      assert p in multiset(ps);
      var k :| 0 <= k < |ps| && ps[k] == p;
      assert b.rows[k].player == p;
    }
  }
}
