/** The end-of-game screen: the winner, the full ranking, a callout for the
    last-placed player, and the host's reset control. */
module FinalResults {
  import opened Collections
  import opened Types
  import opened Ranking

  /** Row highlight: last place, first place, or none. */
  datatype Style = Danger | Gold | Plain

  /** A row's highlight is its style. */
  type Row = Ranked<Style>

  datatype Results = Results(
    winner: Option<Player>, rows: seq<Row>, lastPlaceCallout: Option<Player>, showsReset: bool)

  /** `firstPlace`: the top of the ranking, holding the highest score; absent
      when there are no players. */
  function FirstPlace(players: seq<Player>): (r: Option<Player>)
    ensures r.None? <==> players == []
    ensures r.Some? ==> r.value in players && forall p :: p in players ==> p.score <= r.value.score
  {
    if players == [] then None
    else
      TopAndBottom(players);
      Some(SortedByScore(players)[0])
  }

  /** `lastPlace`: the bottom of the ranking, holding the lowest score;
      absent when there are no players. */
  function LastPlace(players: seq<Player>): (r: Option<Player>)
    ensures r.None? <==> players == []
    ensures r.Some? ==> r.value in players && forall p :: p in players ==> r.value.score <= p.score
  {
    if players == [] then None
    else
      TopAndBottom(players);
      Some(SortedByScore(players)[|players| - 1])
  }

  /** The highlight of the row at index `i`: Danger for last place's id,
      which wins over Gold for the top row. */
  function RowStyle(p: Player, i: nat, lastPlace: Option<Player>): (s: Style)
    ensures s == Danger <==> lastPlace.Some? && p.id == lastPlace.value.id
    ensures s == Gold <==> i == 0 && s != Danger
  {
    if lastPlace.Some? && p.id == lastPlace.value.id then Danger
    else if i == 0 then Gold
    else Plain
  }

  /** The rows drawn for an already sorted list. */
  function RankedRows(sorted: seq<Player>, lastPlace: Option<Player>): (rows: seq<Row>)
    ensures PlayersOf(rows) == sorted
    ensures forall i :: 0 <= i < |rows| ==> rows[i].rank == i + 1 && rows[i].highlight == RowStyle(sorted[i], i, lastPlace)
  {
    var rows := seq(|sorted|, i requires 0 <= i < |sorted| => Ranked(i + 1, sorted[i], RowStyle(sorted[i], i, lastPlace)));
    assert PlayersOf(rows) == sorted;
    rows
  }

  /** The screen for `players`: the winner block shows the first place when
      there is one; every player is ranked once, highest score first; a row
      is Danger exactly when its player has last place's id, otherwise Gold
      exactly at the top; the last-place callout needs two players or more;
      reset shows exactly for a host with a handler. */
  function View(players: seq<Player>, isHost: bool, hasOnReset: bool): (v: Results)
    ensures v.winner == FirstPlace(players)
    ensures |v.rows| == |players|
    ensures multiset(PlayersOf(v.rows)) == multiset(players)
    ensures forall i, j :: 0 <= i < j < |v.rows| ==> v.rows[i].player.score >= v.rows[j].player.score
    ensures forall i :: 0 <= i < |v.rows| ==> v.rows[i].rank == i + 1
    ensures forall i :: 0 <= i < |v.rows| ==>
      (v.rows[i].highlight == Danger <==> LastPlace(players).Some? && v.rows[i].player.id == LastPlace(players).value.id)
    ensures forall i :: 0 <= i < |v.rows| ==>
      (v.rows[i].highlight == Gold <==> i == 0 && v.rows[i].highlight != Danger)
    ensures v.lastPlaceCallout == if |players| > 1 then LastPlace(players) else None
    ensures v.showsReset <==> isHost && hasOnReset
  {
    var sorted := SortedByScore(players);
    SortedByScoreMembers(players);
    var rows := RankedRows(sorted, LastPlace(players));
    Results(FirstPlace(players), rows, if |sorted| > 1 then LastPlace(players) else None, isHost && hasOnReset)
  }

  /** The bottom row is always the Danger row. */
  lemma BottomRowIsDanger(players: seq<Player>, isHost: bool, hasOnReset: bool)
    requires players != []
    ensures View(players, isHost, hasOnReset).rows[|players| - 1].highlight == Danger
  {
    var v := View(players, isHost, hasOnReset);
    SortedByScoreMembers(players);
    assert PlayersOf(v.rows)[|players| - 1] == SortedByScore(players)[|players| - 1];
  }

  /** With unique player ids, the Danger highlight marks the bottom row and
      no other, so with two players or more the top row is Gold. */
  lemma OnlyBottomRowIsDanger(players: seq<Player>, isHost: bool, hasOnReset: bool)
    requires DistinctBy(players, PlayerKey)
    ensures forall i :: 0 <= i < |players| ==>
      (View(players, isHost, hasOnReset).rows[i].highlight == Danger <==> i == |players| - 1)
    ensures |players| > 1 ==> View(players, isHost, hasOnReset).rows[0].highlight == Gold
  {
    var v := View(players, isHost, hasOnReset);
    var sorted := PlayersOf(v.rows);
    PermutationKeepsDistinct(players, sorted, PlayerKey);
    if players != [] {
      BottomRowIsDanger(players, isHost, hasOnReset);
      forall i | 0 <= i < |players| - 1
        ensures v.rows[i].highlight != Danger
      {
        assert PlayerKey(sorted[i]) != PlayerKey(sorted[|players| - 1]);
      }
    }
  }

  /** A lone player is both the winner and the Danger row, and gets no
      last-place callout. */
  lemma SolePlayerIsDanger(players: seq<Player>, isHost: bool, hasOnReset: bool)
    requires |players| == 1
    ensures View(players, isHost, hasOnReset).winner == Some(players[0])
    ensures View(players, isHost, hasOnReset).rows[0].highlight == Danger
    ensures View(players, isHost, hasOnReset).lastPlaceCallout.None?
  {
    BottomRowIsDanger(players, isHost, hasOnReset);
    assert players[0] in players;
  }
}
