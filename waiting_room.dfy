/** The lobby screen's one decision: when the host may start the game. */
module WaitingRoom {
  import opened Collections
  import opened Types

  /** Start Game is offered to the host once at least one player has
      joined, and never to a player. */
  predicate StartOffered(isHost: bool, players: seq<Player>)
  {
    isHost && |players| > 0
  }

  /** Shown the game's players (in any order, as the players query returns
      them), the host is offered Start exactly when some player row belongs
      to the game; a player is never offered it. */
  lemma StartOfferedOnceJoined(players: seq<Player>, gameId: Id, shown: seq<Player>)
    requires multiset(shown) == multiset(Where(players, KeyIs(PlayerGame, gameId)))
    ensures StartOffered(true, shown) <==> exists p :: p in players && p.gameId == gameId
    ensures !StartOffered(false, shown)
  {
    KeyIsMeans(PlayerGame, gameId);
    var rows := Where(players, KeyIs(PlayerGame, gameId));
    if |shown| > 0 {
      assert shown[0] in multiset(shown);
      assert shown[0] in rows;
    }
    forall p | p in players && p.gameId == gameId
      ensures |shown| > 0
    {
      assert p in rows;
      assert p in multiset(rows);
    }
  }

  /** Right after a player joins a game, the host's lobby offers Start. */
  lemma JoinEnablesStart(players: seq<Player>, joined: Player, shown: seq<Player>)
    requires multiset(shown) == multiset(Where(players + [joined], KeyIs(PlayerGame, joined.gameId)))
    ensures StartOffered(true, shown)
  {
    StartOfferedOnceJoined(players + [joined], joined.gameId, shown);
    assert joined in players + [joined];
  }
}
