/** The server action behind "Create Game": a PIN gate, then a new game
    seeded with the fixed question list. */
module Actions {
  import opened Collections
  import opened Types
  import opened Queries

  /** One seeded question: its text and its expected answer. */
  datatype Seed = Seed(text: string, answer: string)

  /** `{ error }` or `{ gameId }`. */
  datatype HostResult = HostError(error: string) | HostCreated(gameId: Id)

  const InvalidPin := "Invalid PIN."

  /** The question rows the seeding loop inserts for `seeds`, the i-th one
      under the i-th id from `firstId` on. */
  function SeedRows(gameId: Id, seeds: seq<Seed>, firstId: Id): (rows: seq<Question>)
    ensures |rows| == |seeds|
    ensures forall i :: 0 <= i < |rows| ==> rows[i].gameId == gameId && rows[i].orderNum == i
    ensures forall i :: 0 <= i < |rows| ==>
      && rows[i].id == firstId + i
      && rows[i].text == seeds[i].text && rows[i].correctAnswer == Some(seeds[i].answer)
  {
    seq(|seeds|, i requires 0 <= i < |seeds| =>
      Question(firstId + i, gameId, seeds[i].text, Some(seeds[i].answer), i))
  }

  /** The seed rows of one more seed are the rows so far plus that seed's row. */
  lemma SeedRowsSnoc(gameId: Id, seeds: seq<Seed>, firstId: Id, i: nat)
    requires i < |seeds|
    ensures SeedRows(gameId, seeds[..i + 1], firstId)
      == SeedRows(gameId, seeds[..i], firstId) + [Question(firstId + i, gameId, seeds[i].text, Some(seeds[i].answer), i)]
  {
  }

  /** A seeded game that had no questions before lists exactly its seeds,
      in seed order, when its questions are read back by `order_num`. */
  lemma SeededQuestionsInOrder(before: seq<Question>, gameId: Id, seeds: seq<Seed>, firstId: Id)
    requires forall i :: 0 <= i < |before| ==> before[i].gameId != gameId
    ensures SortBy(Where(before + SeedRows(gameId, seeds, firstId), KeyIs(QuestionGame, gameId)), OrderNum)
      == SeedRows(gameId, seeds, firstId)
  {
    var rows := SeedRows(gameId, seeds, firstId);
    KeyIsMeans(QuestionGame, gameId);
    WhereConcat(before, rows, KeyIs(QuestionGame, gameId));
    WhereNoMatch(before, KeyIs(QuestionGame, gameId));
    WhereAllMatch(rows, KeyIs(QuestionGame, gameId));
    assert Where(before + rows, KeyIs(QuestionGame, gameId)) == rows;
    SortBySorted(rows, OrderNum);
  }

  /** The seeding loop of `createHostGame`: one `addQuestion` per seed, in
      seed order, the i-th with `order_num` i, all under game `gameId`. */
  method AddSeeds(store: Store, gameId: Id, seeds: seq<Seed>)
    requires store.Valid() && gameId < store.nextId
    modifies store
    ensures store.Valid()
    ensures store.questions == old(store.questions) + SeedRows(gameId, seeds, old(store.nextId))
    ensures store.games == old(store.games) && store.players == old(store.players) && store.answers == old(store.answers)
    ensures store.nextId == old(store.nextId) + |seeds|
  {
    var i := 0;
    while i < |seeds|
      invariant 0 <= i <= |seeds|
      invariant store.Valid()
      invariant store.questions == old(store.questions) + SeedRows(gameId, seeds[..i], old(store.nextId))
      invariant store.games == old(store.games) && store.players == old(store.players) && store.answers == old(store.answers)
      invariant store.nextId == old(store.nextId) + i
    {
      var q := store.AddQuestion(gameId, seeds[i].text, seeds[i].answer, i);
      SeedRowsSnoc(gameId, seeds, old(store.nextId), i);
      i := i + 1;
    }
    assert seeds[..i] == seeds;
  }

  /** `createHostGame`: a PIN other than the configured one (or no configured
      PIN at all) is refused with "Invalid PIN." and nothing is written;
      otherwise a lobby game is created under `code` and every seed becomes
      one of its questions, with `order_num` its position, so that reading
      the new game's questions back by `order_num` gives exactly the seeds
      in order. */
  method CreateHostGame(store: Store, masterPin: string, configuredPin: Option<string>, code: string, seeds: seq<Seed>)
    returns (r: HostResult)
    requires store.Valid()
    modifies store
    ensures store.Valid()
    ensures configuredPin != Some(masterPin) ==>
      r == HostError(InvalidPin) && unchanged(store)
    ensures configuredPin == Some(masterPin) ==>
      && r == HostCreated(old(store.nextId))
      && store.games == old(store.games) + [Game(old(store.nextId), Text.Upper(code), Lobby, 0)]
      && store.questions == old(store.questions) + SeedRows(old(store.nextId), seeds, old(store.nextId) + 1)
      && store.players == old(store.players) && store.answers == old(store.answers)
      && store.nextId == old(store.nextId) + 1 + |seeds|
    ensures configuredPin == Some(masterPin) ==>
      SortBy(Where(store.questions, KeyIs(QuestionGame, old(store.nextId))), OrderNum)
        == SeedRows(old(store.nextId), seeds, old(store.nextId) + 1)
  {
    if configuredPin.None? || masterPin != configuredPin.value {
      return HostError(InvalidPin);
    }
    assert forall i :: 0 <= i < |store.questions| ==> store.questions[i].gameId != store.nextId by {
      assert KeysBelow(store.questions, QuestionGame, store.nextId);
    }
    var game := store.CreateGame(code);
    assert store.questions == old(store.questions) && game.id == old(store.nextId) && store.nextId == old(store.nextId) + 1;
    AddSeeds(store, game.id, seeds);
    assert store.questions == old(store.questions) + SeedRows(old(store.nextId), seeds, old(store.nextId) + 1);
    SeededQuestionsInOrder(old(store.questions), old(store.nextId), seeds, old(store.nextId) + 1);
    r := HostCreated(game.id);
  }
}
