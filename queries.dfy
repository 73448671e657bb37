/** The game-data layer: the four tables held in one store object, and one
    method per exported query of `src/lib/queries.ts`. */
module Queries {
  import opened Collections
  import opened Text
  import opened Types
  import Ranking

  /** The row `getGameByCode` returns: the only game whose code is the
      upper-cased argument, or nothing when no row or several rows match. */
  function GameByCode(games: seq<Game>, code: string): Option<Game>
  {
    Single(Where(games, KeyIs(GameCode, Upper(code))))
  }

  /** The answer row stored for a (player, question) pair, looked up the way
      `submitAnswer` and `getPlayerAnswer` do. */
  function AnswerOf(answers: seq<Answer>, playerId: Id, questionId: Id): Option<Answer>
  {
    Single(Where(answers, KeyIs(AnswerPair, (playerId, questionId))))
  }

  /** The players credited by a question: the authors of its answers that
      are graded correct. */
  ghost function Scorers(answers: seq<Answer>, questionId: Id): set<Id>
  {
    set a | a in answers && a.questionId == questionId && a.isCorrect == Some(true) :: a.playerId
  }

  /** The ids of the players `ps` (`players.map(p => p.id)`, used as a set). */
  function IdsOf(ps: seq<Player>): (ids: set<Id>)
    ensures forall p :: p in ps ==> p.id in ids
    ensures forall id :: id in ids ==> exists p :: p in ps && p.id == id
  {
    set p | p in ps :: p.id
  }

  /** The ids of a game's players, collected as `resetGame` collects them. */
  function PlayerIdsOf(players: seq<Player>, gameId: Id): (ids: set<Id>)
    ensures forall p :: p in players && p.gameId == gameId ==> p.id in ids
    ensures forall id :: id in ids ==> exists p :: p in players && p.gameId == gameId && p.id == id
  {
    KeyIsMeans(PlayerGame, gameId);
    IdsOf(Where(players, KeyIs(PlayerGame, gameId)))
  }

  /** `updateGameStatus`'s change to one row: the status is always written,
      the current question only when one is supplied, nothing else. */
  function WithStatus(g: Game, status: Status, currentQuestion: Option<int>): (h: Game)
    ensures h.id == g.id && h.code == g.code && h.status == status
    ensures h.currentQuestion == if currentQuestion.Some? then currentQuestion.value else g.currentQuestion
  {
    if currentQuestion.Some? then g.(status := status, currentQuestion := currentQuestion.value)
    else g.(status := status)
  }

  /** `Math.max(0, score - 1)`: a redone question takes its point back, but
      never below zero. */
  function Decremented(p: Player): (q: Player)
    ensures q.id == p.id && q.gameId == p.gameId && q.name == p.name
    ensures q.score >= 0 && q.score >= p.score - 1 && (p.score >= 1 ==> q.score == p.score - 1)
    ensures p.score <= 0 ==> q.score == 0
  {
    p.(score := if p.score - 1 > 0 then p.score - 1 else 0)
  }

  /** The row update `{ score }`. */
  function SetScore(score: int): Player -> Player
  {
    (p: Player) => p.(score := score)
  }

  /** The row update `{ answer_text }`. */
  function SetText(answerText: string): Answer -> Answer
  {
    (a: Answer) => a.(answerText := answerText)
  }

  /** The row update `{ is_correct }`. */
  function SetGrade(isCorrect: bool): Answer -> Answer
  {
    (a: Answer) => a.(isCorrect := Some(isCorrect))
  }

  /** Looking a game up by a code ignores the case of the code's letters:
      a code typed in another letter case, or already upper-cased, finds
      the same game. */
  lemma LookupIgnoresCase(games: seq<Game>, code: string, typed: string)
    requires |typed| == |code| && forall i :: 0 <= i < |code| ==> UpperChar(typed[i]) == UpperChar(code[i])
    ensures GameByCode(games, typed) == GameByCode(games, code)
    ensures GameByCode(games, Upper(code)) == GameByCode(games, code)
  {
    assert Upper(typed) == Upper(code);
    UpperIdempotent(code);
  }

  /** A game created with a code no other game holds is found by that code
      typed in any letter case. */
  lemma CreatedGameIsFound(games: seq<Game>, id: Id, code: string, typed: string)
    requires forall i :: 0 <= i < |games| ==> games[i].code != Upper(code)
    requires Upper(typed) == Upper(code)
    ensures GameByCode(games + [Game(id, Upper(code), Lobby, 0)], typed) == Some(Game(id, Upper(code), Lobby, 0))
  {
    var g := Game(id, Upper(code), Lobby, 0);
    KeyIsMeans(GameCode, Upper(code));
    WhereAppend(games, g, KeyIs(GameCode, Upper(code)));
    WhereNoMatch(games, KeyIs(GameCode, Upper(code)));
  }

  /** Two different games holding the same code make that code unusable:
      `.single()` sees two rows and the lookup returns nothing. */
  lemma SharedCodeNotFound(games: seq<Game>, code: string, i: nat, j: nat)
    requires i < |games| && j < |games| && games[i] != games[j]
    requires games[i].code == Upper(code) && games[j].code == Upper(code)
    ensures GameByCode(games, code) == None
  {
    KeyIsMeans(GameCode, Upper(code));
    var rows := Where(games, KeyIs(GameCode, Upper(code)));
    assert games[i] in rows && games[j] in rows;
  }

  /** The players table after the first `credited` authors of correct
      answers have each lost one point (floored at zero). */
  ghost predicate Reverted(base: seq<Player>, ps: seq<Player>, credited: set<Id>)
  {
    && |ps| == |base|
    && forall k :: 0 <= k < |ps| ==> ps[k] == if base[k].id in credited then Decremented(base[k]) else base[k]
  }

  /** Taking points back changes no player id. */
  lemma RevertedKeepsIds(base: seq<Player>, ps: seq<Player>, credited: set<Id>, n: nat)
    requires Reverted(base, ps, credited)
    ensures DistinctBy(base, PlayerKey) ==> DistinctBy(ps, PlayerKey)
    ensures KeysBelow(base, PlayerKey, n) ==> KeysBelow(ps, PlayerKey, n)
  {
    assert forall k :: 0 <= k < |ps| ==> ps[k].id == base[k].id;
  }

  /** Taking points back moves no player to another game. */
  lemma RevertedKeepsGames(base: seq<Player>, ps: seq<Player>, credited: set<Id>, n: nat)
    requires Reverted(base, ps, credited)
    ensures forall k :: 0 <= k < |ps| ==> ps[k].gameId == base[k].gameId
    ensures KeysBelow(base, PlayerGame, n) ==> KeysBelow(ps, PlayerGame, n)
  {
    assert forall k :: 0 <= k < |ps| ==> ps[k].gameId == base[k].gameId;
  }

  /** One turn of `redoQuestion`'s loop, for the `i`-th correct answer:
      when its author's row is found, the score becomes `max(0, score - 1)`;
      when it is not, nothing changes. Either way the first `i + 1` authors
      are now handled. */
  lemma TakeBackPoint(base: seq<Player>, ps: seq<Player>, correct: seq<Answer>, i: nat)
    requires i < |correct| && forall j, k :: 0 <= j < k < |correct| ==> correct[j].playerId != correct[k].playerId
    requires DistinctBy(base, PlayerKey) && Reverted(base, ps, Authors(correct, i))
    ensures var found := Single(Where(ps, KeyIs(PlayerKey, correct[i].playerId)));
      Reverted(base,
        if found.Some?
        then UpdateWhere(ps, KeyIs(PlayerKey, correct[i].playerId),
          SetScore(Decremented(found.value).score))
        else ps,
        Authors(correct, i + 1))
  {
    var playerId := correct[i].playerId;
    assert playerId !in Authors(correct, i);
    RevertedKeepsIds(base, ps, Authors(correct, i), 0);
    KeyIsMeans(PlayerKey, playerId);
    LookupDistinct(ps, PlayerKey, playerId);
  }

  /** The authors of a question's correct answers are pairwise different,
      since each player has at most one answer per question. */
  lemma CorrectAuthorsDistinct(answers: seq<Answer>, questionId: Id, correct: seq<Answer>)
    requires DistinctBy(answers, AnswerPair)
    requires correct == Where(answers, KeyIs(AnswerGrade, (questionId, Some(true))))
    ensures forall i, j :: 0 <= i < j < |correct| ==> correct[i].playerId != correct[j].playerId
  {
    KeyIsMeans(AnswerGrade, (questionId, Some(true)));
    WhereKeepsDistinct(answers, KeyIs(AnswerGrade, (questionId, Some(true))), AnswerPair);
    forall i, j | 0 <= i < j < |correct|
      ensures correct[i].playerId != correct[j].playerId
    {
      assert correct[i] in correct && correct[j] in correct;
      assert AnswerPair(correct[i]) != AnswerPair(correct[j]);
    }
  }

  /** The authors of the first `n` answers of `c`. */
  ghost function Authors(c: seq<Answer>, n: nat): (ids: set<Id>)
    requires n <= |c|
    ensures forall j :: 0 <= j < n ==> c[j].playerId in ids
    ensures forall id :: id in ids ==> exists j :: 0 <= j < n && c[j].playerId == id
  {
    if n == 0 then {} else Authors(c, n - 1) + {c[n - 1].playerId}
  }

  /** The authors of a question's correct answers are its scorers. */
  lemma CorrectAuthorsAreScorers(answers: seq<Answer>, questionId: Id, correct: seq<Answer>)
    requires correct == Where(answers, KeyIs(AnswerGrade, (questionId, Some(true))))
    ensures Authors(correct, |correct|) == Scorers(answers, questionId)
  {
    KeyIsMeans(AnswerGrade, (questionId, Some(true)));
    var authors := Authors(correct, |correct|);
    var scorers := Scorers(answers, questionId);
    forall id | id in scorers
      ensures id in authors
    {
      var a :| a in answers && a.questionId == questionId && a.isCorrect == Some(true) && a.playerId == id;
      assert a in correct;
      var j :| 0 <= j < |correct| && correct[j] == a;
    }
    forall id | id in authors
      ensures id in scorers
    {
      var j :| 0 <= j < |correct| && correct[j].playerId == id;
      assert correct[j] in correct;
    }
  }

  /** Rewriting the answer at index `k` in a way that keeps its id and its
      (player, question) pair keeps the answers table valid, and the pair's
      lookup then finds the rewritten row. */
  lemma RewriteAnswer(answers: seq<Answer>, k: nat, f: Answer -> Answer, n: nat)
    requires DistinctBy(answers, AnswerKey) && DistinctBy(answers, AnswerPair) && KeysBelow(answers, AnswerKey, n)
    requires KeysBelow(answers, AnswerPlayer, n) && KeysBelow(answers, AnswerQuestion, n)
    requires k < |answers|
    requires forall x :: f(x).id == x.id && f(x).playerId == x.playerId && f(x).questionId == x.questionId
    ensures var r := UpdateWhere(answers, KeyIs(AnswerKey, answers[k].id), f);
      && |r| == |answers|
      && (forall i :: 0 <= i < |r| ==> r[i] == if i == k then f(answers[k]) else answers[i])
      && DistinctBy(r, AnswerKey) && DistinctBy(r, AnswerPair) && KeysBelow(r, AnswerKey, n)
      && KeysBelow(r, AnswerPlayer, n) && KeysBelow(r, AnswerQuestion, n)
      && AnswerOf(r, answers[k].playerId, answers[k].questionId) == Some(f(answers[k]))
  {
    var r := UpdateWhere(answers, KeyIs(AnswerKey, answers[k].id), f);
    KeyIsMeans(AnswerKey, answers[k].id);
    UpdateWhereKeepsKey(answers, KeyIs(AnswerKey, answers[k].id), f, AnswerKey);
    UpdateWhereKeepsKey(answers, KeyIs(AnswerKey, answers[k].id), f, AnswerPair);
    UpdateWhereKeepsKey(answers, KeyIs(AnswerKey, answers[k].id), f, AnswerPlayer);
    UpdateWhereKeepsKey(answers, KeyIs(AnswerKey, answers[k].id), f, AnswerQuestion);
    assert r[k] == f(answers[k]);
    LookupDistinct(r, AnswerPair, (answers[k].playerId, answers[k].questionId));
  }

  /** Appending an answer with a fresh id for a pair that has none keeps the
      answers table valid, and the pair's lookup then finds the new row. */
  lemma AppendAnswer(answers: seq<Answer>, a: Answer, n: nat)
    requires DistinctBy(answers, AnswerKey) && DistinctBy(answers, AnswerPair) && KeysBelow(answers, AnswerKey, n)
    requires KeysBelow(answers, AnswerPlayer, n) && KeysBelow(answers, AnswerQuestion, n)
    requires a.id == n && a.playerId < n && a.questionId < n
    requires AnswerOf(answers, a.playerId, a.questionId).None?
    ensures var r := answers + [a];
      && DistinctBy(r, AnswerKey) && DistinctBy(r, AnswerPair) && KeysBelow(r, AnswerKey, n + 1)
      && KeysBelow(r, AnswerPlayer, n + 1) && KeysBelow(r, AnswerQuestion, n + 1)
      && AnswerOf(r, a.playerId, a.questionId) == Some(a)
  {
    LookupDistinct(answers, AnswerPair, AnswerPair(a));
    AppendKeepsDistinct(answers, a, AnswerKey);
    AppendKeepsDistinct(answers, a, AnswerPair);
    var r := answers + [a];
    LookupDistinct(r, AnswerPair, AnswerPair(a));
    assert r[|r| - 1] == a;
  }

  /** A game without players has no player ids to collect. */
  lemma NoPlayersNoIds(players: seq<Player>, gameId: Id)
    requires |Where(players, KeyIs(PlayerGame, gameId))| == 0
    ensures PlayerIdsOf(players, gameId) == {}
  {
    assert Where(players, KeyIs(PlayerGame, gameId)) == [];
  }

  /** Deleting answers keeps the answers table valid. */
  lemma DropAnswers(answers: seq<Answer>, keep: Answer -> bool, n: nat)
    requires DistinctBy(answers, AnswerKey) && DistinctBy(answers, AnswerPair) && KeysBelow(answers, AnswerKey, n)
    requires KeysBelow(answers, AnswerPlayer, n) && KeysBelow(answers, AnswerQuestion, n)
    ensures var r := Where(answers, keep);
      && DistinctBy(r, AnswerKey) && DistinctBy(r, AnswerPair) && KeysBelow(r, AnswerKey, n)
      && KeysBelow(r, AnswerPlayer, n) && KeysBelow(r, AnswerQuestion, n)
  {
    WhereKeepsDistinct(answers, keep, AnswerKey);
    WhereKeepsDistinct(answers, keep, AnswerPair);
    WhereKeepsBelow(answers, keep, AnswerKey, n);
    WhereKeepsBelow(answers, keep, AnswerPlayer, n);
    WhereKeepsBelow(answers, keep, AnswerQuestion, n);
  }

  /** The four tables of the hosted database, in memory. */
  class Store {
    var games: seq<Game>
    var questions: seq<Question>
    var players: seq<Player>
    var answers: seq<Answer>
    /** The next fresh row id. */
    var nextId: Id

    /** Ids are unique and below `nextId` in every table, questions and
        players are filed under ids already handed out (so a game created
        later never inherits them), every answer names a player id and a
        question id already handed out (so a player or question created
        later never inherits it), and no two answers share a (player,
        question) pair. */
    ghost predicate Valid()
      reads this
    {
      && DistinctBy(games, GameKey) && KeysBelow(games, GameKey, nextId)
      && DistinctBy(questions, QuestionKey) && KeysBelow(questions, QuestionKey, nextId)
      && KeysBelow(questions, QuestionGame, nextId)
      && DistinctBy(players, PlayerKey) && KeysBelow(players, PlayerKey, nextId)
      && KeysBelow(players, PlayerGame, nextId)
      && DistinctBy(answers, AnswerKey) && KeysBelow(answers, AnswerKey, nextId)
      && KeysBelow(answers, AnswerPlayer, nextId) && KeysBelow(answers, AnswerQuestion, nextId)
      && DistinctBy(answers, AnswerPair)
    }

    constructor ()
      ensures Valid()
      ensures games == [] && questions == [] && players == [] && answers == [] && nextId == 0
    {
      games, questions, players, answers := [], [], [], [];
      nextId := 0;
    }

    // ---- Games ----

    /** `createGame`: inserts a lobby game with the upper-cased code. */
    method CreateGame(code: string) returns (game: Game)
      requires Valid()
      modifies this
      ensures Valid()
      ensures game == Game(old(nextId), Upper(code), Lobby, 0)
      ensures games == old(games) + [game] && nextId == old(nextId) + 1
      ensures questions == old(questions) && players == old(players) && answers == old(answers)
    {
      game := Game(nextId, Upper(code), Lobby, 0);
      AppendKeepsDistinct(games, game, GameKey);
      games := games + [game];
      nextId := nextId + 1;
    }

    /** `getGameByCode`: the single game holding the upper-cased code. */
    method GetGameByCode(code: string) returns (game: Option<Game>)
      ensures game == GameByCode(games, code)
      ensures game.Some? <==> |Where(games, KeyIs(GameCode, Upper(code)))| == 1
      ensures game.Some? ==> game.value in games && game.value.code == Upper(code)
    {
      var rows := Where(games, KeyIs(GameCode, Upper(code)));
      game := Single(rows);
      if game.Some? {
        assert rows[0] in rows;
      }
    }

    /** `getGame`: the game with this id, or nothing when there is none. */
    method GetGame(gameId: Id) returns (game: Option<Game>)
      requires Valid()
      ensures game.Some? <==> exists i :: 0 <= i < |games| && games[i].id == gameId
      ensures forall i :: 0 <= i < |games| && games[i].id == gameId ==> game == Some(games[i])
    {
      game := Single(Where(games, KeyIs(GameKey, gameId)));
      LookupDistinct(games, GameKey, gameId);
    }

    /** `updateGameStatus`: rewrites the status, and the current question
        when one is given, of the game with this id. */
    method UpdateGameStatus(gameId: Id, status: Status, currentQuestion: Option<int>)
      requires Valid()
      modifies this
      ensures Valid()
      ensures |games| == |old(games)|
      ensures forall i :: 0 <= i < |games| ==>
        games[i] == if old(games)[i].id == gameId then WithStatus(old(games)[i], status, currentQuestion) else old(games)[i]
      ensures questions == old(questions) && players == old(players) && answers == old(answers)
      ensures nextId == old(nextId)
    {
      var f := (g: Game) => WithStatus(g, status, currentQuestion);
      UpdateWhereKeepsKey(games, KeyIs(GameKey, gameId), f, GameKey);
      games := UpdateWhere(games, KeyIs(GameKey, gameId), f);
    }

    // ---- Questions ----

    /** `getQuestions`: the game's questions and no others, each once, in
        ascending `orderNum`. */
    method GetQuestions(gameId: Id) returns (qs: seq<Question>)
      ensures qs == SortBy(Where(questions, KeyIs(QuestionGame, gameId)), OrderNum)
      ensures forall q :: q in qs <==> q in questions && q.gameId == gameId
      ensures multiset(qs) == multiset(Where(questions, KeyIs(QuestionGame, gameId)))
      ensures forall i, j :: 0 <= i < j < |qs| ==> qs[i].orderNum <= qs[j].orderNum
    {
      var rows := Where(questions, KeyIs(QuestionGame, gameId));
      qs := SortBy(rows, OrderNum);
      SortByMembers(rows, OrderNum);
      KeyIsMeans(QuestionGame, gameId);
    }

    /** `addQuestion`: inserts a question with a fresh id. */
    method AddQuestion(gameId: Id, text: string, correctAnswer: string, orderNum: int) returns (q: Question)
      requires Valid() && gameId < nextId
      modifies this
      ensures Valid()
      ensures q == Question(old(nextId), gameId, text, Some(correctAnswer), orderNum)
      ensures questions == old(questions) + [q] && nextId == old(nextId) + 1
      ensures games == old(games) && players == old(players) && answers == old(answers)
    {
      q := Question(nextId, gameId, text, Some(correctAnswer), orderNum);
      AppendKeepsDistinct(questions, q, QuestionKey);
      questions := questions + [q];
      nextId := nextId + 1;
    }

    /** `deleteQuestion`: removes the question with this id and nothing else;
        its answers stay. */
    method DeleteQuestion(questionId: Id)
      requires Valid()
      modifies this
      ensures Valid()
      ensures questions == Where(old(questions), Not(KeyIs(QuestionKey, questionId)))
      ensures forall q :: q in questions <==> q in old(questions) && q.id != questionId
      ensures games == old(games) && players == old(players) && answers == old(answers)
      ensures nextId == old(nextId)
    {
      WhereKeepsDistinct(questions, Not(KeyIs(QuestionKey, questionId)), QuestionKey);
      WhereKeepsBelow(questions, Not(KeyIs(QuestionKey, questionId)), QuestionKey, nextId);
      WhereKeepsBelow(questions, Not(KeyIs(QuestionKey, questionId)), QuestionGame, nextId);
      questions := Where(questions, Not(KeyIs(QuestionKey, questionId)));
    }

    // ---- Players ----

    /** `joinGame`: inserts a player with a fresh id and score 0. */
    method JoinGame(gameId: Id, name: string) returns (p: Player)
      requires Valid() && gameId < nextId
      modifies this
      ensures Valid()
      ensures p == Player(old(nextId), gameId, name, 0)
      ensures players == old(players) + [p] && nextId == old(nextId) + 1
      ensures games == old(games) && questions == old(questions) && answers == old(answers)
    {
      p := Player(nextId, gameId, name, 0);
      AppendKeepsDistinct(players, p, PlayerKey);
      players := players + [p];
      nextId := nextId + 1;
    }

    /** `getPlayers`: the game's players and no others, each once, highest
        score first. */
    method GetPlayers(gameId: Id) returns (ps: seq<Player>)
      ensures forall p :: p in ps <==> p in players && p.gameId == gameId
      ensures multiset(ps) == multiset(Where(players, KeyIs(PlayerGame, gameId)))
      ensures forall i, j :: 0 <= i < j < |ps| ==> ps[i].score >= ps[j].score
    {
      var rows := Where(players, KeyIs(PlayerGame, gameId));
      ps := Ranking.SortedByScore(rows);
      Ranking.SortedByScoreMembers(rows);
      KeyIsMeans(PlayerGame, gameId);
    }

    // ---- Answers ----

    /** `submitAnswer`: an upsert keyed by (player, question). An existing
        answer keeps its id and grade and takes the new text; otherwise an
        ungraded answer is inserted. Afterwards the pair has exactly one
        answer, holding the latest text. */
    method SubmitAnswer(playerId: Id, questionId: Id, answerText: string) returns (a: Answer)
      requires Valid() && playerId < nextId && questionId < nextId
      modifies this
      ensures Valid()
      ensures old(AnswerOf(answers, playerId, questionId)).Some? ==>
        var e := old(AnswerOf(answers, playerId, questionId)).value;
        && e in old(answers)
        && a == e.(answerText := answerText)
        && |answers| == |old(answers)|
        && (forall i :: 0 <= i < |answers| ==> answers[i] == if old(answers)[i].id == e.id then a else old(answers)[i])
        && nextId == old(nextId)
      ensures old(AnswerOf(answers, playerId, questionId)).None? ==>
        && a == Answer(old(nextId), playerId, questionId, answerText, None)
        && answers == old(answers) + [a]
        && nextId == old(nextId) + 1
      ensures a.playerId == playerId && a.questionId == questionId && a.answerText == answerText
      ensures AnswerOf(answers, playerId, questionId) == Some(a)
      ensures games == old(games) && questions == old(questions) && players == old(players)
    {
      var existing := AnswerOf(answers, playerId, questionId);
      LookupDistinct(answers, AnswerPair, (playerId, questionId));
      if existing.Some? {
        var e := existing.value;
        var k :| 0 <= k < |answers| && answers[k] == e;
        a := e.(answerText := answerText);
        RewriteAnswer(answers, k, SetText(answerText), nextId);
        answers := UpdateWhere(answers, KeyIs(AnswerKey, e.id), SetText(answerText));
      } else {
        a := Answer(nextId, playerId, questionId, answerText, None);
        AppendAnswer(answers, a, nextId);
        answers := answers + [a];
        nextId := nextId + 1;
      }
    }

    /** `getPlayerAnswer`: the player's answer to the question, if any. */
    method GetPlayerAnswer(playerId: Id, questionId: Id) returns (a: Option<Answer>)
      requires Valid()
      ensures a.Some? <==> exists i :: 0 <= i < |answers| && answers[i].playerId == playerId && answers[i].questionId == questionId
      ensures forall i :: 0 <= i < |answers| && answers[i].playerId == playerId && answers[i].questionId == questionId ==>
        a == Some(answers[i])
    {
      a := AnswerOf(answers, playerId, questionId);
      LookupDistinct(answers, AnswerPair, (playerId, questionId));
    }

    /** `getAnswersForQuestion`: every answer to the question, once each and
        in table order, joined with the player row of its author when that
        row exists. */
    method GetAnswersForQuestion(questionId: Id) returns (rows: seq<AnswerWithPlayer>)
      requires Valid()
      ensures |rows| == |Where(answers, KeyIs(AnswerQuestion, questionId))|
      ensures forall i :: 0 <= i < |rows| ==> rows[i].answer == Where(answers, KeyIs(AnswerQuestion, questionId))[i]
      ensures forall a :: a in answers && a.questionId == questionId <==> exists i :: 0 <= i < |rows| && rows[i].answer == a
      ensures forall i :: 0 <= i < |rows| ==>
        (rows[i].player.Some? <==> exists k :: 0 <= k < |players| && players[k].id == rows[i].answer.playerId)
      ensures forall i, k :: 0 <= i < |rows| && 0 <= k < |players| && players[k].id == rows[i].answer.playerId ==>
        rows[i].player == Some(players[k])
    {
      var own := Where(answers, KeyIs(AnswerQuestion, questionId));
      var ps := players;
      rows := seq(|own|, i requires 0 <= i < |own| =>
        AnswerWithPlayer(own[i], Single(Where(ps, KeyIs(PlayerKey, own[i].playerId)))));
      KeyIsMeans(AnswerQuestion, questionId);
      forall i | 0 <= i < |rows|
        ensures rows[i].player.Some? <==> exists k :: 0 <= k < |players| && players[k].id == rows[i].answer.playerId
        ensures forall k :: 0 <= k < |players| && players[k].id == rows[i].answer.playerId ==> rows[i].player == Some(players[k])
      {
        LookupDistinct(players, PlayerKey, own[i].playerId);
      }
      forall a | a in answers && a.questionId == questionId
        ensures exists i :: 0 <= i < |rows| && rows[i].answer == a
      {
        assert a in own;
        var i :| 0 <= i < |own| && own[i] == a;
        assert rows[i].answer == a;
      }
      forall i | 0 <= i < |rows|
        ensures rows[i].answer in answers && rows[i].answer.questionId == questionId
      {
        assert own[i] in own;
      }
    }

    /** `gradeAnswer`: sets the grade of the answer with this id; every other
        row is unchanged. */
    method GradeAnswer(answerId: Id, isCorrect: bool)
      requires Valid()
      modifies this
      ensures Valid()
      ensures |answers| == |old(answers)|
      ensures forall i :: 0 <= i < |answers| ==>
        answers[i] == if old(answers)[i].id == answerId then old(answers)[i].(isCorrect := Some(isCorrect)) else old(answers)[i]
      ensures games == old(games) && questions == old(questions) && players == old(players)
      ensures nextId == old(nextId)
    {
      KeyIsMeans(AnswerKey, answerId);
      UpdateWhereKeepsKey(answers, KeyIs(AnswerKey, answerId), SetGrade(isCorrect), AnswerKey);
      UpdateWhereKeepsKey(answers, KeyIs(AnswerKey, answerId), SetGrade(isCorrect), AnswerPair);
      UpdateWhereKeepsKey(answers, KeyIs(AnswerKey, answerId), SetGrade(isCorrect), AnswerPlayer);
      UpdateWhereKeepsKey(answers, KeyIs(AnswerKey, answerId), SetGrade(isCorrect), AnswerQuestion);
      answers := UpdateWhere(answers, KeyIs(AnswerKey, answerId), SetGrade(isCorrect));
    }

    /** `updatePlayerScore`: overwrites the score of the player with this id. */
    method UpdatePlayerScore(playerId: Id, score: int)
      requires Valid()
      modifies this
      ensures Valid()
      ensures |players| == |old(players)|
      ensures forall i :: 0 <= i < |players| ==>
        players[i] == if old(players)[i].id == playerId then old(players)[i].(score := score) else old(players)[i]
      ensures games == old(games) && questions == old(questions) && answers == old(answers)
      ensures nextId == old(nextId)
    {
      KeyIsMeans(PlayerKey, playerId);
      UpdateWhereKeepsKey(players, KeyIs(PlayerKey, playerId), SetScore(score), PlayerKey);
      UpdateWhereKeepsKey(players, KeyIs(PlayerKey, playerId), SetScore(score), PlayerGame);
      players := UpdateWhere(players, KeyIs(PlayerKey, playerId), SetScore(score));
    }

    // ---- Redo and reset ----

    /** The first half of `redoQuestion`: every author of a correct answer
        to the question, looked up in turn, loses one point, never going
        below zero. Only the players table is written. */
    method TakeBackPoints(questionId: Id)
      requires DistinctBy(players, PlayerKey) && DistinctBy(answers, AnswerPair)
      modifies this`players
      ensures Reverted(old(players), players, Scorers(answers, questionId))
    {
      var correct := Where(answers, KeyIs(AnswerGrade, (questionId, Some(true))));
      CorrectAuthorsDistinct(answers, questionId, correct);
      CorrectAuthorsAreScorers(answers, questionId, correct);
      var i := 0;
      while i < |correct|
        invariant 0 <= i <= |correct|
        invariant Reverted(old(players), players, Authors(correct, i))
      {
        var playerId := correct[i].playerId;
        var player := Single(Where(players, KeyIs(PlayerKey, playerId)));
        TakeBackPoint(old(players), players, correct, i);
        if player.Some? {
          players := UpdateWhere(players, KeyIs(PlayerKey, playerId),
            SetScore(Decremented(player.value).score));
        }
        i := i + 1;
      }
    }

    /** `redoQuestion`: every player credited by the question loses that
        point (never going below zero), all answers to the question are
        deleted, and the game returns to `active` on `questionIndex`. */
    method RedoQuestion(questionId: Id, gameId: Id, questionIndex: int)
      requires Valid()
      modifies this
      ensures Valid()
      ensures Reverted(old(players), players, Scorers(old(answers), questionId))
      ensures answers == Where(old(answers), Not(KeyIs(AnswerQuestion, questionId)))
      ensures forall a :: a in answers <==> a in old(answers) && a.questionId != questionId
      ensures |games| == |old(games)|
      ensures forall i :: 0 <= i < |games| ==>
        games[i] == if old(games)[i].id == gameId then old(games)[i].(status := Active, currentQuestion := questionIndex) else old(games)[i]
      ensures questions == old(questions) && nextId == old(nextId)
    {
      TakeBackPoints(questionId);
      RevertedKeepsIds(old(players), players, Scorers(answers, questionId), nextId);
      RevertedKeepsGames(old(players), players, Scorers(answers, questionId), nextId);
      KeyIsMeans(AnswerQuestion, questionId);
      DropAnswers(answers, Not(KeyIs(AnswerQuestion, questionId)), nextId);
      answers := Where(answers, Not(KeyIs(AnswerQuestion, questionId)));
      UpdateGameStatus(gameId, Active, Some(questionIndex));
    }

    /** `resetGame`: deletes the answers of the game's players, then its
        players, then its questions, and puts the game back in the lobby on
        question 0. The game row itself and every other game's rows stay. */
    method ResetGame(gameId: Id)
      requires Valid()
      modifies this
      ensures Valid()
      ensures answers == Where(old(answers), Not(KeyIn(AnswerPlayer, PlayerIdsOf(old(players), gameId))))
      ensures players == Where(old(players), Not(KeyIs(PlayerGame, gameId)))
      ensures questions == Where(old(questions), Not(KeyIs(QuestionGame, gameId)))
      ensures |games| == |old(games)|
      ensures forall i :: 0 <= i < |games| ==>
        games[i] == if old(games)[i].id == gameId then old(games)[i].(status := Lobby, currentQuestion := 0) else old(games)[i]
      ensures nextId == old(nextId)
      ensures forall a :: a in answers <==> a in old(answers) && a.playerId !in PlayerIdsOf(old(players), gameId)
      ensures forall p :: p in players <==> p in old(players) && p.gameId != gameId
      ensures forall q :: q in questions <==> q in old(questions) && q.gameId != gameId
    {
      var own := Where(players, KeyIs(PlayerGame, gameId));
      if |own| > 0 {
        var ids := IdsOf(own);
        KeyInMeans(AnswerPlayer, ids);
        DropAnswers(answers, Not(KeyIn(AnswerPlayer, ids)), nextId);
        answers := Where(answers, Not(KeyIn(AnswerPlayer, ids)));
      } else {
        NoPlayersNoIds(players, gameId);
        KeyInMeans(AnswerPlayer, {});
        WhereAllMatch(answers, Not(KeyIn(AnswerPlayer, {})));
      }
      KeyIsMeans(PlayerGame, gameId);
      WhereKeepsDistinct(players, Not(KeyIs(PlayerGame, gameId)), PlayerKey);
      WhereKeepsBelow(players, Not(KeyIs(PlayerGame, gameId)), PlayerKey, nextId);
      WhereKeepsBelow(players, Not(KeyIs(PlayerGame, gameId)), PlayerGame, nextId);
      players := Where(players, Not(KeyIs(PlayerGame, gameId)));
      KeyIsMeans(QuestionGame, gameId);
      WhereKeepsDistinct(questions, Not(KeyIs(QuestionGame, gameId)), QuestionKey);
      WhereKeepsBelow(questions, Not(KeyIs(QuestionGame, gameId)), QuestionKey, nextId);
      WhereKeepsBelow(questions, Not(KeyIs(QuestionGame, gameId)), QuestionGame, nextId);
      questions := Where(questions, Not(KeyIs(QuestionGame, gameId)));
      UpdateGameStatus(gameId, Lobby, Some(0));
    }
  }
}
