/** The four record kinds of the game's tables, and their columns as
    functions so that filters can name them. */
module Types {
  import opened Collections

  /** Row identity. The hosted tables use generated UUIDs; the model draws
      fresh numbers from one counter. */
  type Id = nat

  datatype Status = Lobby | Active | Grading | Revealing | Finished

  datatype Game = Game(id: Id, code: string, status: Status, currentQuestion: int)

  datatype Question = Question(
    id: Id, gameId: Id, text: string, correctAnswer: Option<string>, orderNum: int)

  datatype Player = Player(id: Id, gameId: Id, name: string, score: int)

  /** `isCorrect` is three-way: `Some(true)` correct, `Some(false)`
      incorrect, `None` not graded yet. */
  datatype Answer = Answer(
    id: Id, playerId: Id, questionId: Id, answerText: string, isCorrect: Option<bool>)

  /** An answer joined with the player who gave it; `None` when no player row
      has the answer's `playerId`. */
  datatype AnswerWithPlayer = AnswerWithPlayer(answer: Answer, player: Option<Player>)

  // Columns.

  function GameKey(g: Game): Id { g.id }
  function GameCode(g: Game): string { g.code }

  function QuestionKey(q: Question): Id { q.id }
  function QuestionGame(q: Question): Id { q.gameId }
  function OrderNum(q: Question): int { q.orderNum }

  function PlayerKey(p: Player): Id { p.id }
  function PlayerGame(p: Player): Id { p.gameId }

  function AnswerKey(a: Answer): Id { a.id }
  function AnswerPlayer(a: Answer): Id { a.playerId }
  function AnswerQuestion(a: Answer): Id { a.questionId }
  /** The (player, question) pair that an answer upsert is keyed by. */
  function AnswerPair(a: Answer): (Id, Id) { (a.playerId, a.questionId) }
  /** The (question, grade) pair filtered on when a question is redone. */
  function AnswerGrade(a: Answer): (Id, Option<bool>) { (a.questionId, a.isCorrect) }
}
