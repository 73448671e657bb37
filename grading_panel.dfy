/** The host's grading screen: one row per submitted answer with a ✓ and a
    ✗ button, and a finish control once every answer has a grade. */
module GradingPanel {
  import opened Collections
  import opened Types

  /** The three states a row is drawn in. */
  datatype Verdict = Correct | Incorrect | Ungraded

  /** A call of `onGrade(answerId, isCorrect)`. */
  datatype GradeCall = GradeCall(answerId: Id, isCorrect: bool)

  /** One drawn row: who answered, what, in which state, and what each of
      its two buttons calls. */
  datatype RowView = RowView(
    playerName: Option<string>, answerText: string, verdict: Verdict,
    onCorrect: GradeCall, onIncorrect: GradeCall)

  /** The whole panel. */
  datatype PanelView = PanelView(
    rows: seq<RowView>, showsExpected: bool, showsEmptyNote: bool, showsFinish: bool)

  /** A row's state follows its grade: graded correct, graded incorrect, or
      not graded yet. */
  function VerdictOf(a: Answer): (v: Verdict)
    ensures v == Correct <==> a.isCorrect == Some(true)
    ensures v == Incorrect <==> a.isCorrect == Some(false)
    ensures v == Ungraded <==> a.isCorrect == None
  {
    match a.isCorrect
    case Some(b) => if b then Correct else Incorrect
    case None => Ungraded
  }

  /** Every answer of `rows` carries a grade. */
  function EveryGraded(rows: seq<AnswerWithPlayer>): (b: bool)
    ensures b <==> forall i :: 0 <= i < |rows| ==> rows[i].answer.isCorrect.Some?
  {
    if rows == [] then true
    else rows[0].answer.isCorrect.Some? && EveryGraded(rows[1..])
  }

  /** `allGraded`: no answers at all, or every answer graded. */
  function AllGraded(rows: seq<AnswerWithPlayer>): (b: bool)
    ensures b <==> forall i :: 0 <= i < |rows| ==> VerdictOf(rows[i].answer) != Ungraded
  {
    |rows| == 0 || EveryGraded(rows)
  }

  function Row(a: AnswerWithPlayer): RowView
  {
    RowView(
      if a.player.Some? then Some(a.player.value.name) else None,
      a.answer.answerText, VerdictOf(a.answer),
      GradeCall(a.answer.id, true), GradeCall(a.answer.id, false))
  }

  /** The panel for `answers`: each row shows its answer's state, its ✓
      button grades that answer correct and its ✗ button incorrect; the
      expected answer shows when there is a non-empty one; the "no answers"
      note shows when there are none; and the finish control shows exactly
      when no row is left ungraded. */
  function View(answers: seq<AnswerWithPlayer>, correctAnswer: Option<string>): (v: PanelView)
    ensures |v.rows| == |answers|
    ensures forall i :: 0 <= i < |answers| ==>
      && v.rows[i].answerText == answers[i].answer.answerText
      && v.rows[i].verdict == VerdictOf(answers[i].answer)
      && v.rows[i].onCorrect == GradeCall(answers[i].answer.id, true)
      && v.rows[i].onIncorrect == GradeCall(answers[i].answer.id, false)
    ensures v.showsExpected <==> correctAnswer.Some? && correctAnswer.value != ""
    ensures v.showsEmptyNote <==> answers == []
    ensures v.showsFinish <==> forall i :: 0 <= i < |answers| ==> v.rows[i].verdict != Ungraded
  {
    PanelView(
      seq(|answers|, i requires 0 <= i < |answers| => Row(answers[i])),
      correctAnswer.Some? && correctAnswer.value != "",
      |answers| == 0,
      AllGraded(answers))
  }

  /** The host page's local copy after a grade: the answer with the call's
      id takes the call's grade. */
  function ApplyGrade(rows: seq<AnswerWithPlayer>, call: GradeCall): (r: seq<AnswerWithPlayer>)
    ensures |r| == |rows|
    ensures forall i :: 0 <= i < |r| ==> r[i].answer.id == rows[i].answer.id && r[i].player == rows[i].player
  {
    seq(|rows|, i requires 0 <= i < |rows| =>
      if rows[i].answer.id == call.answerId
      then rows[i].(answer := rows[i].answer.(isCorrect := Some(call.isCorrect)))
      else rows[i])
  }

  /** Pressing ✓ or ✗ on a row puts every row of that answer in the pressed
      state and leaves every other row's state and text as they were. */
  lemma GradeSetsVerdict(rows: seq<AnswerWithPlayer>, call: GradeCall)
    ensures forall i :: 0 <= i < |rows| ==>
      VerdictOf(ApplyGrade(rows, call)[i].answer)
        == if rows[i].answer.id == call.answerId then (if call.isCorrect then Correct else Incorrect)
           else VerdictOf(rows[i].answer)
    ensures forall i :: 0 <= i < |rows| ==> ApplyGrade(rows, call)[i].answer.answerText == rows[i].answer.answerText
  {
    var r := ApplyGrade(rows, call);
    forall i | 0 <= i < |rows|
      ensures VerdictOf(r[i].answer)
        == if rows[i].answer.id == call.answerId then (if call.isCorrect then Correct else Incorrect)
           else VerdictOf(rows[i].answer)
    {
      if rows[i].answer.id == call.answerId {
        assert r[i].answer.isCorrect == Some(call.isCorrect);
      }
    }
  }

  /** A sequence of grade presses, applied in order. */
  function ApplyAll(rows: seq<AnswerWithPlayer>, calls: seq<GradeCall>): (r: seq<AnswerWithPlayer>)
    ensures |r| == |rows|
    ensures forall i :: 0 <= i < |r| ==> r[i].answer.id == rows[i].answer.id
    decreases |calls|
  {
    if calls == [] then rows else ApplyAll(ApplyGrade(rows, calls[0]), calls[1..])
  }

  /** A row stays graded once graded, and a row some press targets ends up
      graded, whatever the other presses are. */
  lemma {:induction false} ApplyAllGrades(rows: seq<AnswerWithPlayer>, calls: seq<GradeCall>, i: nat, k: nat)
    requires i < |rows| && k < |calls| && calls[k].answerId == rows[i].answer.id
    ensures ApplyAll(rows, calls)[i].answer.isCorrect.Some?
    decreases |calls|
  {
    var next := ApplyGrade(rows, calls[0]);
    if k == 0 {
      StaysGraded(next, calls[1..], i);
    } else {
      ApplyAllGrades(next, calls[1..], i, k - 1);
    }
  }

  /** Further presses never take a grade away. */
  lemma {:induction false} StaysGraded(rows: seq<AnswerWithPlayer>, calls: seq<GradeCall>, i: nat)
    requires i < |rows| && rows[i].answer.isCorrect.Some?
    ensures ApplyAll(rows, calls)[i].answer.isCorrect.Some?
    decreases |calls|
  {
    if calls != [] {
      StaysGraded(ApplyGrade(rows, calls[0]), calls[1..], i);
    }
  }

  /** Once the host has pressed ✓ or ✗ at least once on every row, in any
      order, pressing rows again and with any grades, the finish control is
      offered. */
  lemma {:induction false} GradingEveryRowOffersFinish(rows: seq<AnswerWithPlayer>, calls: seq<GradeCall>, correctAnswer: Option<string>)
    requires forall i :: 0 <= i < |rows| ==> exists k :: 0 <= k < |calls| && calls[k].answerId == rows[i].answer.id
    ensures View(ApplyAll(rows, calls), correctAnswer).showsFinish
  {
    var r := ApplyAll(rows, calls);
    forall i | 0 <= i < |r|
      ensures r[i].answer.isCorrect.Some?
    {
      var k :| 0 <= k < |calls| && calls[k].answerId == rows[i].answer.id;
      ApplyAllGrades(rows, calls, i, k);
    }
  }
}
