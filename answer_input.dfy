/** The player's answer box: a draft, an editing flag, a confirmation view
    once an answer is in, and an Edit control that reopens the draft. */
module AnswerForm {
  import opened Collections
  import opened Text

  /** `currentAnswer || ''`: the current answer, or empty when there is none. */
  function OrEmpty(s: Option<string>): string
  {
    if s.Some? then s.value else ""
  }

  /** The component's state; `submitted`, `disabled` and `currentAnswer`
      are properties its parent passes in, so they are parameters here. */
  class AnswerInput {
    var answer: string
    var editing: bool

    /** The draft starts as the current answer, and the box starts open for
        editing unless an answer is already in. */
    constructor (submitted: bool, currentAnswer: Option<string>)
      ensures answer == OrEmpty(currentAnswer) && editing == !submitted
      ensures ShowsConfirmation(submitted) <==> submitted
    {
      answer := OrEmpty(currentAnswer);
      editing := !submitted;
    }

    method Type(typed: string)
      modifies this
      ensures answer == typed && editing == old(editing)
    {
      answer := typed;
    }

    /** `handleSubmit`: a blank draft sends nothing and changes nothing;
        otherwise the trimmed draft is sent, the box leaves editing, and
        the draft itself stays as typed. What is sent is non-empty and
        already trimmed. */
    method HandleSubmit() returns (sent: Option<string>)
      modifies this
      ensures answer == old(answer)
      ensures IsBlank(old(answer)) ==> sent.None? && editing == old(editing)
      ensures !IsBlank(old(answer)) ==> sent == Some(Trim(old(answer))) && !editing
      ensures sent.Some? ==> sent.value != [] && Trim(sent.value) == sent.value
      ensures !IsBlank(old(answer)) ==> ShowsConfirmation(true) && EditOffered(true, false)
    {
      var trimmed := Trim(answer);
      if trimmed != [] {
        TrimIdempotent(answer);
        sent := Some(trimmed);
        editing := false;
      } else {
        sent := None;
      }
    }

    /** The confirmation view replaces the form exactly when an answer is in
        and the box is not being edited. */
    predicate ShowsConfirmation(submitted: bool)
      reads this
    {
      submitted && !editing
    }

    /** Edit is offered only inside the confirmation view, and not while
        answering is closed. */
    predicate EditOffered(submitted: bool, disabled: bool)
      reads this
    {
      ShowsConfirmation(submitted) && !disabled
    }

    /** The submit button is disabled while answering is closed and while
        the draft is blank. */
    function SubmitDisabled(disabled: bool): (b: bool)
      reads this
      ensures b <==> disabled || IsBlank(answer)
    {
      disabled || Trim(answer) == []
    }

    /** Edit: the draft goes back to the current answer and the form
        reopens, so the confirmation no longer shows. */
    method ClickEdit(submitted: bool, disabled: bool, currentAnswer: Option<string>)
      requires EditOffered(submitted, disabled)
      modifies this
      ensures answer == OrEmpty(currentAnswer) && editing
      ensures !ShowsConfirmation(submitted)
    {
      answer := OrEmpty(currentAnswer);
      editing := true;
    }
  }
}
