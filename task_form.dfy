/** The checks the add and edit screens share: the priority keystroke
    filter and the save-time validation. */
module TaskForm {
  import opened Wrappers
  import opened Int32
  import opened Strings

  const PriorityError: string := "Priority must be a valid number."
  const NameError: string := "Task name cannot be empty."

  /** The priority field's `onValueChange`: an edit is taken only when
      every character of it is a digit. */
  function AcceptPriorityEdit(current: string, proposed: string): (r: string)
    ensures AllDigits(proposed) ==> r == proposed
    ensures !AllDigits(proposed) ==> r == current
  {
    if AllDigits(proposed) then proposed else current
  }

  /** A field holding only digits keeps holding only digits, whatever is typed. */
  lemma PriorityFieldStaysDigits(current: string, proposed: string)
    requires AllDigits(current)
    ensures AllDigits(AcceptPriorityEdit(current, proposed))
  {
  }

  /** The save button's checks, in the order they run: the priority must
      parse as an Int, then the name must not be blank. */
  function Validate(priorityText: string, name: string): (r: Result<int32, string>)
    ensures r.Success? <==> ParseInt(priorityText).Some? && !IsBlank(name)
    ensures r.Success? ==> ParseInt(priorityText) == Some(r.value)
    ensures ParseInt(priorityText).None? ==> r == Failure(PriorityError)
    ensures ParseInt(priorityText).Some? && IsBlank(name) ==> r == Failure(NameError)
  {
    match ParseInt(priorityText)
    case None => Failure(PriorityError)
    case Some(p) => if IsBlank(name) then Failure(NameError) else Success(p)
  }

  /** On a digits-only field, the priority check fails exactly for the
      empty text and for numbers beyond Int's range, whatever the name. */
  lemma DigitPriorityRejected(priorityText: string, name: string)
    requires AllDigits(priorityText)
    ensures Validate(priorityText, name) == Failure(PriorityError) <==>
      priorityText == "" || DigitsValue(priorityText) > MaxValue
  {
    if priorityText != "" {
      ParseIntDigits(priorityText);
    }
  }
}
