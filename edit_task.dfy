/** The edit screen: fields filled from the looked-up task, the same
    checks as the add screen, and an update that keeps the task's id and
    status; also the date text the date picker produces. */
module EditTask {
  import opened Wrappers
  import opened Int32
  import opened Strings
  import opened TaskData
  import opened TaskTable
  import opened Controller
  import opened TaskForm

  /** The four text fields of a task form. */
  datatype Fields = Fields(name: string, priority: string, endDate: string, description: string)

  /** The fields as the screen opens: the task's values, or "" for each
      when the lookup found nothing. */
  function InitialFields(task: Option<Task>): (f: Fields)
    ensures task.None? ==> f == Fields("", "", "", "")
    ensures task.Some? ==>
      && f.name == task.value.name
      && f.priority == IntToString(task.value.priority)
      && ParseInt(f.priority) == Some(task.value.priority)
      && f.endDate == task.value.endDate
      && f.description == task.value.description
  {
    match task
    case None => Fields("", "", "", "")
    case Some(t) =>
      ParseIntRoundTrip(t.priority);
      Fields(t.name, IntToString(t.priority), t.endDate, t.description)
  }

  /** The record a valid save passes to `updateTask`: the edited fields,
      with the original task's id and status (0 and OPEN when there was none). */
  function UpdatedTask(original: Option<Task>, name: string, priorityText: string,
                       endDate: string, description: string): (r: Result<Task, string>)
    ensures r.Failure? <==> Validate(priorityText, name).Failure?
    ensures r.Failure? ==> r.error == Validate(priorityText, name).error
    ensures r.Success? ==>
      && r.value.id == (if original.Some? then original.value.id else 0)
      && r.value.state == (if original.Some? then original.value.state else Open)
      && ParseInt(priorityText) == Some(r.value.priority)
      && r.value.name == name && r.value.endDate == endDate && r.value.description == description
  {
    match Validate(priorityText, name)
    case Failure(e) => Failure(e)
    case Success(p) =>
      Success(Task(
        id := if original.Some? then original.value.id else 0,
        name := name,
        description := description,
        priority := p,
        endDate := endDate,
        state := if original.Some? then original.value.state else Open))
  }

  /** Saving an untouched form rewrites the task exactly as it was. */
  lemma UntouchedSaveKeepsTask(t: Task)
    requires !IsBlank(t.name)
    ensures var f := InitialFields(Some(t));
      UpdatedTask(Some(t), f.name, f.priority, f.endDate, f.description) == Success(t)
  {
  }

  /** A screen opened on a missing task cannot be saved untouched: its
      empty priority is rejected first. */
  lemma UntouchedMissingTaskRejected()
    ensures var f := InitialFields(None);
      UpdatedTask(None, f.name, f.priority, f.endDate, f.description) == Failure(PriorityError)
  {
  }

  // ---------------------------------------------------------------------
  // The date picker's text
  // ---------------------------------------------------------------------

  /** Calendar order on (year, 0-based month, day). */
  predicate DateLe(y1: int, m1: int, d1: int, y2: int, m2: int, d2: int) {
    y1 < y2 || (y1 == y2 && (m1 < m2 || (m1 == m2 && d1 <= d2)))
  }

  predicate InPickerRange(year: int32, month: int32, dayOfMonth: int32) {
    0 <= year < 10000 && 0 <= month < 99 && 0 <= dayOfMonth < 100
  }

  lemma Pow10Values()
    ensures Pow10(2) == 100 && Pow10(4) == 10000
  {
    assert Pow10(1) == 10;
    assert Pow10(3) == 1000;
  }

  /** `String.format("%04d-%02d-%02d", year, month + 1, dayOfMonth)` for the
      picker's 0-based month; `month + 1` is a 32-bit addition. Every
      field is at least as wide as asked, so the text is never shorter
      than 10 characters, and for picker-range dates it is exactly 10. */
  function FormatDate(year: int32, month: int32, dayOfMonth: int32): (s: string)
    ensures |s| >= 10
    ensures InPickerRange(year, month, dayOfMonth) ==> |s| == 10 && s[4] == '-' && s[7] == '-'
  {
    var y, m, d := FormatPadded(year, 4), FormatPadded(Wrap(month as int + 1), 2), FormatPadded(dayOfMonth, 2);
    if InPickerRange(year, month, dayOfMonth) then
      Pow10Values();
      DecimalDigitsLength(year as nat, 4);
      DecimalDigitsLength(month as nat + 1, 2);
      DecimalDigitsLength(dayOfMonth as nat, 2);
      y + "-" + m + "-" + d
    else
      y + "-" + m + "-" + d
  }

  /** The date as year digits, then the rest of the text. */
  lemma FormatDateParts(year: int32, month: int32, dayOfMonth: int32)
    requires InPickerRange(year, month, dayOfMonth)
    ensures FormatDate(year, month, dayOfMonth) ==
      DecimalDigits(year, 4) + ("-" + (DecimalDigits(month as nat + 1, 2) + ("-" + DecimalDigits(dayOfMonth as nat, 2))))
    ensures |DecimalDigits(year, 4)| == 4
    ensures |DecimalDigits(month as nat + 1, 2)| == 2 && |DecimalDigits(dayOfMonth as nat, 2)| == 2
  {
    Pow10Values();
    DecimalDigitsLength(year as nat, 4);
    DecimalDigitsLength(month as nat + 1, 2);
    DecimalDigitsLength(dayOfMonth as nat, 2);
  }

  /** For years 0..9999 the text is ten characters, `YYYY-MM-DD`. */
  lemma FormatDateShape(year: int32, month: int32, dayOfMonth: int32)
    requires InPickerRange(year, month, dayOfMonth)
    ensures var s := FormatDate(year, month, dayOfMonth);
      && |s| == 10 && s[4] == '-' && s[7] == '-'
      && AllDigits(s[..4]) && DigitsValue(s[..4]) == year as int
      && AllDigits(s[5..7]) && DigitsValue(s[5..7]) == month as int + 1
      && AllDigits(s[8..]) && DigitsValue(s[8..]) == dayOfMonth as int
  {
    FormatDateParts(year, month, dayOfMonth);
    var s := FormatDate(year, month, dayOfMonth);
    assert s[..4] == DecimalDigits(year, 4);
    assert s[5..7] == DecimalDigits(month as nat + 1, 2);
    assert s[8..] == DecimalDigits(dayOfMonth as nat, 2);
  }

  /** Two equally long fields, each followed by '-' and a rest, compare
      by the fields first and by the rests when the fields agree. */
  lemma SeparatedOrder(x1: string, r1: string, x2: string, r2: string)
    requires |x1| == |x2|
    ensures TextLe(x1 + ("-" + r1), x2 + ("-" + r2)) == if x1 == x2 then TextLe(r1, r2) else TextLe(x1, x2)
  {
    TextLeConcat(x1, "-" + r1, x2, "-" + r2);
    TextLeConcat("-", r1, "-", r2);
  }

  /** The `MM-DD` part orders as (month, day). */
  lemma MonthDayOrder(m1: int32, d1: int32, m2: int32, d2: int32)
    requires 0 <= m1 < 99 && 0 <= d1 < 100 && 0 <= m2 < 99 && 0 <= d2 < 100
    ensures TextLe(DecimalDigits(m1 as nat + 1, 2) + ("-" + DecimalDigits(d1 as nat, 2)),
                   DecimalDigits(m2 as nat + 1, 2) + ("-" + DecimalDigits(d2 as nat, 2)))
      <==> m1 < m2 || (m1 == m2 && d1 <= d2)
  {
    Pow10Values();
    var b1, b2 := DecimalDigits(m1 as nat + 1, 2), DecimalDigits(m2 as nat + 1, 2);
    DecimalDigitsLength(m1 as nat + 1, 2);
    DecimalDigitsLength(m2 as nat + 1, 2);
    DecimalDigitsOrder(m1 as nat + 1, m2 as nat + 1, 2);
    DecimalDigitsOrder(d1 as nat, d2 as nat, 2);
    DecimalDigitsInjective(m1 as nat + 1, m2 as nat + 1, 2);
    SeparatedOrder(b1, DecimalDigits(d1 as nat, 2), b2, DecimalDigits(d2 as nat, 2));
  }

  /** Date texts sort in text order exactly as the dates do in time. */
  lemma FormatDateOrder(y1: int32, m1: int32, d1: int32, y2: int32, m2: int32, d2: int32)
    requires InPickerRange(y1, m1, d1) && InPickerRange(y2, m2, d2)
    ensures TextLe(FormatDate(y1, m1, d1), FormatDate(y2, m2, d2)) <==> DateLe(y1, m1, d1, y2, m2, d2)
  {
    Pow10Values();
    FormatDateParts(y1, m1, d1);
    FormatDateParts(y2, m2, d2);
    var a1, a2 := DecimalDigits(y1, 4), DecimalDigits(y2, 4);
    DecimalDigitsOrder(y1, y2, 4);
    DecimalDigitsInjective(y1, y2, 4);
    MonthDayOrder(m1, d1, m2, d2);
    SeparatedOrder(a1, DecimalDigits(m1 as nat + 1, 2) + ("-" + DecimalDigits(d1 as nat, 2)),
                   a2, DecimalDigits(m2 as nat + 1, 2) + ("-" + DecimalDigits(d2 as nat, 2)));
  }

  // ---------------------------------------------------------------------
  // The screen
  // ---------------------------------------------------------------------

  class EditTaskScreen {
    const controller: ToDoController
    /** What `getTaskById` returned when the screen opened. */
    const task: Option<Task>
    var taskName: string
    var taskPriority: string
    var taskEndDate: string
    var taskDescription: string
    var errorMessage: string

    ghost predicate Valid()
      reads this, controller
    {
      controller.Valid()
    }

    constructor (controller: ToDoController, task: Option<Task>)
      requires controller.Valid()
      ensures Valid() && this.controller == controller && this.task == task
      ensures Fields(taskName, taskPriority, taskEndDate, taskDescription) == InitialFields(task)
      ensures errorMessage == ""
    {
      this.controller := controller;
      this.task := task;
      var f := InitialFields(task);
      taskName, taskPriority, taskEndDate, taskDescription := f.name, f.priority, f.endDate, f.description;
      errorMessage := "";
    }

    method OnTaskNameChange(value: string)
      modifies this
      ensures taskName == value
      ensures taskPriority == old(taskPriority) && taskEndDate == old(taskEndDate)
      ensures taskDescription == old(taskDescription) && errorMessage == old(errorMessage)
    {
      taskName := value;
    }

    method OnTaskPriorityChange(value: string)
      modifies this
      ensures taskPriority == AcceptPriorityEdit(old(taskPriority), value)
      ensures taskName == old(taskName) && taskEndDate == old(taskEndDate)
      ensures taskDescription == old(taskDescription) && errorMessage == old(errorMessage)
    {
      taskPriority := AcceptPriorityEdit(taskPriority, value);
    }

    method OnTaskDescriptionChange(value: string)
      modifies this
      ensures taskDescription == value
      ensures taskName == old(taskName) && taskPriority == old(taskPriority)
      ensures taskEndDate == old(taskEndDate) && errorMessage == old(errorMessage)
    {
      taskDescription := value;
    }

    /** The date picker's callback. */
    method OnDateSelected(year: int32, month: int32, dayOfMonth: int32)
      modifies this
      ensures taskEndDate == FormatDate(year, month, dayOfMonth)
      ensures taskName == old(taskName) && taskPriority == old(taskPriority)
      ensures taskDescription == old(taskDescription) && errorMessage == old(errorMessage)
    {
      taskEndDate := FormatDate(year, month, dayOfMonth);
    }

    /** The save button: validate, then `updateTask`; the screen goes
        back exactly when the update hit a row. */
    method OnSaveClicked() returns (navigatedBack: bool)
      requires Valid()
      modifies this, controller
      ensures Valid() && controller.nextId == old(controller.nextId)
      ensures taskName == old(taskName) && taskPriority == old(taskPriority)
      ensures taskEndDate == old(taskEndDate) && taskDescription == old(taskDescription)
      ensures match UpdatedTask(task, taskName, taskPriority, taskEndDate, taskDescription)
        case Failure(message) =>
          errorMessage == message && !navigatedBack && controller.rows == old(controller.rows)
        case Success(updated) =>
          && errorMessage == old(errorMessage)
          && controller.rows == ReplaceWhere(old(controller.rows), updated)
          && (navigatedBack <==> FindById(old(controller.rows), updated.id).Some?)
    {
      var built := UpdatedTask(task, taskName, taskPriority, taskEndDate, taskDescription);
      if built.Failure? {
        errorMessage := built.error;
        return false;
      }
      navigatedBack := controller.UpdateTask(built.value);
    }
  }

  /** Opening the screen for `taskId`: the lookup's error, if it throws,
      escapes before any field exists. */
  method OpenEditTaskScreen(controller: ToDoController, taskId: int32) returns (r: Result<EditTaskScreen, DecodeError>)
    requires controller.Valid()
    ensures r.Failure? <==>
      FindById(controller.rows, taskId).Some? && FromInt(FindById(controller.rows, taskId).value.state).Failure?
    ensures r.Success? ==>
      && fresh(r.value) && r.value.Valid() && r.value.controller == controller
      && (r.value.task.None? <==> FindById(controller.rows, taskId).None?)
      && (r.value.task.Some? ==> FindById(controller.rows, taskId) == Some(Encode(r.value.task.value)))
      && Fields(r.value.taskName, r.value.taskPriority, r.value.taskEndDate, r.value.taskDescription)
         == InitialFields(r.value.task)
      && r.value.errorMessage == ""
  {
    var lookup := controller.GetTaskById(taskId);
    match lookup {
      case Failure(e) => r := Failure(e);
      case Success(task) =>
        var screen := new EditTaskScreen(controller, task);
        r := Success(screen);
    }
  }
}
