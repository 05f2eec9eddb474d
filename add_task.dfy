/** The add screen: four fields, the save-time checks, and the insert of
    a new open task. */
module AddTask {
  import opened Wrappers
  import opened Int32
  import opened Strings
  import opened TaskData
  import opened TaskTable
  import opened Controller
  import opened TaskForm
  import opened EditTask

  /** The priority field's initial text. */
  const InitialPriority: string := "1"

  /** The record a valid save passes to `insertTask`: placeholder id 0,
      status OPEN, and the entered fields; the end date may be "". */
  function NewTask(name: string, priorityText: string, endDate: string, description: string): (r: Result<Task, string>)
    ensures r.Failure? <==> Validate(priorityText, name).Failure?
    ensures r.Failure? ==> r.error == Validate(priorityText, name).error
    ensures r.Success? ==>
      && r.value.id == 0 && r.value.state == Open
      && ParseInt(priorityText) == Some(r.value.priority)
      && r.value.name == name && r.value.endDate == endDate && r.value.description == description
  {
    match Validate(priorityText, name)
    case Failure(e) => Failure(e)
    case Success(p) => Success(Task(0, description, p, endDate, Open, name))
  }

  /** The untouched priority field is accepted. */
  lemma InitialPriorityValid()
    ensures ParseInt(InitialPriority) == Some(1)
  {
  }

  class AddTaskScreen {
    const controller: ToDoController
    var taskName: string
    var taskPriority: string
    var taskEndDate: string
    var taskDescription: string
    var errorMessage: string

    /** The priority field, which starts as "1" and takes only digit-only
        edits, never holds anything but digits. */
    ghost predicate Valid()
      reads this, controller
    {
      controller.Valid() && AllDigits(taskPriority)
    }

    constructor (controller: ToDoController)
      requires controller.Valid()
      ensures Valid() && this.controller == controller
      ensures taskName == "" && taskPriority == InitialPriority && taskEndDate == ""
      ensures taskDescription == "" && errorMessage == ""
    {
      this.controller := controller;
      taskName, taskPriority, taskEndDate, taskDescription := "", InitialPriority, "", "";
      errorMessage := "";
    }

    method OnTaskNameChange(value: string)
      requires Valid()
      modifies this
      ensures Valid() && taskName == value
      ensures taskPriority == old(taskPriority) && taskEndDate == old(taskEndDate)
      ensures taskDescription == old(taskDescription) && errorMessage == old(errorMessage)
    {
      taskName := value;
    }

    method OnTaskPriorityChange(value: string)
      requires Valid()
      modifies this
      ensures Valid() && taskPriority == AcceptPriorityEdit(old(taskPriority), value)
      ensures taskName == old(taskName) && taskEndDate == old(taskEndDate)
      ensures taskDescription == old(taskDescription) && errorMessage == old(errorMessage)
    {
      taskPriority := AcceptPriorityEdit(taskPriority, value);
    }

    method OnTaskDescriptionChange(value: string)
      requires Valid()
      modifies this
      ensures Valid() && taskDescription == value
      ensures taskName == old(taskName) && taskPriority == old(taskPriority)
      ensures taskEndDate == old(taskEndDate) && errorMessage == old(errorMessage)
    {
      taskDescription := value;
    }

    /** The date picker's callback. */
    method OnDateSelected(year: int32, month: int32, dayOfMonth: int32)
      requires Valid()
      modifies this
      ensures Valid() && taskEndDate == FormatDate(year, month, dayOfMonth)
      ensures taskName == old(taskName) && taskPriority == old(taskPriority)
      ensures taskDescription == old(taskDescription) && errorMessage == old(errorMessage)
    {
      taskEndDate := FormatDate(year, month, dayOfMonth);
    }

    /** The "Add Task" button: validate, then `insertTask`; `onTaskAdded`
        runs (the result here) exactly when the insert succeeded. */
    method OnAddTaskClicked() returns (taskAdded: bool)
      requires Valid()
      modifies this, controller
      ensures Valid()
      ensures taskName == old(taskName) && taskPriority == old(taskPriority)
      ensures taskEndDate == old(taskEndDate) && taskDescription == old(taskDescription)
      ensures match NewTask(taskName, taskPriority, taskEndDate, taskDescription)
        case Failure(message) =>
          && errorMessage == message && !taskAdded
          && controller.rows == old(controller.rows) && controller.nextId == old(controller.nextId)
        case Success(newTask) =>
          && errorMessage == old(errorMessage)
          && (taskAdded <==> old(controller.nextId) <= MaxValue)
          && (taskAdded ==> controller.rows == old(controller.rows) + [Encode(newTask.(id := old(controller.nextId)))])
          && (!taskAdded ==> controller.rows == old(controller.rows))
    {
      var built := NewTask(taskName, taskPriority, taskEndDate, taskDescription);
      if built.Failure? {
        errorMessage := built.error;
        return false;
      }
      taskAdded := controller.InsertTask(built.value);
    }
  }
}
