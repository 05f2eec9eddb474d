/** `ToDoController`: the task store over the in-memory `tasks` table. */
module Controller {
  import opened Wrappers
  import opened Int32
  import opened TaskData
  import opened TaskTable

  /** The `when (sortBy)` that picks the ORDER BY clause: only the exact
      keys "priority" and "endDate" order the result. */
  function SortOrderFor(sortBy: string): (order: SortOrder)
    ensures order == PriorityDesc <==> sortBy == "priority"
    ensures order == EndDateAsc <==> sortBy == "endDate"
    ensures order == Unsorted <==> sortBy != "priority" && sortBy != "endDate"
  {
    if sortBy == "priority" then PriorityDesc
    else if sortBy == "endDate" then EndDateAsc
    else Unsorted
  }

  /** What a listing query returns for `rows`: the tasks of status `s`,
      sorted as `sortBy` asks (tie order left open), and in table order
      when `sortBy` names no order. */
  ghost predicate IsListing(tasks: seq<Task>, rows: seq<Row>, s: TaskStatus, sortBy: string) {
    && multiset(tasks) == multiset(TasksInState(rows, s))
    && TasksSorted(SortOrderFor(sortBy), tasks)
    && (SortOrderFor(sortBy) == Unsorted ==> tasks == TasksInState(rows, s))
  }

  /** A listing holds exactly the stored tasks of its status, each once. */
  lemma ListingContents(tasks: seq<Task>, rows: seq<Row>, s: TaskStatus, sortBy: string, t: Task)
    requires DistinctIds(rows) && IsListing(tasks, rows, s, sortBy)
    ensures multiset(tasks)[t] == if t.state == s && Encode(t) in rows then 1 else 0
    ensures t in tasks <==> t.state == s && Encode(t) in rows
  {
    TasksInStateOnce(rows, s, t);
  }

  /** The rows a listing query's cursor walks: those of the status, in
      the order the ORDER BY clause delivers them. */
  function Cursor(rows: seq<Row>, s: TaskStatus, sortBy: string): (cursor: seq<Row>)
    ensures forall x :: x in cursor ==> x.state == s.Value()
  {
    var selected := RowsWithState(rows, s.Value());
    var cursor := OrderBy(SortOrderFor(sortBy), selected);
    assert forall x :: x in cursor ==> x in multiset(selected);
    cursor
  }

  /** Reading every row of the cursor into a task gives a listing. */
  lemma CursorListing(rows: seq<Row>, s: TaskStatus, sortBy: string)
    ensures IsListing(AsTasks(Cursor(rows, s, sortBy), s), rows, s, sortBy)
  {
    var selected := RowsWithState(rows, s.Value());
    var cursor := Cursor(rows, s, sortBy);
    AsTasksPermutation(selected, cursor, s);
    var tasks := AsTasks(cursor, s);
    assert TasksSorted(SortOrderFor(sortBy), tasks) by {
      assert RowsSorted(SortOrderFor(sortBy), cursor);
    }
  }

  /** The largest id in the table, or 0 when no id is positive. */
  function MaxId(rows: seq<Row>): (m: int)
    ensures 0 <= m <= MaxValue
    ensures forall r :: r in rows ==> r.id <= m
    ensures m == 0 || exists r :: r in rows && r.id == m
  {
    if rows == [] then 0
    else
      var rest := MaxId(rows[1..]);
      if rows[0].id > rest then rows[0].id else rest
  }

  /** A task inserted under a fresh id is what a lookup of that id then
      reads back, down to its status. */
  lemma InsertThenLookup(rows: seq<Row>, t: Task, id: int32)
    requires NoRowWithId(rows, id)
    ensures FindById(rows + [Encode(t.(id := id))], id) == Some(Encode(t.(id := id)))
    ensures Decode(Encode(t.(id := id))) == Success(t.(id := id))
  {
    FindAfterInsert(rows, Encode(t.(id := id)), id);
    DecodeEncode(t.(id := id));
  }

  class ToDoController {
    /** The rows of `tasks`, in the order a scan enumerates them. */
    var rows: seq<Row>
    /** The id the next insert is given. */
    var nextId: int

    ghost predicate Valid()
      reads this
    {
      && DistinctIds(rows)
      && 1 <= nextId <= MaxValue + 1
      && forall r :: r in rows ==> r.id < nextId
    }

    /** A store opened on an existing table (the bundled seed data). */
    constructor (seed: seq<Row>)
      requires DistinctIds(seed)
      ensures Valid() && rows == seed
    {
      rows := seed;
      nextId := MaxId(seed) + 1;
    }

    /** `SELECT * FROM tasks WHERE state = ? [ORDER BY ...]`, then the
        cursor loop that reads each row into a task. */
    method SelectTasks(s: TaskStatus, sortBy: string) returns (tasks: seq<Task>)
      ensures IsListing(tasks, rows, s, sortBy)
    {
      var cursor := Cursor(rows, s, sortBy);
      FromIntRoundTrip(s);
      tasks := [];
      var i := 0;
      while i < |cursor|
        invariant 0 <= i <= |cursor|
        invariant |tasks| == i
        invariant forall k :: 0 <= k < i ==> tasks[k] == RowTask(cursor[k], s)
      {
        var task := Decode(cursor[i]);
        tasks := tasks + [task.value];
        i := i + 1;
      }
      assert tasks == AsTasks(cursor, s);
      CursorListing(rows, s, sortBy);
    }

    /** The open tasks, ordered by `sortBy`. */
    method GetAllActiveTasks(sortBy: string) returns (tasks: seq<Task>)
      ensures IsListing(tasks, rows, Open, sortBy)
      ensures forall t :: t in tasks ==> t.state == Open
    {
      tasks := SelectTasks(Open, sortBy);
      assert forall t :: t in tasks ==> t in multiset(TasksInState(rows, Open));
    }

    /** The completed tasks, ordered by `sortBy`. */
    method GetAllCompletedTasks(sortBy: string) returns (tasks: seq<Task>)
      ensures IsListing(tasks, rows, Completed, sortBy)
      ensures forall t :: t in tasks ==> t.state == Completed
    {
      tasks := SelectTasks(Completed, sortBy);
      assert forall t :: t in tasks ==> t in multiset(TasksInState(rows, Completed));
    }

    /** `UPDATE tasks SET state = ? WHERE id = ?`; true when a row was hit. */
    method SetState(taskId: int32, s: TaskStatus) returns (success: bool)
      requires Valid()
      modifies this
      ensures Valid() && nextId == old(nextId)
      ensures rows == SetStateWhere(old(rows), taskId, s.Value())
      ensures success <==> FindById(old(rows), taskId).Some?
    {
      var rowsUpdated := CountWithId(rows, taskId);
      UpdatesKeepDistinctIds(rows, taskId, s.Value(), Task(taskId, "", 0, "", s, ""));
      ghost var before := rows;
      rows := SetStateWhere(rows, taskId, s.Value());
      assert forall k :: 0 <= k < |rows| ==> rows[k].id == before[k].id;
      success := rowsUpdated > 0;
    }

    method MarkTaskAsCompleted(taskId: int32) returns (success: bool)
      requires Valid()
      modifies this
      ensures Valid() && nextId == old(nextId)
      ensures rows == SetStateWhere(old(rows), taskId, Completed.Value())
      ensures success <==> FindById(old(rows), taskId).Some?
    {
      success := SetState(taskId, Completed);
    }

    method MarkTaskAsIncomplete(taskId: int32) returns (success: bool)
      requires Valid()
      modifies this
      ensures Valid() && nextId == old(nextId)
      ensures rows == SetStateWhere(old(rows), taskId, Open.Value())
      ensures success <==> FindById(old(rows), taskId).Some?
    {
      success := SetState(taskId, Open);
    }

    /** `INSERT INTO tasks`: every column but `id` comes from `task`; the
        id is a fresh one. Fails only once the 32-bit ids are used up. */
    method InsertTask(task: Task) returns (success: bool)
      requires Valid()
      modifies this
      ensures Valid()
      ensures success <==> old(nextId) <= MaxValue
      ensures success ==> NoRowWithId(old(rows), old(nextId))
      ensures success ==> rows == old(rows) + [Encode(task.(id := old(nextId)))]
      ensures success ==> nextId == old(nextId) + 1
      ensures !success ==> rows == old(rows) && nextId == old(nextId)
    {
      if nextId > MaxValue {
        return false;
      }
      var row := Row(nextId, task.name, task.priority, task.endDate, task.description, task.state.Value());
      assert row == Encode(task.(id := nextId));
      rows := rows + [row];
      nextId := nextId + 1;
      success := true;
    }

    /** `UPDATE tasks SET ... WHERE id = task.id`: all five other columns of
        that row are replaced; nothing happens for an unknown id. */
    method UpdateTask(task: Task) returns (success: bool)
      requires Valid()
      modifies this
      ensures Valid() && nextId == old(nextId)
      ensures rows == ReplaceWhere(old(rows), task)
      ensures success <==> FindById(old(rows), task.id).Some?
      ensures !success ==> rows == old(rows)
    {
      var result := CountWithId(rows, task.id);
      UpdatesKeepDistinctIds(rows, task.id, 0, task);
      WritesWithoutMatch(rows, task.id, 0, task);
      ghost var before := rows;
      rows := ReplaceWhere(rows, task);
      assert forall k :: 0 <= k < |rows| ==> rows[k].id == before[k].id;
      success := result > 0;
    }

    /** `DELETE FROM tasks WHERE id = ?`. */
    method DeleteTask(taskId: int32) returns (success: bool)
      requires Valid()
      modifies this
      ensures Valid() && nextId == old(nextId)
      ensures rows == DeleteWhere(old(rows), taskId)
      ensures NoRowWithId(rows, taskId)
      ensures success <==> FindById(old(rows), taskId).Some?
    {
      var result := CountWithId(rows, taskId);
      DeleteKeepsDistinctIds(rows, taskId);
      rows := DeleteWhere(rows, taskId);
      success := result > 0;
    }

    /** `SELECT * FROM tasks WHERE id = ?`: the first such row read into a
        task, null when there is none; a bad status code escapes as an error. */
    method GetTaskById(taskId: int32) returns (r: Result<Option<Task>, DecodeError>)
      ensures r == Success(None) <==> FindById(rows, taskId).None?
      ensures r.Success? && r.value.Some? ==> FindById(rows, taskId) == Some(Encode(r.value.value))
      ensures r.Failure? <==>
        FindById(rows, taskId).Some? && FromInt(FindById(rows, taskId).value.state).Failure?
      ensures r.Failure? ==> r.error == UnknownTaskStatus(FindById(rows, taskId).value.state)
    {
      var found := FindById(rows, taskId);
      if found.None? {
        return Success(None);
      }
      var decoded := Decode(found.value);
      match decoded {
        case Success(t) => r := Success(Some(t));
        case Failure(e) => r := Failure(e);
      }
    }
  }
}
