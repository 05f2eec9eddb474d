/** The dashboard: the cached open and completed lists, the status
    filter, the sort key, the expanded card, and the callbacks that
    change them. */
module DashboardScreen {
  import opened Wrappers
  import opened Int32
  import opened TaskData
  import opened TaskTable
  import opened Controller

  predicate AllInState(ts: seq<Task>, s: TaskStatus) {
    forall t :: t in ts ==> t.state == s
  }

  /** Whether a task passes `filter == null || it.state == filter`. */
  predicate Matches(t: Task, filter: Option<TaskStatus>) {
    filter.None? || t.state == filter.value
  }

  /** The tasks of `s` that pass the filter, in their order in `s`. */
  function Keep(s: seq<Task>, filter: Option<TaskStatus>): seq<Task> {
    if s == [] then []
    else (if Matches(s[0], filter) then [s[0]] else []) + Keep(s[1..], filter)
  }

  /** A task passing the filter is kept as often as it occurs; any other
      task is dropped. */
  lemma {:induction false} KeepCount(s: seq<Task>, filter: Option<TaskStatus>, t: Task)
    ensures multiset(Keep(s, filter))[t] == if Matches(t, filter) then multiset(s)[t] else 0
    ensures t in Keep(s, filter) <==> t in s && Matches(t, filter)
    decreases |s|
  {
    if s != [] {
      assert s == [s[0]] + s[1..];
      KeepCount(s[1..], filter, t);
    }
  }

  /** Filtering distributes over concatenation, so relative order is kept. */
  lemma {:induction false} KeepAppend(a: seq<Task>, b: seq<Task>, filter: Option<TaskStatus>)
    ensures Keep(a + b, filter) == Keep(a, filter) + Keep(b, filter)
    decreases |a|
  {
    if a == [] {
      assert a + b == b;
    } else {
      var head := if Matches(a[0], filter) then [a[0]] else [];
      assert (a + b)[0] == a[0] && (a + b)[1..] == a[1..] + b;
      assert Keep(a + b, filter) == head + Keep(a[1..] + b, filter);
      KeepAppend(a[1..], b, filter);
      assert Keep(a, filter) == head + Keep(a[1..], filter);
    }
  }

  /** A filter every task passes keeps the sequence as it is. */
  lemma {:induction false} KeepEvery(s: seq<Task>, filter: Option<TaskStatus>)
    requires forall t :: t in s ==> Matches(t, filter)
    ensures Keep(s, filter) == s
    decreases |s|
  {
    if s != [] {
      KeepEvery(s[1..], filter);
      assert s == [s[0]] + s[1..];
    }
  }

  /** A filter no task passes keeps nothing. */
  lemma {:induction false} KeepNone(s: seq<Task>, filter: Option<TaskStatus>)
    requires forall t :: t in s ==> !Matches(t, filter)
    ensures Keep(s, filter) == []
    decreases |s|
  {
    if s != [] {
      KeepNone(s[1..], filter);
    }
  }

  lemma KeepMembers(s: seq<Task>, filter: Option<TaskStatus>)
    ensures forall t :: t in Keep(s, filter) <==> t in s && Matches(t, filter)
  {
    forall t {
      KeepCount(s, filter, t);
    }
  }

  /** `filteredTasks`: the open list followed by the completed list, then
      filtered by status; it holds exactly the tasks of either list that
      pass the filter. */
  function FilteredTasks(active: seq<Task>, completed: seq<Task>, filter: Option<TaskStatus>): (shown: seq<Task>)
    ensures forall t :: t in shown <==> (t in active || t in completed) && Matches(t, filter)
  {
    KeepMembers(active + completed, filter);
    Keep(active + completed, filter)
  }

  /** With no filter the whole of both lists is shown, open ones first;
      with a filter, exactly the list of that status. */
  lemma FilteredByStatus(active: seq<Task>, completed: seq<Task>)
    requires AllInState(active, Open) && AllInState(completed, Completed)
    ensures FilteredTasks(active, completed, None) == active + completed
    ensures FilteredTasks(active, completed, Some(Open)) == active
    ensures FilteredTasks(active, completed, Some(Completed)) == completed
  {
    KeepEvery(active + completed, None);
    KeepAppend(active, completed, Some(Open));
    KeepEvery(active, Some(Open));
    KeepNone(completed, Some(Open));
    KeepAppend(active, completed, Some(Completed));
    KeepNone(active, Some(Completed));
    KeepEvery(completed, Some(Completed));
  }

  /** Whatever the filter, no completed task is shown above an open one. */
  lemma OpenShownFirst(active: seq<Task>, completed: seq<Task>, filter: Option<TaskStatus>)
    requires AllInState(active, Open) && AllInState(completed, Completed)
    ensures var shown := FilteredTasks(active, completed, filter);
      forall i, j :: 0 <= i < j < |shown| ==> !(shown[i].state == Completed && shown[j].state == Open)
  {
    var ka, kc := Keep(active, filter), Keep(completed, filter);
    KeepAppend(active, completed, filter);
    var shown := ka + kc;
    forall i, j | 0 <= i < j < |shown|
      ensures !(shown[i].state == Completed && shown[j].state == Open)
    {
      if i < |ka| {
        assert shown[i] in ka;
        KeepCount(active, filter, shown[i]);
      } else {
        assert shown[j] == kc[j - |ka|];
        KeepCount(completed, filter, shown[j]);
      }
    }
  }

  /** When both lists are fresh listings of the table, the dashboard shows
      each stored task that passes the filter exactly once, and nothing else. */
  lemma ShownAreStored(active: seq<Task>, completed: seq<Task>, rows: seq<Row>, sortBy: string,
                       filter: Option<TaskStatus>, t: Task)
    requires DistinctIds(rows)
    requires IsListing(active, rows, Open, sortBy) && IsListing(completed, rows, Completed, sortBy)
    ensures multiset(FilteredTasks(active, completed, filter))[t] ==
      if Matches(t, filter) && Encode(t) in rows then 1 else 0
  {
    KeepCount(active + completed, filter, t);
    ListingContents(active, rows, Open, sortBy, t);
    ListingContents(completed, rows, Completed, sortBy, t);
  }

  /** A task that sits at two places of a sequence occurs in it twice. */
  lemma TwoOccurrences(s: seq<Task>, i: int, j: int)
    requires 0 <= i < j < |s|
    ensures s[i] == s[j] ==> multiset(s)[s[i]] >= 2
  {
    assert s == s[..j] + s[j..];
    assert s[..j][i] == s[i] && s[j..][0] == s[j];
  }

  /** Under the primary key, two stored rows with one id are one row. */
  lemma SameIdSameRow(rows: seq<Row>, x: Row, y: Row)
    requires DistinctIds(rows) && x in rows && y in rows
    ensures x.id == y.id ==> x == y
  {
    var p :| 0 <= p < |rows| && rows[p] == x;
    var q :| 0 <= q < |rows| && rows[q] == y;
  }

  lemma EncodeInjective(a: Task, b: Task)
    ensures Encode(a) == Encode(b) ==> a == b
  {
  }

  /** With fresh lists, no two shown cards carry the same id. */
  lemma ShownIdsDistinct(active: seq<Task>, completed: seq<Task>, rows: seq<Row>, sortBy: string,
                         filter: Option<TaskStatus>)
    requires DistinctIds(rows)
    requires IsListing(active, rows, Open, sortBy) && IsListing(completed, rows, Completed, sortBy)
    ensures var shown := FilteredTasks(active, completed, filter);
      forall i, j :: 0 <= i < j < |shown| ==> shown[i].id != shown[j].id
  {
    var shown := FilteredTasks(active, completed, filter);
    forall i, j | 0 <= i < j < |shown|
      ensures shown[i].id != shown[j].id
    {
      var a, b := shown[i], shown[j];
      ShownAreStored(active, completed, rows, sortBy, filter, a);
      ShownAreStored(active, completed, rows, sortBy, filter, b);
      assert a in multiset(shown) && b in multiset(shown);
      SameIdSameRow(rows, Encode(a), Encode(b));
      EncodeInjective(a, b);
      TwoOccurrences(shown, i, j);
    }
  }

  class Dashboard {
    const controller: ToDoController
    var activeTasks: seq<Task>
    var completedTasks: seq<Task>
    var filter: Option<TaskStatus>
    var expandedTaskId: Option<int32>
    var sortBy: string

    ghost predicate Valid()
      reads this, controller
    {
      && controller.Valid()
      && AllInState(activeTasks, Open)
      && AllInState(completedTasks, Completed)
    }

    /** Both cached lists are what the queries return now for `sortBy`. */
    ghost predicate UpToDate()
      reads this, controller
    {
      && IsListing(activeTasks, controller.rows, Open, sortBy)
      && IsListing(completedTasks, controller.rows, Completed, sortBy)
    }

    /** The cards on screen, top to bottom. */
    function ShownTasks(): (shown: seq<Task>)
      reads this, controller
      requires Valid()
      ensures filter.None? ==> shown == activeTasks + completedTasks
      ensures filter == Some(Open) ==> shown == activeTasks
      ensures filter == Some(Completed) ==> shown == completedTasks
      ensures forall i, j :: 0 <= i < j < |shown| ==> !(shown[i].state == Completed && shown[j].state == Open)
    {
      FilteredByStatus(activeTasks, completedTasks);
      OpenShownFirst(activeTasks, completedTasks, filter);
      FilteredTasks(activeTasks, completedTasks, filter)
    }

    /** Both lists start as listings by "priority"; nothing is filtered
        or expanded. */
    constructor (controller: ToDoController)
      requires controller.Valid()
      ensures this.controller == controller
      ensures Valid() && UpToDate()
      ensures sortBy == "priority" && filter == None && expandedTaskId == None
    {
      this.controller := controller;
      var active := controller.GetAllActiveTasks("priority");
      var completed := controller.GetAllCompletedTasks("priority");
      activeTasks := active;
      completedTasks := completed;
      filter := None;
      expandedTaskId := None;
      sortBy := "priority";
    }

    /** `refreshTasks`: re-read both lists with the current `sortBy`. */
    method RefreshTasks()
      requires Valid()
      modifies this
      ensures Valid() && UpToDate()
      ensures sortBy == old(sortBy) && filter == old(filter) && expandedTaskId == old(expandedTaskId)
    {
      activeTasks := controller.GetAllActiveTasks(sortBy);
      completedTasks := controller.GetAllCompletedTasks(sortBy);
    }

    /** Choosing an entry of the sort menu. */
    method OnSelectSortOption(selectedSortBy: string)
      requires Valid()
      modifies this
      ensures Valid() && UpToDate()
      ensures sortBy == selectedSortBy
      ensures filter == old(filter) && expandedTaskId == old(expandedTaskId)
    {
      sortBy := selectedSortBy;
      RefreshTasks();
    }

    /** Choosing "All", "Open" or "Completed" in the filter dialog. */
    method OnSelectFilter(choice: Option<TaskStatus>)
      modifies this
      ensures filter == choice
      ensures activeTasks == old(activeTasks) && completedTasks == old(completedTasks)
      ensures sortBy == old(sortBy) && expandedTaskId == old(expandedTaskId)
    {
      filter := choice;
    }

    /** Whether a card is drawn expanded: `task.id == expandedTaskId`. */
    predicate IsExpanded(t: Task)
      reads this
    {
      expandedTaskId == Some(t.id)
    }

    /** With fresh lists, at most one shown card is expanded. */
    lemma AtMostOneExpanded()
      requires Valid() && UpToDate()
      ensures var shown := ShownTasks();
        forall i, j :: 0 <= i < |shown| && 0 <= j < |shown| && IsExpanded(shown[i]) && IsExpanded(shown[j]) ==> i == j
    {
      ShownIdsDistinct(activeTasks, completedTasks, controller.rows, sortBy, filter);
    }

    /** Clicking a card: it collapses if it was the expanded one and is
        otherwise expanded, which collapses any other. */
    method OnExpand(taskId: int32)
      modifies this
      ensures expandedTaskId == if old(expandedTaskId) == Some(taskId) then None else Some(taskId)
      ensures activeTasks == old(activeTasks) && completedTasks == old(completedTasks)
      ensures sortBy == old(sortBy) && filter == old(filter)
    {
      expandedTaskId := if expandedTaskId == Some(taskId) then None else Some(taskId);
    }

    /** The delete button: the lists are re-read only if a row was deleted. */
    method OnDelete(taskId: int32)
      requires Valid()
      modifies this, controller
      ensures Valid()
      ensures controller.rows == DeleteWhere(old(controller.rows), taskId)
      ensures controller.nextId == old(controller.nextId)
      ensures if FindById(old(controller.rows), taskId).Some? then UpToDate()
              else activeTasks == old(activeTasks) && completedTasks == old(completedTasks)
      ensures sortBy == old(sortBy) && filter == old(filter) && expandedTaskId == old(expandedTaskId)
    {
      var success := controller.DeleteTask(taskId);
      if success {
        RefreshTasks();
      }
    }

    /** The checkbox: checking marks the task completed, unchecking marks
        it open; the lists are re-read only if a row was updated. */
    method OnToggleCompletion(taskId: int32, isCompleted: bool)
      requires Valid()
      modifies this, controller
      ensures Valid()
      ensures controller.rows ==
        SetStateWhere(old(controller.rows), taskId, if isCompleted then Completed.Value() else Open.Value())
      ensures controller.nextId == old(controller.nextId)
      ensures if FindById(old(controller.rows), taskId).Some? then UpToDate()
              else activeTasks == old(activeTasks) && completedTasks == old(completedTasks)
      ensures sortBy == old(sortBy) && filter == old(filter) && expandedTaskId == old(expandedTaskId)
    {
      var success;
      if isCompleted {
        success := controller.MarkTaskAsCompleted(taskId);
      } else {
        success := controller.MarkTaskAsIncomplete(taskId);
      }
      if success {
        RefreshTasks();
      }
    }
  }
}
