# A9 to-do app: task store, status codec, dashboard and task forms

This project models the core of the A9 Android to-do app in Dafny and
proves properties of that model. It covers four parts.

- **Task store** (`ToDoController`). The SQLite `tasks` table becomes
  an in-memory sequence of rows held by a class, plus the counter that
  hands out fresh ids. The store's operations are methods: two listing
  queries (open tasks and completed tasks), the two status updates,
  insert, full update, delete, and lookup by id. Each SQL statement they
  issue (`WHERE state = ?`, an optional `ORDER BY`, `UPDATE ... WHERE
  id = ?`, `DELETE ... WHERE id = ?`) is a function on rows in
  `TaskTable`. The listing queries keep the source's cursor loop as a
  method loop.
- **Status codec** (`TaskStatus`). `OPEN` is stored as 0 and
  `COMPLETED` as 1. `fromInt` is partial: any other stored code raises
  an error, which becomes a `Failure`.
- **Dashboard** (`Dashboard`). The cached open and completed lists, the
  status filter, the expanded card and the sort key form a class. Its
  callbacks (refresh, sort menu, filter dialog, expand, delete, checkbox)
  are methods. The shown list is the open list followed by the completed
  list, then filtered.
- **Add and edit screens.** The digits-only keystroke filter on
  priority. The save-time checks, where the priority parse runs before the
  blank-name check. How the new or updated record is built. The
  `YYYY-MM-DD` text made from a picked date.

Modelling choices:

- Kotlin `Int` is the subset type `int32`.
- A row's `state` column holds the raw stored integer, so a row that
  does not decode can be represented.
- `String` is `seq<char>`.
- SQLite's default text order (BINARY collation) is code-point
  lexicographic order, `Strings.TextLe`.
- `toIntOrNull` and `Int.toString` are written out: an optional sign,
  decimal digits, and the 32-bit range.
- `isBlank` is written out with Kotlin's whitespace set.

Ids: the store starts with an existing table (the bundled seed data)
whose ids are distinct. Each insert takes the next unused id, one past
the largest id ever handed out, so ids are never reused after a delete.

The code issues only `ORDER BY priority DESC` or `ORDER BY enddate ASC`,
and SQL leaves tie order open. So each listing is a sorted permutation
of the matching rows, not a stable sort. Only with no ORDER BY is the
table's own order promised.

## Model

| member | source | states |
|---|---|---|
| TaskData.StatusCodes | app/src/main/java/com/example/a9todoapp/database/dataclass/TaskDataClass.kt:4-6 | `OPEN` has code 0 and `COMPLETED` has code 1 |
| TaskData.FirstWithValue | app/src/main/java/com/example/a9todoapp/database/dataclass/TaskDataClass.kt:12 | `entries.firstOrNull`: a found status is an entry with the code asked for; none is found exactly when no entry has that code |
| TaskData.FromInt | app/src/main/java/com/example/a9todoapp/database/dataclass/TaskDataClass.kt:10-14 | success carries a status whose code is the argument; failure is `UnknownTaskStatus(v)`, and no status has code v |
| TaskData.FromIntRoundTrip | app/src/main/java/com/example/a9todoapp/database/dataclass/TaskDataClass.kt:10-13 | `fromInt(s.value) == s` for each status |
| TaskData.FromIntDefinedOn | app/src/main/java/com/example/a9todoapp/database/dataclass/TaskDataClass.kt:12-13 | `fromInt(v)` succeeds exactly for v = 0 and v = 1, with no default |
| TaskData.ValueInjective | app/src/main/java/com/example/a9todoapp/database/dataclass/TaskDataClass.kt:4-13 | two statuses with the same code are the same status |
| TaskData.TaskEquality | app/src/main/java/com/example/a9todoapp/database/dataclass/TaskDataClass.kt:19-26 | two tasks are equal exactly when all six fields are equal |
| TaskTable.Decode | app/src/main/java/com/example/a9todoapp/database/controller/ToDoController.kt:34-41 | reading a row into a task: the result is stored as that very row; a bad code fails with `UnknownTaskStatus` of that code, and no task is stored as such a row |
| TaskTable.DecodeEncode | app/src/main/java/com/example/a9todoapp/database/controller/ToDoController.kt:133-139 | a task written with its status code reads back as the same task |
| TaskTable.Encode | app/src/main/java/com/example/a9todoapp/database/controller/ToDoController.kt:133-139 | the stored code decodes back to the task's status, and the row reads back as the task |
| TaskTable.RowTask | app/src/main/java/com/example/a9todoapp/database/controller/ToDoController.kt:34-41 | the column reads: a row with a known status becomes the task with that row's id, name, priority, end date and description |
| TaskTable.RowsWithState | app/src/main/java/com/example/a9todoapp/database/controller/ToDoController.kt:26-28 | `WHERE state = ?` keeps exactly the rows with that code |
| TaskTable.AsTasks | app/src/main/java/com/example/a9todoapp/database/controller/ToDoController.kt:31-43 | reading rows of one status gives one task per row, in order, each stored as its row |
| TaskTable.TasksInState | app/src/main/java/com/example/a9todoapp/database/controller/ToDoController.kt:26-43 | the tasks of a status in table order are exactly the stored tasks of that status |
| TaskTable.AsTasksCount | app/src/main/java/com/example/a9todoapp/database/controller/ToDoController.kt:31-43 | a task occurs among read-back rows exactly as often as the row it is stored as |
| TaskTable.AsTasksPermutation | app/src/main/java/com/example/a9todoapp/database/controller/ToDoController.kt:26-43 | reading back two orderings of the same rows gives two orderings of the same tasks |
| TaskTable.TasksInStateOnce | app/src/main/java/com/example/a9todoapp/database/controller/ToDoController.kt:26-43 | with distinct ids, each stored task of the status is listed once and no other task is listed |
| TaskTable.InOrderTotal | app/src/main/java/com/example/a9todoapp/database/controller/ToDoController.kt:19-23 | any two rows can be put in some order under each sort key |
| TaskTable.InOrderTransitive | app/src/main/java/com/example/a9todoapp/database/controller/ToDoController.kt:19-23 | the order of each sort key is transitive |
| TaskTable.InsertRowSorted | app/src/main/java/com/example/a9todoapp/database/controller/ToDoController.kt:19-23 | placing a row into a sorted sequence keeps it sorted |
| TaskTable.SortRows | app/src/main/java/com/example/a9todoapp/database/controller/ToDoController.kt:19-27 | the rows come out sorted, as a permutation of the input |
| TaskTable.OrderBy | app/src/main/java/com/example/a9todoapp/database/controller/ToDoController.kt:19-27 | `ORDER BY priority DESC` gives each priority >= the next; `ORDER BY enddate ASC` gives end dates in non-decreasing text order; both give a permutation; with no clause the rows keep table order |
| Strings.EmptyTextFirst | app/src/main/java/com/example/a9todoapp/database/controller/ToDoController.kt:21 | the empty end date sorts before any other end date |
| Strings.TextLe | app/src/main/java/com/example/a9todoapp/database/controller/ToDoController.kt:21 | a text sorts at or before every text it is a prefix of |
| Strings.TextLeFirstDifference | app/src/main/java/com/example/a9todoapp/database/controller/ToDoController.kt:21 | past a common part, the first differing character decides the order |
| Strings.TextLeTotal | app/src/main/java/com/example/a9todoapp/database/controller/ToDoController.kt:21 | text order is total |
| Strings.TextLeTransitive | app/src/main/java/com/example/a9todoapp/database/controller/ToDoController.kt:21 | text order is transitive |
| Strings.TextLeAntisymmetric | app/src/main/java/com/example/a9todoapp/database/controller/ToDoController.kt:21 | two texts ordered both ways are equal |
| TaskTable.FindById | app/src/main/java/com/example/a9todoapp/database/controller/ToDoController.kt:184-198 | `moveToFirst` on `WHERE id = ?`: a found row has that id and is in the table; nothing is found exactly when no row has that id |
| TaskTable.CountWithId | app/src/main/java/com/example/a9todoapp/database/controller/ToDoController.kt:96-103 | the affected-row count of a write by id is 0 exactly when no row has that id |
| TaskTable.SetStateWhere | app/src/main/java/com/example/a9todoapp/database/controller/ToDoController.kt:92-101 | only the `state` of the row with that id changes; every other row and field is unchanged |
| TaskTable.ReplaceWhere | app/src/main/java/com/example/a9todoapp/database/controller/ToDoController.kt:153-160 | the row with `t.id` gets t's five other fields; all other rows are unchanged |
| TaskTable.DeleteKeepsOrder | app/src/main/java/com/example/a9todoapp/database/controller/ToDoController.kt:172 | the rows left after a delete are a subsequence of the table in table order, one for every row whose id differs |
| TaskTable.DeleteWhere | app/src/main/java/com/example/a9todoapp/database/controller/ToDoController.kt:172 | exactly the rows with that id are removed; with no such row the table is unchanged |
| TaskTable.WritesWithoutMatch | app/src/main/java/com/example/a9todoapp/database/controller/ToDoController.kt:160-162 | an update that matches no id leaves the table as it was |
| TaskTable.UpdatesKeepDistinctIds | app/src/main/java/com/example/a9todoapp/database/controller/ToDoController.kt:96-101 | updates by id keep ids distinct |
| TaskTable.DeleteKeepsDistinctIds | app/src/main/java/com/example/a9todoapp/database/controller/ToDoController.kt:172 | a delete keeps ids distinct |
| TaskTable.DeleteTwice | app/src/main/java/com/example/a9todoapp/database/controller/ToDoController.kt:172-173 | a second delete of the same id finds no row, so it reports nothing affected and changes nothing |
| TaskTable.FindAfterInsert | app/src/main/java/com/example/a9todoapp/database/controller/ToDoController.kt:133-141 | after appending a row with a fresh id, looking up that id finds it; other lookups are unchanged |
| TaskTable.FindAfterSetState | app/src/main/java/com/example/a9todoapp/database/controller/ToDoController.kt:92-103 | after a status update, that id reads back with the new code and nothing else of it changed |
| TaskTable.FindAfterReplace | app/src/main/java/com/example/a9todoapp/database/controller/ToDoController.kt:153-162 | after a full update, that id reads back as the new record; other lookups are unchanged |
| TaskTable.FindAfterDelete | app/src/main/java/com/example/a9todoapp/database/controller/ToDoController.kt:172-173 | after a delete, that id is gone; other lookups are unchanged |
| Controller.SortOrderFor | app/src/main/java/com/example/a9todoapp/database/controller/ToDoController.kt:19-23 | "priority" selects descending priority, "endDate" ascending end date, and every other key no ordering |
| Controller.ListingContents | app/src/main/java/com/example/a9todoapp/database/controller/ToDoController.kt:26-43 | a listing holds exactly the stored tasks of its status, each once |
| Controller.Cursor | app/src/main/java/com/example/a9todoapp/database/controller/ToDoController.kt:26-28 | the cursor visits only rows with the queried code |
| Controller.CursorListing | app/src/main/java/com/example/a9todoapp/database/controller/ToDoController.kt:19-43 | reading every cursor row into a task gives a listing |
| Controller.MaxId | app/src/main/java/com/example/a9todoapp/database/controller/ToDoController.kt:140 | max(0, largest stored id): it bounds every stored id, and it is 0 or one of the ids |
| Controller.InsertThenLookup | app/src/main/java/com/example/a9todoapp/database/controller/ToDoController.kt:133-141 | a task inserted under a fresh id is what a lookup of that id reads back |
| Controller.ToDoController.constructor | app/src/main/java/com/example/a9todoapp/database/controller/ToDoController.kt:10-11 | the store opens on the existing table |
| Controller.ToDoController.SelectTasks | app/src/main/java/com/example/a9todoapp/database/controller/ToDoController.kt:14-50 | the cursor loop returns a listing: the tasks of the status, sorted as the key asks |
| Controller.ToDoController.GetAllActiveTasks | app/src/main/java/com/example/a9todoapp/database/controller/ToDoController.kt:14-50 | exactly the stored open tasks, each once, ordered as `sortBy` asks |
| Controller.ToDoController.GetAllCompletedTasks | app/src/main/java/com/example/a9todoapp/database/controller/ToDoController.kt:53-87 | exactly the stored completed tasks, each once, ordered as `sortBy` asks |
| Controller.ToDoController.SetState | app/src/main/java/com/example/a9todoapp/database/controller/ToDoController.kt:90-127 | only the state of the row with that id changes; the result is true exactly when such a row exists |
| Controller.ToDoController.MarkTaskAsCompleted | app/src/main/java/com/example/a9todoapp/database/controller/ToDoController.kt:90-107 | sets that row's state to `COMPLETED`; true exactly when the row exists |
| Controller.ToDoController.MarkTaskAsIncomplete | app/src/main/java/com/example/a9todoapp/database/controller/ToDoController.kt:110-127 | sets that row's state to `OPEN`; true exactly when the row exists |
| Controller.ToDoController.InsertTask | app/src/main/java/com/example/a9todoapp/database/controller/ToDoController.kt:130-147 | appends one row with the task's other five fields and an id no row has; existing rows are unchanged; `task.id` is ignored |
| Controller.ToDoController.UpdateTask | app/src/main/java/com/example/a9todoapp/database/controller/ToDoController.kt:150-166 | replaces the five non-id fields of the row with `task.id`; gives false and changes nothing when there is no such row |
| Controller.ToDoController.DeleteTask | app/src/main/java/com/example/a9todoapp/database/controller/ToDoController.kt:169-179 | removes the row with that id and no other; true exactly when one existed |
| Controller.ToDoController.GetTaskById | app/src/main/java/com/example/a9todoapp/database/controller/ToDoController.kt:182-204 | the row with that id read into a task, or null when there is none; a bad stored code escapes as an error; the table is not changed |
| DashboardScreen.KeepCount | app/src/main/java/com/example/a9todoapp/ui/screen/Dashboard.kt:152 | the filter keeps every task that matches, as often as it occurs, and nothing else |
| DashboardScreen.KeepMembers | app/src/main/java/com/example/a9todoapp/ui/screen/Dashboard.kt:152 | the filter keeps exactly the tasks that pass it |
| DashboardScreen.Matches | app/src/main/java/com/example/a9todoapp/ui/screen/Dashboard.kt:152 | `filter == null` or `it.state == filter`: every task passes no filter, and only tasks of that status pass a status filter |
| DashboardScreen.Keep | app/src/main/java/com/example/a9todoapp/ui/screen/Dashboard.kt:152 | `filter { … }`: the passing tasks in their order; its properties are the `Keep…` lemmas |
| DashboardScreen.FilteredTasks | app/src/main/java/com/example/a9todoapp/ui/screen/Dashboard.kt:151-152 | the shown list holds exactly the tasks of either list that pass the filter |
| DashboardScreen.KeepAppend | app/src/main/java/com/example/a9todoapp/ui/screen/Dashboard.kt:151-152 | filtering a concatenation filters each part |
| DashboardScreen.KeepEvery | app/src/main/java/com/example/a9todoapp/ui/screen/Dashboard.kt:152 | a filter that every task passes keeps the list as it is |
| DashboardScreen.KeepNone | app/src/main/java/com/example/a9todoapp/ui/screen/Dashboard.kt:152 | a filter that no task passes gives an empty list |
| DashboardScreen.FilteredByStatus | app/src/main/java/com/example/a9todoapp/ui/screen/Dashboard.kt:151-152 | with no filter, the open list followed by the completed list; with a status, exactly that status's list, in its order |
| DashboardScreen.OpenShownFirst | app/src/main/java/com/example/a9todoapp/ui/screen/Dashboard.kt:151-152 | no shown completed task comes before a shown open task |
| DashboardScreen.ShownAreStored | app/src/main/java/com/example/a9todoapp/ui/screen/Dashboard.kt:151-152 | with fresh lists, each stored task that passes the filter is shown once, and nothing else is shown |
| DashboardScreen.ShownIdsDistinct | app/src/main/java/com/example/a9todoapp/ui/screen/Dashboard.kt:151-157 | with fresh lists and distinct stored ids, no two shown cards carry the same id |
| DashboardScreen.Dashboard.ShownTasks | app/src/main/java/com/example/a9todoapp/ui/screen/Dashboard.kt:151-152 | the shown cards are the filter's cases above, with open before completed |
| DashboardScreen.Dashboard.constructor | app/src/main/java/com/example/a9todoapp/ui/screen/Dashboard.kt:37-42 | both lists start as listings by "priority"; nothing is filtered or expanded |
| DashboardScreen.Dashboard.RefreshTasks | app/src/main/java/com/example/a9todoapp/ui/screen/Dashboard.kt:45-48 | both lists are re-read with the current `sortBy` |
| DashboardScreen.Dashboard.OnSelectSortOption | app/src/main/java/com/example/a9todoapp/ui/screen/Dashboard.kt:92-95 | sets `sortBy`, then both lists are listings for it |
| DashboardScreen.Dashboard.OnSelectFilter | app/src/main/java/com/example/a9todoapp/ui/screen/Dashboard.kt:106-125 | "All", "Open" or "Completed" sets the filter to none, `OPEN` or `COMPLETED` |
| DashboardScreen.Dashboard.OnExpand | app/src/main/java/com/example/a9todoapp/ui/screen/Dashboard.kt:159 | the clicked card collapses if it was expanded and is expanded otherwise, by setting or clearing the one expanded id |
| DashboardScreen.Dashboard.IsExpanded | app/src/main/java/com/example/a9todoapp/ui/screen/Dashboard.kt:157 | `isExpanded = task.id == expandedTaskId`: a card is drawn expanded exactly when its id is the expanded one |
| DashboardScreen.Dashboard.AtMostOneExpanded | app/src/main/java/com/example/a9todoapp/ui/screen/Dashboard.kt:157 | with fresh lists, at most one shown card has `task.id == expandedTaskId` |
| DashboardScreen.Dashboard.OnDelete | app/src/main/java/com/example/a9todoapp/ui/screen/Dashboard.kt:164-169 | deletes through the store; the lists are re-read when a row was deleted and are unchanged otherwise |
| DashboardScreen.Dashboard.OnToggleCompletion | app/src/main/java/com/example/a9todoapp/ui/screen/Dashboard.kt:170-179 | checking marks the task completed and unchecking marks it open, for the same id; the lists are re-read only when a row was updated |
| TaskForm.AcceptPriorityEdit | app/src/main/java/com/example/a9todoapp/ui/screen/AddTaskScreen.kt:42 | a priority edit is taken when every character is a digit; otherwise the field keeps its old text |
| Strings.AllDigits | app/src/main/java/com/example/a9todoapp/ui/screen/AddTaskScreen.kt:42 | `it.all { char -> char.isDigit() }`: every character is an ASCII digit |
| TaskForm.PriorityFieldStaysDigits | app/src/main/java/com/example/a9todoapp/ui/screen/AddTaskScreen.kt:42 | a digits-only field stays digits-only whatever is typed |
| TaskForm.Validate | app/src/main/java/com/example/a9todoapp/ui/screen/AddTaskScreen.kt:83-91 | a priority that does not parse gives "Priority must be a valid number." whatever the name; then a blank name gives "Task name cannot be empty."; otherwise the parsed priority |
| Strings.IsBlank | app/src/main/java/com/example/a9todoapp/ui/screen/AddTaskScreen.kt:88 | `isBlank`: the text is empty or made only of Kotlin whitespace |
| TaskForm.DigitPriorityRejected | app/src/main/java/com/example/a9todoapp/ui/screen/AddTaskScreen.kt:83-86 | on a digits-only field, the priority error occurs exactly for the empty text and for numbers beyond Int's range |
| Strings.ParseIntRoundTrip | app/src/main/java/com/example/a9todoapp/ui/screen/EditTaskScreen.kt:36 | `toIntOrNull` of `Int.toString` gives the number back |
| Strings.ParseInt | app/src/main/java/com/example/a9todoapp/ui/screen/AddTaskScreen.kt:83 | `toIntOrNull` succeeds exactly on an optional sign followed by at least one digit whose value fits in an Int, and gives that value |
| Strings.IntToString | app/src/main/java/com/example/a9todoapp/ui/screen/EditTaskScreen.kt:36 | `Int.toString` in canonical form: a '-' exactly for negative numbers, never a '+', then at least one digit with no leading zero ("0" for 0), denoting the number |
| Strings.ParseIntDigits | app/src/main/java/com/example/a9todoapp/ui/screen/AddTaskScreen.kt:83 | a non-empty digit string parses exactly when its value fits in an Int |
| AddTask.NewTask | app/src/main/java/com/example/a9todoapp/ui/screen/AddTaskScreen.kt:94 | a valid form gives a record with id 0, `OPEN`, the entered name, description and end date, and the parsed priority; an invalid form gives the validation error |
| AddTask.InitialPriorityValid | app/src/main/java/com/example/a9todoapp/ui/screen/AddTaskScreen.kt:25 | the initial priority "1" parses as 1 |
| AddTask.AddTaskScreen.constructor | app/src/main/java/com/example/a9todoapp/ui/screen/AddTaskScreen.kt:24-28 | the priority field starts as "1" and every other field as "" |
| AddTask.AddTaskScreen.OnTaskNameChange | app/src/main/java/com/example/a9todoapp/ui/screen/AddTaskScreen.kt:35 | the name field takes the new text |
| AddTask.AddTaskScreen.OnTaskPriorityChange | app/src/main/java/com/example/a9todoapp/ui/screen/AddTaskScreen.kt:42 | the priority field takes only digits-only edits |
| AddTask.AddTaskScreen.OnTaskDescriptionChange | app/src/main/java/com/example/a9todoapp/ui/screen/AddTaskScreen.kt:68 | the description field takes the new text |
| AddTask.AddTaskScreen.OnDateSelected | app/src/main/java/com/example/a9todoapp/ui/screen/AddTaskScreen.kt:57-59 | the end date becomes the picker's formatted date |
| AddTask.AddTaskScreen.OnAddTaskClicked | app/src/main/java/com/example/a9todoapp/ui/screen/AddTaskScreen.kt:81-98 | an invalid form sets the error and inserts nothing; a valid one inserts the new record; `onTaskAdded` runs exactly when the insert succeeded |
| EditTask.InitialFields | app/src/main/java/com/example/a9todoapp/ui/screen/EditTaskScreen.kt:32-38 | the fields come from the looked-up task (its priority as `Int.toString`'s text), or "" each when it is missing |
| EditTask.UpdatedTask | app/src/main/java/com/example/a9todoapp/ui/screen/EditTaskScreen.kt:110-128 | a valid form gives the entered fields with the original task's id and status, or 0 and `OPEN` when there was none |
| EditTask.UntouchedSaveKeepsTask | app/src/main/java/com/example/a9todoapp/ui/screen/EditTaskScreen.kt:110-128 | saving an untouched form with a non-blank name rewrites the task as it was |
| EditTask.UntouchedMissingTaskRejected | app/src/main/java/com/example/a9todoapp/ui/screen/EditTaskScreen.kt:110-113 | a screen opened on a missing task, saved untouched, fails on the priority check |
| EditTask.FormatDateShape | app/src/main/java/com/example/a9todoapp/ui/screen/EditTaskScreen.kt:149 | for picker-range dates (year 0..9999, month below 99, day below 100), the date text is 10 characters, `YYYY-MM-DD`, with the year, month + 1 and day as its digit groups |
| EditTask.FormatDate | app/src/main/java/com/example/a9todoapp/ui/screen/EditTaskScreen.kt:149 | the date text is at least 10 characters; for picker-range dates it is exactly 10, with '-' at positions 4 and 7 |
| Int32.Wrap | app/src/main/java/com/example/a9todoapp/ui/screen/EditTaskScreen.kt:149 | `month + 1` as a 32-bit addition: the true sum when it fits, otherwise the sum wrapped modulo 2^32 |
| Strings.FormatPadded | app/src/main/java/com/example/a9todoapp/ui/screen/EditTaskScreen.kt:149 | `%0Nd`: at least N characters, a '-' exactly for negative numbers, then digits denoting the absolute value, zero-padded only as far as the width asks |
| EditTask.FormatDateOrder | app/src/main/java/com/example/a9todoapp/ui/screen/EditTaskScreen.kt:149 | for those years, date texts in text order are exactly dates in calendar order |
| EditTask.EditTaskScreen.constructor | app/src/main/java/com/example/a9todoapp/ui/screen/EditTaskScreen.kt:35-39 | the fields start from the initial values for the looked-up task; no error is shown |
| EditTask.EditTaskScreen.OnTaskNameChange | app/src/main/java/com/example/a9todoapp/ui/screen/EditTaskScreen.kt:49 | the name field takes the new text |
| EditTask.EditTaskScreen.OnTaskPriorityChange | app/src/main/java/com/example/a9todoapp/ui/screen/EditTaskScreen.kt:57 | the priority field takes only digits-only edits |
| EditTask.EditTaskScreen.OnTaskDescriptionChange | app/src/main/java/com/example/a9todoapp/ui/screen/EditTaskScreen.kt:95 | the description field takes the new text |
| EditTask.EditTaskScreen.OnDateSelected | app/src/main/java/com/example/a9todoapp/ui/screen/EditTaskScreen.kt:82-84 | the end date becomes the picker's formatted date |
| EditTask.EditTaskScreen.OnSaveClicked | app/src/main/java/com/example/a9todoapp/ui/screen/EditTaskScreen.kt:108-137 | an invalid form sets the error and changes nothing; a valid one updates the row; the screen goes back exactly when the update hit a row |
| EditTask.OpenEditTaskScreen | app/src/main/java/com/example/a9todoapp/ui/screen/EditTaskScreen.kt:27-39 | the lookup's error escapes before the screen exists; otherwise the screen holds the task read for that id, or none, its fields are `InitialFields` of that task and no error is shown |

## Left out

- The SQLite engine, cursors, `ContentValues`, and closing the cursor and database. The table is a sequence of rows, and each SQL statement is a function on it.
- The `catch (e: Exception) { false }` around each write. Storage failures are not modelled, so false means only "no row affected".
- Controller.ToDoController.InsertTask: the schema is not part of this model. The id policy is an assumption: the next id is one past the largest ever handed out, a deleted id is never reused, and the insert fails once ids would pass Int's maximum. In the source, `db.insert` returns -1 only on a storage error.
- `DbHelper` (copying the database from assets, recopying it on upgrade, logging) is file I/O and is not part of this model. MainActivity's navigation graph and route parsing are not part of it either.
- Compose rendering, `Toast`, `AlertDialog`, `DropdownMenu`, `DatePickerDialog` and `Calendar.getInstance()`. The picked year, month and day are parameters. The `isDialogOpen` flag only shows or hides the dialog, so it is left out.
- TaskForm.AcceptPriorityEdit: `Char.isDigit` is modelled on the ASCII digits only. Unicode digits from other scripts, which Kotlin also accepts, are out of scope.
- Strings.AllDigits: `Char.isDigit` is taken as the ASCII digits '0'..'9' only; the keystroke filter on both screens rests on it.
- Strings.ParseInt: `toIntOrNull` is modelled on ASCII digits only, for the same reason.
- EditTask.FormatDate: `String.format` uses the device's default locale, and Java's formatter writes digits relative to that locale's zero digit (Arabic-Indic digits under an Arabic locale, for example). The model assumes a default locale whose zero digit is '0', so it always writes ASCII digits; `FormatDateShape` and `FormatDateOrder` rest on that.
- TaskTable.OrderBy: ties are put in a fixed order, but the contract promises only a sorted permutation, because SQL does not fix tie order. With no ORDER BY clause, the model serves rows in table order; SQLite does not promise this either.
- NULL columns. `Row` cannot hold NULL, so every column is assumed non-NULL. On a NULL column the cursor reads in `ToDoController.kt` behave differently: `getString` hands null to a non-null `String` parameter, which throws, and `getInt` reads 0. The app itself never writes NULL, but the bundled database is not part of this model.
- Concurrency and lost updates. The source is single-threaded UI code.
- Kotlin's `IllegalArgumentException` from `fromInt` is a `Failure(UnknownTaskStatus(v))` value. SelectTasks cannot meet one, because its rows are filtered on a valid code.
