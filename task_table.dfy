/** The `tasks` table as a sequence of rows, and the SQL statements the
    controller issues against it, each stated as a function on rows. */
module TaskTable {
  import opened Wrappers
  import opened Int32
  import opened Strings
  import opened TaskData

  /** One row of `tasks`: the columns the controller reads; `state`
      holds the stored integer code, which nothing forces to be 0 or 1. */
  datatype Row = Row(
    id: int32,
    name: string,
    priority: int32,
    endDate: string,
    description: string,
    state: int32)

  /** The task a row reads back as once its status is known. */
  function RowTask(r: Row, s: TaskStatus): Task {
    Task(r.id, r.description, r.priority, r.endDate, s, r.name)
  }

  /** The row a task is stored as: its status code decodes back to its
      status, and the row reads back as the task. */
  function Encode(t: Task): (r: Row)
    ensures FromInt(r.state) == Success(t.state)
    ensures RowTask(r, t.state) == t
  {
    FromIntRoundTrip(t.state);
    Row(t.id, t.name, t.priority, t.endDate, t.description, t.state.Value())
  }

  /** Reading a row into a task; the status code goes through `FromInt`,
      whose error escapes. */
  function Decode(r: Row): (res: Result<Task, DecodeError>)
    ensures res.Success? ==> Encode(res.value) == r
    ensures res.Failure? ==> res.error == UnknownTaskStatus(r.state) && forall t :: Encode(t) != r
  {
    match FromInt(r.state)
    case Success(s) => Success(RowTask(r, s))
    case Failure(e) => Failure(e)
  }

  /** Writing a task and reading it back gives the same task. */
  lemma DecodeEncode(t: Task)
    ensures Decode(Encode(t)) == Success(t)
  {
    FromIntRoundTrip(t.state);
  }

  /** The primary-key property of `id`. */
  ghost predicate DistinctIds(rows: seq<Row>) {
    forall i, j :: 0 <= i < j < |rows| ==> rows[i].id != rows[j].id
  }

  ghost predicate NoRowWithId(rows: seq<Row>, id: int) {
    forall x :: x in rows ==> x.id != id
  }

  // ---------------------------------------------------------------------
  // SELECT * FROM tasks WHERE state = ?
  // ---------------------------------------------------------------------

  /** The rows whose state code is `code`, in table order. */
  function RowsWithState(rows: seq<Row>, code: int32): (r: seq<Row>)
    ensures forall x :: x in r <==> x in rows && x.state == code
    ensures |r| <= |rows|
  {
    if rows == [] then []
    else (if rows[0].state == code then [rows[0]] else []) + RowsWithState(rows[1..], code)
  }

  /** Rows all of status `s`, read back as tasks, in the same order. */
  function AsTasks(rs: seq<Row>, s: TaskStatus): (ts: seq<Task>)
    requires forall x :: x in rs ==> x.state == s.Value()
    ensures |ts| == |rs|
    ensures forall k :: 0 <= k < |rs| ==> ts[k] == RowTask(rs[k], s)
    ensures forall t :: t in ts <==> t.state == s && Encode(t) in rs
  {
    if rs == [] then []
    else
      assert Encode(RowTask(rs[0], s)) == rs[0];
      [RowTask(rs[0], s)] + AsTasks(rs[1..], s)
  }

  /** The tasks of status `s` in table order: what `WHERE state = ?`
      returns when no ORDER BY is given. */
  function TasksInState(rows: seq<Row>, s: TaskStatus): (ts: seq<Task>)
    ensures forall t :: t in ts <==> t.state == s && Encode(t) in rows
  {
    AsTasks(RowsWithState(rows, s.Value()), s)
  }

  lemma {:induction false} AsTasksAppend(a: seq<Row>, b: seq<Row>, s: TaskStatus)
    requires forall x :: x in a + b ==> x.state == s.Value()
    ensures AsTasks(a + b, s) == AsTasks(a, s) + AsTasks(b, s)
    decreases |a|
  {
    if a != [] {
      assert (a + b)[1..] == a[1..] + b;
      AsTasksAppend(a[1..], b, s);
    } else {
      assert a + b == b;
    }
  }

  /** How often a task occurs among rows read back as tasks: as often as
      the row it is stored as. */
  lemma {:induction false} AsTasksCount(rs: seq<Row>, s: TaskStatus, t: Task)
    requires forall x :: x in rs ==> x.state == s.Value()
    ensures multiset(AsTasks(rs, s))[t] == if t.state == s then multiset(rs)[Encode(t)] else 0
    decreases |rs|
  {
    if rs != [] {
      assert rs == [rs[0]] + rs[1..];
      AsTasksCount(rs[1..], s, t);
      assert RowTask(rs[0], s) == t <==> t.state == s && Encode(t) == rs[0];
    }
  }

  /** Reading back two orderings of the same rows gives two orderings of
      the same tasks. */
  lemma AsTasksPermutation(a: seq<Row>, b: seq<Row>, s: TaskStatus)
    requires forall x :: x in a ==> x.state == s.Value()
    requires multiset(a) == multiset(b)
    ensures forall x :: x in b ==> x.state == s.Value()
    ensures multiset(AsTasks(a, s)) == multiset(AsTasks(b, s))
  {
    assert forall x :: x in b ==> x in multiset(b);
    forall t ensures multiset(AsTasks(a, s))[t] == multiset(AsTasks(b, s))[t] {
      AsTasksCount(a, s, t);
      AsTasksCount(b, s, t);
    }
  }

  /** The first row of `TasksInState`, then the rest of the table. */
  lemma TasksInStateUnfold(rows: seq<Row>, s: TaskStatus)
    requires rows != []
    ensures TasksInState(rows, s) ==
      (if rows[0].state == s.Value() then [RowTask(rows[0], s)] else []) + TasksInState(rows[1..], s)
  {
    var head := if rows[0].state == s.Value() then [rows[0]] else [];
    AsTasksAppend(head, RowsWithState(rows[1..], s.Value()), s);
  }

  /** With distinct ids, each stored task of status `s` is listed exactly
      once and nothing else is listed. */
  lemma {:induction false} TasksInStateOnce(rows: seq<Row>, s: TaskStatus, t: Task)
    requires DistinctIds(rows)
    ensures multiset(TasksInState(rows, s))[t] == if t.state == s && Encode(t) in rows then 1 else 0
    decreases |rows|
  {
    if rows != [] {
      TasksInStateUnfold(rows, s);
      assert DistinctIds(rows[1..]);
      TasksInStateOnce(rows[1..], s, t);
      assert rows == [rows[0]] + rows[1..];
      if Encode(t) == rows[0] {
        assert Encode(t) !in rows[1..];
      }
    }
  }

  // ---------------------------------------------------------------------
  // ORDER BY
  // ---------------------------------------------------------------------

  /** The ORDER BY clause of a listing query. */
  datatype SortOrder = PriorityDesc | EndDateAsc | Unsorted

  /** A row with these priority and end date may precede one with the
      other two in the given order. */
  predicate InOrder(order: SortOrder, p1: int32, d1: string, p2: int32, d2: string) {
    match order
    case PriorityDesc => p1 >= p2
    case EndDateAsc => TextLe(d1, d2)
    case Unsorted => true
  }

  ghost predicate RowsSorted(order: SortOrder, rs: seq<Row>) {
    forall i, j :: 0 <= i < j < |rs| ==>
      InOrder(order, rs[i].priority, rs[i].endDate, rs[j].priority, rs[j].endDate)
  }

  ghost predicate TasksSorted(order: SortOrder, ts: seq<Task>) {
    forall i, j :: 0 <= i < j < |ts| ==>
      InOrder(order, ts[i].priority, ts[i].endDate, ts[j].priority, ts[j].endDate)
  }

  lemma InOrderTotal(order: SortOrder, a: Row, b: Row)
    ensures InOrder(order, a.priority, a.endDate, b.priority, b.endDate)
         || InOrder(order, b.priority, b.endDate, a.priority, a.endDate)
  {
    TextLeTotal(a.endDate, b.endDate);
  }

  lemma InOrderTransitive(order: SortOrder, a: Row, b: Row, c: Row)
    requires InOrder(order, a.priority, a.endDate, b.priority, b.endDate)
    requires InOrder(order, b.priority, b.endDate, c.priority, c.endDate)
    ensures InOrder(order, a.priority, a.endDate, c.priority, c.endDate)
  {
    if order == EndDateAsc {
      TextLeTransitive(a.endDate, b.endDate, c.endDate);
    }
  }

  /** `s` with `x` placed before the first row it may precede. */
  function InsertRow(order: SortOrder, x: Row, s: seq<Row>): (r: seq<Row>)
    ensures |r| == |s| + 1 && multiset(r) == multiset(s) + multiset{x}
  {
    if s == [] then [x]
    else if InOrder(order, x.priority, x.endDate, s[0].priority, s[0].endDate) then [x] + s
    else
      assert s == [s[0]] + s[1..];
      [s[0]] + InsertRow(order, x, s[1..])
  }

  /** A row that may precede every row of a sorted sequence can head it. */
  lemma SortedCons(order: SortOrder, x: Row, s: seq<Row>)
    requires RowsSorted(order, s)
    requires forall j :: 0 <= j < |s| ==> InOrder(order, x.priority, x.endDate, s[j].priority, s[j].endDate)
    ensures RowsSorted(order, [x] + s)
  {
    var r := [x] + s;
    forall i, j | 0 <= i < j < |r|
      ensures InOrder(order, r[i].priority, r[i].endDate, r[j].priority, r[j].endDate)
    {
      assert r[j] == s[j - 1];
      if i > 0 { assert r[i] == s[i - 1]; }
    }
  }

  lemma {:induction false} InsertRowSorted(order: SortOrder, x: Row, s: seq<Row>)
    requires RowsSorted(order, s)
    ensures RowsSorted(order, InsertRow(order, x, s))
    decreases |s|
  {
    if s == [] {
    } else if InOrder(order, x.priority, x.endDate, s[0].priority, s[0].endDate) {
      forall j | 0 <= j < |s|
        ensures InOrder(order, x.priority, x.endDate, s[j].priority, s[j].endDate)
      {
        if j > 0 { InOrderTransitive(order, x, s[0], s[j]); }
      }
      SortedCons(order, x, s);
    } else {
      InOrderTotal(order, x, s[0]);
      var tail := InsertRow(order, x, s[1..]);
      InsertRowSorted(order, x, s[1..]);
      assert RowsSorted(order, s[1..]);
      forall j | 0 <= j < |tail|
        ensures InOrder(order, s[0].priority, s[0].endDate, tail[j].priority, tail[j].endDate)
      {
        assert tail[j] in multiset(tail);
        if tail[j] != x {
          assert tail[j] in multiset(s[1..]);
          var k :| 0 <= k < |s[1..]| && s[1..][k] == tail[j];
          assert s[k + 1] == tail[j];
        }
      }
      SortedCons(order, s[0], tail);
    }
  }

  /** Insertion sort: each row goes into the sorted rest. */
  function SortRows(order: SortOrder, s: seq<Row>): (r: seq<Row>)
    ensures multiset(r) == multiset(s)
    ensures RowsSorted(order, r)
  {
    if s == [] then []
    else
      assert s == [s[0]] + s[1..];
      var rest := SortRows(order, s[1..]);
      InsertRowSorted(order, s[0], rest);
      InsertRow(order, s[0], rest)
  }

  /** The rows as the ORDER BY clause delivers them: sorted, and a
      permutation of the input; without ORDER BY, in table order. */
  function OrderBy(order: SortOrder, rows: seq<Row>): (r: seq<Row>)
    ensures multiset(r) == multiset(rows) && |r| == |rows|
    ensures RowsSorted(order, r)
    ensures order == Unsorted ==> r == rows
  {
    assert |multiset(rows)| == |rows|;
    if order == Unsorted then rows else SortRows(order, rows)
  }

  // ---------------------------------------------------------------------
  // SELECT * FROM tasks WHERE id = ?, and the number of rows a write affects
  // ---------------------------------------------------------------------

  /** The first row with that id, as `moveToFirst` reads it. */
  function FindById(rows: seq<Row>, id: int32): (r: Option<Row>)
    ensures r.Some? ==> r.value in rows && r.value.id == id
    ensures r.None? <==> NoRowWithId(rows, id)
  {
    if rows == [] then None
    else if rows[0].id == id then Some(rows[0])
    else FindById(rows[1..], id)
  }

  /** How many rows a statement with `WHERE id = ?` touches. */
  function CountWithId(rows: seq<Row>, id: int32): (n: nat)
    ensures n == 0 <==> NoRowWithId(rows, id)
    ensures n <= |rows|
  {
    if rows == [] then 0
    else (if rows[0].id == id then 1 else 0) + CountWithId(rows[1..], id)
  }

  // ---------------------------------------------------------------------
  // UPDATE and DELETE by id
  // ---------------------------------------------------------------------

  /** UPDATE tasks SET state = ? WHERE id = ? */
  function SetStateWhere(rows: seq<Row>, id: int32, code: int32): (r: seq<Row>)
    ensures |r| == |rows|
    ensures forall k :: 0 <= k < |rows| ==>
      r[k] == if rows[k].id == id then rows[k].(state := code) else rows[k]
  {
    if rows == [] then []
    else [if rows[0].id == id then rows[0].(state := code) else rows[0]] + SetStateWhere(rows[1..], id, code)
  }

  /** UPDATE tasks SET name, priority, enddate, description, state WHERE id = t.id */
  function ReplaceWhere(rows: seq<Row>, t: Task): (r: seq<Row>)
    ensures |r| == |rows|
    ensures forall k :: 0 <= k < |rows| ==> r[k] == if rows[k].id == t.id then Encode(t) else rows[k]
  {
    if rows == [] then []
    else [if rows[0].id == t.id then Encode(t) else rows[0]] + ReplaceWhere(rows[1..], t)
  }

  /** DELETE FROM tasks WHERE id = ? */
  function DeleteWhere(rows: seq<Row>, id: int32): (r: seq<Row>)
    ensures forall x :: x in r <==> x in rows && x.id != id
    ensures NoRowWithId(rows, id) ==> r == rows
  {
    if rows == [] then []
    else (if rows[0].id == id then [] else [rows[0]]) + DeleteWhere(rows[1..], id)
  }

  /** `s` keeps some of `t`'s elements, in `t`'s order. */
  ghost predicate Subsequence(s: seq<Row>, t: seq<Row>)
    decreases |t|
  {
    if s == [] then true
    else if t == [] then false
    else (s[0] == t[0] && Subsequence(s[1..], t[1..])) || Subsequence(s, t[1..])
  }

  /** A delete keeps the surviving rows in table order: the result is a
      subsequence of the table holding every row whose id differs. */
  lemma {:induction false} DeleteKeepsOrder(rows: seq<Row>, id: int32)
    ensures Subsequence(DeleteWhere(rows, id), rows)
    ensures |DeleteWhere(rows, id)| == |rows| - CountWithId(rows, id)
    decreases |rows|
  {
    if rows != [] {
      DeleteKeepsOrder(rows[1..], id);
      var r := DeleteWhere(rows, id);
      if rows[0].id == id {
        assert r == DeleteWhere(rows[1..], id);
      } else {
        assert r == [rows[0]] + DeleteWhere(rows[1..], id);
        assert r[1..] == DeleteWhere(rows[1..], id);
      }
    }
  }

  /** A write that matches no row leaves the table as it was. */
  lemma WritesWithoutMatch(rows: seq<Row>, id: int32, code: int32, t: Task)
    ensures NoRowWithId(rows, id) ==> SetStateWhere(rows, id, code) == rows
    ensures NoRowWithId(rows, t.id) ==> ReplaceWhere(rows, t) == rows
  {
  }

  /** Deleting the same id again finds no row and changes nothing. */
  lemma DeleteTwice(rows: seq<Row>, id: int32)
    ensures FindById(DeleteWhere(rows, id), id).None?
    ensures CountWithId(DeleteWhere(rows, id), id) == 0
    ensures DeleteWhere(DeleteWhere(rows, id), id) == DeleteWhere(rows, id)
  {
  }

  /** Updates by id keep every row's id where it was. */
  lemma UpdatesKeepDistinctIds(rows: seq<Row>, id: int32, code: int32, t: Task)
    requires DistinctIds(rows)
    ensures DistinctIds(SetStateWhere(rows, id, code))
    ensures DistinctIds(ReplaceWhere(rows, t))
  {
  }

  lemma {:induction false} DeleteKeepsDistinctIds(rows: seq<Row>, id: int32)
    requires DistinctIds(rows)
    ensures DistinctIds(DeleteWhere(rows, id))
    decreases |rows|
  {
    if rows != [] {
      assert DistinctIds(rows[1..]);
      DeleteKeepsDistinctIds(rows[1..], id);
      assert rows == [rows[0]] + rows[1..];
      assert NoRowWithId(rows[1..], rows[0].id);
    }
  }

  // ---------------------------------------------------------------------
  // What a later point lookup sees after each write
  // ---------------------------------------------------------------------

  /** After appending a row with a fresh id, looking it up finds it, and
      every other lookup is unchanged. */
  lemma {:induction false} FindAfterInsert(rows: seq<Row>, row: Row, x: int32)
    requires NoRowWithId(rows, row.id)
    ensures FindById(rows + [row], x) == if x == row.id then Some(row) else FindById(rows, x)
    decreases |rows|
  {
    if rows == [] {
      assert rows + [row] == [row];
    } else {
      assert (rows + [row])[1..] == rows[1..] + [row];
      FindAfterInsert(rows[1..], row, x);
    }
  }

  /** After a state update, the row with that id has the new code and
      nothing else of it changed; other lookups are unchanged. */
  lemma {:induction false} FindAfterSetState(rows: seq<Row>, id: int32, code: int32, x: int32)
    ensures FindById(SetStateWhere(rows, id, code), x) ==
      if x != id then FindById(rows, x)
      else match FindById(rows, id)
        case Some(r) => Some(r.(state := code))
        case None => None
    decreases |rows|
  {
    if rows != [] {
      assert SetStateWhere(rows, id, code)[1..] == SetStateWhere(rows[1..], id, code);
      FindAfterSetState(rows[1..], id, code, x);
    }
  }

  /** After a full update, the row with that id reads as the new record. */
  lemma {:induction false} FindAfterReplace(rows: seq<Row>, t: Task, x: int32)
    ensures FindById(ReplaceWhere(rows, t), x) ==
      if x != t.id then FindById(rows, x)
      else if FindById(rows, x).Some? then Some(Encode(t))
      else None
    decreases |rows|
  {
    if rows != [] {
      assert ReplaceWhere(rows, t)[1..] == ReplaceWhere(rows[1..], t);
      FindAfterReplace(rows[1..], t, x);
    }
  }

  /** After a delete, that id is gone and other lookups are unchanged. */
  lemma {:induction false} FindAfterDelete(rows: seq<Row>, id: int32, x: int32)
    ensures FindById(DeleteWhere(rows, id), x) == if x == id then None else FindById(rows, x)
    decreases |rows|
  {
    if rows != [] {
      FindAfterDelete(rows[1..], id, x);
      if rows[0].id == id {
        assert DeleteWhere(rows, id) == DeleteWhere(rows[1..], id);
      } else {
        assert DeleteWhere(rows, id) == [rows[0]] + DeleteWhere(rows[1..], id);
      }
    }
  }
}
