/** The task record and its status code. */
module TaskData {
  import opened Wrappers
  import opened Int32

  /** Whether a task is still open or already done. */
  datatype TaskStatus = Open | Completed {

    /** The integer code the status is stored under. */
    function Value(): int32 {
      match this
      case Open => 0
      case Completed => 1
    }
  }

  /** The statuses in declaration order, as `fromInt` searches them. */
  const Entries: seq<TaskStatus> := [Open, Completed]

  /** What decoding raises for a code no status carries. */
  datatype DecodeError = UnknownTaskStatus(value: int32)

  /** The first status in `es` whose code is `v`, if any. */
  function FirstWithValue(es: seq<TaskStatus>, v: int32): (r: Option<TaskStatus>)
    ensures r.Some? ==> r.value in es && r.value.Value() == v
    ensures r.None? ==> forall e :: e in es ==> e.Value() != v
  {
    if es == [] then None
    else if es[0].Value() == v then Some(es[0])
    else FirstWithValue(es[1..], v)
  }

  /** Decoding a stored status code: the status carrying that code, or
      an error naming the code. There is no default. */
  function FromInt(v: int32): (r: Result<TaskStatus, DecodeError>)
    ensures r.Success? ==> r.value.Value() == v
    ensures r.Failure? ==> r.error == UnknownTaskStatus(v) && forall s: TaskStatus :: s.Value() != v
  {
    match FirstWithValue(Entries, v)
    case Some(s) => Success(s)
    case None => Failure(UnknownTaskStatus(v))
  }

  /** The two codes are 0 and 1. */
  lemma StatusCodes()
    ensures Open.Value() == 0 && Completed.Value() == 1
  {
  }

  /** Encoding then decoding gives back the status. */
  lemma FromIntRoundTrip(s: TaskStatus)
    ensures FromInt(s.Value()) == Success(s)
  {
    assert s in Entries;
  }

  /** Decoding succeeds on exactly the codes 0 and 1. */
  lemma FromIntDefinedOn(v: int32)
    ensures FromInt(v).Success? <==> v == 0 || v == 1
  {
    if v == 0 { FromIntRoundTrip(Open); }
    if v == 1 { FromIntRoundTrip(Completed); }
    if FromInt(v).Success? { assert FromInt(v).value in Entries; }
  }

  /** Distinct statuses have distinct codes. */
  lemma ValueInjective(s: TaskStatus, t: TaskStatus)
    ensures s.Value() == t.Value() ==> s == t
  {
  }

  /** A task: a plain value with six fields, compared field by field. */
  datatype Task = Task(
    id: int32,
    description: string,
    priority: int32,
    endDate: string,
    state: TaskStatus,
    name: string)

  /** Two tasks are equal exactly when all six fields are. */
  lemma TaskEquality(a: Task, b: Task)
    ensures a == b <==>
      a.id == b.id && a.description == b.description && a.priority == b.priority &&
      a.endDate == b.endDate && a.state == b.state && a.name == b.name
  {
  }
}
