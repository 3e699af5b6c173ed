/** Entities of the task tracker's backend: users, tasks, assignment rows, and the
    typed errors every operation ends in. Everything is compared by id. */
module Domain {

  datatype Option<+T> = None | Some(value: T)

  /** The typed failures of the backend. `ApiError` carries the stable machine-readable
      code of an `ApiError(code, message)` (messages are not modelled); `UnknownError`
      stands for any other exception (a TypeError, a rejected ORM call), which the
      HTTP layer reports as UNKNOWN_ERROR. */
  datatype Error = ApiError(code: string) | UnknownError

  datatype Result<+T> = Ok(value: T) | Err(error: Error)

  type UserId = string
  type TaskId = string
  /** Assignment ids are drawn from a counter in the store; the backend uses uuids. */
  type AssignmentId = nat

  /** The closed task status enum and its wire names. */
  datatype Status = ToDo | InProgress | Blocked | Done

  function StatusName(s: Status): string
  {
    match s
    case ToDo => "TO_DO"
    case InProgress => "IN_PROGRESS"
    case Blocked => "BLOCKED"
    case Done => "DONE"
  }

  /** Membership of a string among the enum's values. */
  function ParseStatus(s: string): (r: Option<Status>)
    ensures r.Some? ==> StatusName(r.value) == s
    ensures r.None? ==> forall st: Status :: StatusName(st) != s
  {
    if s == "TO_DO" then Some(ToDo)
    else if s == "IN_PROGRESS" then Some(InProgress)
    else if s == "BLOCKED" then Some(Blocked)
    else if s == "DONE" then Some(Done)
    else None
  }

  lemma StatusNameParses(st: Status)
    ensures ParseStatus(StatusName(st)) == Some(st)
  {
    match st
    case ToDo =>
    case InProgress =>
    case Blocked =>
    case Done =>
  }

  /** A deadline argument: absent (null/undefined), present but not a Date, or an
      instant in milliseconds. */
  datatype DateArg = Missing | NotADate | Instant(ms: int)

  /** A Task row; `deadline` is a UTC timestamp in milliseconds. */
  datatype Task = Task(
    id: TaskId,
    creator: UserId,
    title: string,
    description: Option<string>,
    deadline: int,
    status: Status,
    estimatedDays: Option<real>,
    project: Option<string>)

  /** A TaskAssignment row linking a task to one assigned user. */
  datatype Assignment = Assignment(id: AssignmentId, task: TaskId, user: UserId)

  /** A User row, without its id (the users table is keyed by id). */
  datatype User = User(
    email: string,
    passwordHash: string,
    firstName: string,
    lastName: string,
    avatarUrl: Option<string>,
    bio: string)
}
