/**
 * The `tasks` table: the two enumerations, the record shape and the values the
 * database fills in on insertion (column defaults, the serial id and the
 * creation timestamp).
 */
module TaskEntity {
  import opened Wrappers

  /** Status of a task; persisted as a fixed string code. */
  datatype TaskStatus = Pending | Done | InProgress | Paused

  /** Priority of a task; persisted as a fixed string code. */
  datatype TaskPriority = Red | Yellow | Blue

  /** The string code a status is stored and exchanged as. */
  function StatusCode(s: TaskStatus): (code: string)
    ensures code in {"pending", "done", "in_progress", "paused"}
  {
    match s
    case Pending => "pending"
    case Done => "done"
    case InProgress => "in_progress"
    case Paused => "paused"
  }

  /** The status whose code is `code`, if there is one. */
  function ParseStatus(code: string): Option<TaskStatus> {
    if code == "pending" then Some(Pending)
    else if code == "done" then Some(Done)
    else if code == "in_progress" then Some(InProgress)
    else if code == "paused" then Some(Paused)
    else None
  }

  /** The string code a priority is stored and exchanged as. */
  function PriorityCode(p: TaskPriority): (code: string)
    ensures code in {"red", "yellow", "blue"}
  {
    match p
    case Red => "red"
    case Yellow => "yellow"
    case Blue => "blue"
  }

  /** The priority whose code is `code`, if there is one. */
  function ParsePriority(code: string): Option<TaskPriority> {
    if code == "red" then Some(Red)
    else if code == "yellow" then Some(Yellow)
    else if code == "blue" then Some(Blue)
    else None
  }

  /** Exactly the four status codes are accepted, and each names one status. */
  lemma StatusCodesExact(code: string, s: TaskStatus)
    ensures ParseStatus(StatusCode(s)) == Some(s)
    ensures ParseStatus(code) == Some(s) <==> code == StatusCode(s)
    ensures ParseStatus(code).Some? <==> code in {"pending", "done", "in_progress", "paused"}
  {
  }

  /** Exactly the three priority codes are accepted, and each names one priority. */
  lemma PriorityCodesExact(code: string, p: TaskPriority)
    ensures ParsePriority(PriorityCode(p)) == Some(p)
    ensures ParsePriority(code) == Some(p) <==> code == PriorityCode(p)
    ensures ParsePriority(code).Some? <==> code in {"red", "yellow", "blue"}
  {
  }

  /**
   * One row of the table. `dueDate` is a calendar date written YYYY-MM-DD;
   * `createdAt` is the store's creation counter (a later insertion has a
   * larger value).
   */
  datatype Task = Task(
    id: int,
    name: string,
    dueDate: string,
    status: TaskStatus,
    priority: TaskPriority,
    createdAt: int,
    isActive: bool)

  /** Column defaults. */
  const DefaultStatus: TaskStatus := Pending
  const DefaultPriority: TaskPriority := Blue
  const DefaultIsActive: bool := true

  /**
   * The row the database stores for a validated creation request: the caller's
   * fields, a default for every omitted optional column, and the id and
   * creation time the store generates (never taken from the caller).
   */
  function NewRow(id: int, createdAt: int, name: string, dueDate: string,
                  status: Option<TaskStatus>, priority: Option<TaskPriority>,
                  isActive: Option<bool>): (t: Task)
    ensures t.id == id && t.createdAt == createdAt
    ensures t.name == name && t.dueDate == dueDate
    ensures status.None? ==> t.status == Pending
    ensures priority.None? ==> t.priority == Blue
    ensures isActive.None? ==> t.isActive
    ensures status.Some? ==> t.status == status.value
    ensures priority.Some? ==> t.priority == priority.value
    ensures isActive.Some? ==> t.isActive == isActive.value
  {
    Task(id, name, dueDate, status.GetOr(DefaultStatus), priority.GetOr(DefaultPriority),
         createdAt, isActive.GetOr(DefaultIsActive))
  }
}
