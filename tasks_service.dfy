/**
 * The task store: the table of task rows and the operations that change it
 * (create, update, soft delete, hard delete) together with the lookup by id.
 * Listing is `TaskQuery.FindAll` applied to the store's rows.
 *
 * Name uniqueness is modelled as a condition the store checks on insert and
 * update; it stands for the unique violation the storage reports (an
 * assumption about the database: the migration `CreateTasksTable` and the
 * entity declare no unique constraint on `name`).
 */
module TasksService {
  import opened Wrappers
  import opened TaskEntity
  import opened TaskErrors
  import opened TaskQuery
  import opened CreateTaskDto

  /** An update request: every field optional; an omitted field keeps its value. */
  datatype TaskPatch = TaskPatch(
    name: Option<string>,
    dueDate: Option<string>,
    status: Option<TaskStatus>,
    priority: Option<TaskPriority>,
    isActive: Option<bool>)

  const EmptyPatch := TaskPatch(None, None, None, None, None)

  /**
   * The status guard of an update: a patch that names a status different from
   * the current one is refused when the task is done and the new status is
   * not done.
   */
  predicate TransitionAllowed(current: TaskStatus, requested: Option<TaskStatus>)
    ensures requested.None? || current != Done ==> TransitionAllowed(current, requested)
    ensures requested == Some(Done) ==> TransitionAllowed(current, requested)
    ensures current == Done && requested.Some? && requested.value != Done ==> !TransitionAllowed(current, requested)
  {
    !(requested.Some? && current != requested.value
      && current == Done && requested.value != Done)
  }

  /** `done` is terminal; every other status may become any status; a patch without a status always passes. */
  lemma TransitionRule(current: TaskStatus, next: TaskStatus)
    ensures TransitionAllowed(current, Some(next)) <==> current != Done || next == Done
    ensures TransitionAllowed(current, None)
  {
  }

  /** `Object.assign(task, patch)`: every supplied field overwrites, the rest is kept. */
  function Merge(t: Task, patch: TaskPatch): (r: Task)
    ensures r.id == t.id && r.createdAt == t.createdAt
    ensures r.name == (if patch.name.Some? then patch.name.value else t.name)
    ensures r.dueDate == (if patch.dueDate.Some? then patch.dueDate.value else t.dueDate)
    ensures r.status == (if patch.status.Some? then patch.status.value else t.status)
    ensures r.priority == (if patch.priority.Some? then patch.priority.value else t.priority)
    ensures r.isActive == (if patch.isActive.Some? then patch.isActive.value else t.isActive)
  {
    t.(name := patch.name.GetOr(t.name),
       dueDate := patch.dueDate.GetOr(t.dueDate),
       status := patch.status.GetOr(t.status),
       priority := patch.priority.GetOr(t.priority),
       isActive := patch.isActive.GetOr(t.isActive))
  }

  /** Two patches applied in turn: the later one's supplied fields win. */
  function Then(p: TaskPatch, q: TaskPatch): TaskPatch {
    TaskPatch(
      if q.name.Some? then q.name else p.name,
      if q.dueDate.Some? then q.dueDate else p.dueDate,
      if q.status.Some? then q.status else p.status,
      if q.priority.Some? then q.priority else p.priority,
      if q.isActive.Some? then q.isActive else p.isActive)
  }

  /** An empty patch changes nothing, a patch applied twice acts once, and two patches compose. */
  lemma MergeLaws(t: Task, p: TaskPatch, q: TaskPatch)
    ensures Merge(t, EmptyPatch) == t
    ensures Merge(Merge(t, p), p) == Merge(t, p)
    ensures Merge(Merge(t, p), q) == Merge(t, Then(p, q))
  {
  }

  /** The record-level part of an update: the status guard, then the merge. */
  function UpdateRecord(t: Task, patch: TaskPatch): (r: Result<Task, Error>)
    ensures r.Failure? <==> t.status == Done && patch.status.Some? && patch.status.value != Done
    ensures r.Failure? ==> r.error == InvalidTransition
    ensures r.Success? ==> r.value == Merge(t, patch)
  {
    if TransitionAllowed(t.status, patch.status) then Success(Merge(t, patch))
    else Failure(InvalidTransition)
  }

  /** A record after a series of update requests; a refused request leaves it as it was. */
  function AfterUpdates(t: Task, patches: seq<TaskPatch>): Task
    decreases |patches|
  {
    if patches == [] then t
    else
      var next := match UpdateRecord(t, patches[0]) case Success(u) => u case Failure(_) => t;
      AfterUpdates(next, patches[1..])
  }

  /** Once done, a task stays done through any series of updates, and its id and creation time never change. */
  lemma {:induction false} DoneStaysDone(t: Task, patches: seq<TaskPatch>)
    ensures AfterUpdates(t, patches).id == t.id
    ensures AfterUpdates(t, patches).createdAt == t.createdAt
    ensures t.status == Done ==> AfterUpdates(t, patches).status == Done
    decreases |patches|
  {
    if patches != [] {
      var next := match UpdateRecord(t, patches[0]) case Success(u) => u case Failure(_) => t;
      DoneStaysDone(next, patches[1..]);
    }
  }

  // ---- the table ----

  function Id(t: Task): int { t.id }

  /** Some row other than the one with id `except` carries `name`. */
  predicate NameTakenExcept(rows: seq<Task>, name: string, except: int) {
    exists t :: t in rows && t.id != except && t.name == name
  }

  /** Some row carries `name`. */
  predicate NameTaken(rows: seq<Task>, name: string) {
    exists t :: t in rows && t.name == name
  }

  /**
   * The table's invariant: ids are positive and rows are kept in insertion
   * order, so ids and creation times strictly increase along the table, and
   * no two rows share a name.
   */
  ghost predicate WellFormed(rows: seq<Task>) {
    && Increasing(rows, Id)
    && Increasing(rows, CreatedAt)
    && (forall t :: t in rows ==> t.id >= 1)
    && (forall t1, t2 :: t1 in rows && t2 in rows && t1.name == t2.name ==> t1 == t2)
  }

  /** Every row's id is below `nextId` and its creation time below `clock`. */
  ghost predicate Below(rows: seq<Task>, nextId: int, clock: int) {
    forall t :: t in rows ==> t.id < nextId && t.createdAt < clock
  }

  /** `SELECT ... WHERE id = :id`. */
  function Find(rows: seq<Task>, id: int): (r: Option<Task>)
    ensures r.Some? ==> r.value in rows && r.value.id == id
    ensures r.None? <==> forall t :: t in rows ==> t.id != id
  {
    if rows == [] then None
    else if rows[0].id == id then Some(rows[0])
    else
      var r := Find(rows[1..], id);
      assert forall t :: t in rows ==> t == rows[0] || t in rows[1..];
      r
  }

  /** With strictly increasing ids, the row with a given id is the only one. */
  lemma {:induction false} FindUnique(rows: seq<Task>, t: Task)
    requires Increasing(rows, Id) && t in rows
    ensures Find(rows, t.id) == Some(t)
  {
    IncreasingTail(rows, Id);
    if rows[0] != t {
      assert t in rows[1..];
      assert rows[0].id < t.id;
      FindUnique(rows[1..], t);
    }
  }

  /** The table with the row whose id is `id` replaced by `t` (`save` of a changed record). */
  function Replace(rows: seq<Task>, id: int, t: Task): (r: seq<Task>)
    ensures |r| == |rows|
    ensures forall i :: 0 <= i < |rows| ==> r[i] == if rows[i].id == id then t else rows[i]
  {
    seq(|rows|, i requires 0 <= i < |rows| => if rows[i].id == id then t else rows[i])
  }

  /**
   * The outcome of `update(id, patch)` on a table: an id below 1 is invalid;
   * a missing row is not found; a done task given another status is refused;
   * a merged name carried by another row is a duplicate; otherwise the merged
   * record.
   */
  function UpdateResult(rows: seq<Task>, id: int, patch: TaskPatch): (r: Result<Task, Error>)
    ensures id < 1 ==> r == Failure(InvalidId)
    ensures id >= 1 && Find(rows, id).None? ==> r == Failure(NotFound(id))
    ensures id >= 1 && Find(rows, id).Some? ==>
      var t := Find(rows, id).value;
      && (t.status == Done && patch.status.Some? && patch.status.value != Done ==> r == Failure(InvalidTransition))
      && (TransitionAllowed(t.status, patch.status) ==>
            r == if NameTakenExcept(rows, Merge(t, patch).name, id) then Failure(DuplicateName)
                 else Success(Merge(t, patch)))
    ensures r.Success? ==> r.value.id == id && !NameTakenExcept(rows, r.value.name, id)
  {
    if id < 1 then Failure(InvalidId)
    else match Find(rows, id)
      case None => Failure(NotFound(id))
      case Some(t) =>
        match UpdateRecord(t, patch)
        case Failure(e) => Failure(e)
        case Success(m) => if NameTakenExcept(rows, m.name, id) then Failure(DuplicateName) else Success(m)
  }

  /**
   * Committing a successful update keeps the table well formed and the id and
   * clock bounds, finds the new record under its id and changes no other lookup.
   */
  lemma UpdateCommits(rows: seq<Task>, id: int, patch: TaskPatch, nextId: int, clock: int)
    requires WellFormed(rows) && Below(rows, nextId, clock)
    requires UpdateResult(rows, id, patch).Success?
    ensures var m := UpdateResult(rows, id, patch).value; var r := Replace(rows, id, m);
      && WellFormed(r)
      && Below(r, nextId, clock)
      && Find(r, id) == Some(m)
      && (forall other :: other != id ==> Find(r, other) == Find(rows, other))
  {
    var t := Find(rows, id).value;
    var m := UpdateResult(rows, id, patch).value;
    ReplaceKeepsTable(rows, t, m);
    ReplaceMembers(rows, id, m);
  }

  /**
   * Clearing the active flag of a row keeps the table well formed and the id
   * and clock bounds, still finds the row under its id and changes no other
   * lookup.
   */
  lemma DeactivateCommits(rows: seq<Task>, t: Task, nextId: int, clock: int)
    requires WellFormed(rows) && Below(rows, nextId, clock) && t in rows
    ensures var u := t.(isActive := false); var r := Replace(rows, t.id, u);
      && WellFormed(r)
      && Below(r, nextId, clock)
      && Find(r, t.id) == Some(u)
      && (forall other :: other != t.id ==> Find(r, other) == Find(rows, other))
  {
    var u := t.(isActive := false);
    assert !NameTakenExcept(rows, u.name, u.id) by {
      forall x | x in rows && x.name == u.name ensures x.id == u.id {
        assert x == t;
      }
    }
    ReplaceKeepsTable(rows, t, u);
    ReplaceMembers(rows, t.id, u);
  }

  /**
   * Soft deletion is idempotent: once a row's active flag is cleared, the
   * lookup finds the cleared row, and clearing it again leaves the table as it is.
   */
  lemma SoftDeleteIdempotent(rows: seq<Task>, t: Task)
    requires WellFormed(rows) && t in rows
    ensures var u := t.(isActive := false); var once := Replace(rows, t.id, u);
      && Find(once, t.id) == Some(u)
      && Replace(once, t.id, u.(isActive := false)) == once
  {
    var u := t.(isActive := false);
    var once := Replace(rows, t.id, u);
    assert !NameTakenExcept(rows, u.name, u.id) by {
      forall x | x in rows && x.name == u.name ensures x.id == u.id {
        assert x == t;
      }
    }
    ReplaceKeepsTable(rows, t, u);
    var twice := Replace(once, t.id, u.(isActive := false));
    assert |twice| == |once|;
    forall i | 0 <= i < |once| ensures twice[i] == once[i] {
      if once[i].id == t.id {
        assert rows[i].id == t.id;
      }
    }
  }

  /** An update never moves a task out of `done`, and never changes its id or creation time. */
  lemma UpdateKeepsDone(rows: seq<Task>, id: int, patch: TaskPatch)
    requires UpdateResult(rows, id, patch).Success?
    ensures var t, u := Find(rows, id).value, UpdateResult(rows, id, patch).value;
      (t.status == Done ==> u.status == Done) && u.id == t.id && u.createdAt == t.createdAt
  {
  }

  /**
   * An update is answered 404 exactly when the id is valid and no row has it;
   * every other refusal (invalid id, leaving `done`, a taken name) is a 400.
   */
  lemma UpdateStatus(rows: seq<Task>, id: int, patch: TaskPatch)
    ensures var r := UpdateResult(rows, id, patch);
      r.Failure? ==> (HttpStatus(r.error) == 404 <==> id >= 1 && forall t :: t in rows ==> t.id != id)
  {
  }

  /** `DELETE ... WHERE id = :id`: every row but the one with that id, in order. */
  function Without(rows: seq<Task>, id: int): (r: seq<Task>)
    ensures forall t :: t in r <==> t in rows && t.id != id
    ensures |r| == |rows| <==> forall t :: t in rows ==> t.id != id
    ensures (forall t :: t in rows ==> t.id != id) ==> r == rows
  {
    KeepAll(rows, (t: Task) => t.id != id);
    Keep(rows, (t: Task) => t.id != id)
  }

  /** In a well-formed table, two rows with the same id are the same row. */
  lemma SameIdSameRow(rows: seq<Task>, x: Task, y: Task)
    requires Increasing(rows, Id) && x in rows && y in rows && x.id == y.id
    ensures x == y
  {
    FindUnique(rows, x);
    FindUnique(rows, y);
  }

  /** Every row of a replacement is the new record or an untouched row with another id. */
  lemma ReplaceMembers(rows: seq<Task>, id: int, t: Task)
    ensures forall x :: x in Replace(rows, id, t) ==> x == t || (x in rows && x.id != id)
  {
    var r := Replace(rows, id, t);
    forall x | x in r ensures x == t || (x in rows && x.id != id) {
      var k :| 0 <= k < |r| && r[k] == x;
    }
  }

  /** A replacement that keeps each row's id and creation time keeps both in increasing order. */
  lemma ReplaceKeepsOrder(rows: seq<Task>, prev: Task, t: Task)
    requires Increasing(rows, Id) && Increasing(rows, CreatedAt) && prev in rows
    requires t.id == prev.id && t.createdAt == prev.createdAt
    ensures Increasing(Replace(rows, t.id, t), Id) && Increasing(Replace(rows, t.id, t), CreatedAt)
  {
    var r := Replace(rows, t.id, t);
    forall i | 0 <= i < |rows| ensures r[i].id == rows[i].id && r[i].createdAt == rows[i].createdAt {
      if rows[i].id == t.id {
        assert rows[i] in rows;
        SameIdSameRow(rows, rows[i], prev);
      }
    }
  }

  /**
   * Replacing a row by a record with the same id and creation time, whose name
   * no other row carries, keeps the table well formed, makes the lookup of
   * that id return the new record and leaves every other lookup unchanged.
   */
  lemma ReplaceKeepsTable(rows: seq<Task>, prev: Task, t: Task)
    requires WellFormed(rows) && prev in rows
    requires t.id == prev.id && t.createdAt == prev.createdAt
    requires !NameTakenExcept(rows, t.name, t.id)
    ensures WellFormed(Replace(rows, t.id, t))
    ensures Find(Replace(rows, t.id, t), t.id) == Some(t)
    ensures forall other :: other != t.id ==> Find(Replace(rows, t.id, t), other) == Find(rows, other)
  {
    var r := Replace(rows, t.id, t);
    ReplaceKeepsOrder(rows, prev, t);
    ReplaceMembers(rows, t.id, t);
    assert t in r by {
      var k :| 0 <= k < |rows| && rows[k] == prev;
      assert r[k] == t;
    }
    FindUnique(r, t);
    forall other | other != t.id ensures Find(r, other) == Find(rows, other) {
      if Find(rows, other).Some? {
        var x := Find(rows, other).value;
        var k :| 0 <= k < |rows| && rows[k] == x;
        assert r[k] == x;
        FindUnique(r, x);
      }
    }
  }

  /** Removing a row keeps the table well formed, and no row with that id is left. */
  lemma WithoutKeepsTable(rows: seq<Task>, id: int)
    requires WellFormed(rows)
    ensures WellFormed(Without(rows, id))
    ensures Find(Without(rows, id), id).None?
    ensures forall other :: other != id ==> Find(Without(rows, id), other) == Find(rows, other)
  {
    var p := (t: Task) => t.id != id;
    KeepIncreasing(rows, p, Id);
    KeepIncreasing(rows, p, CreatedAt);
    var r := Without(rows, id);
    forall other | other != id ensures Find(r, other) == Find(rows, other) {
      if Find(rows, other).Some? {
        FindUnique(r, Find(rows, other).value);
      }
    }
  }

  /** Listing with no filters gives the whole table, newest first: the reverse of insertion order. */
  lemma ListAllNewestFirst(rows: seq<Task>)
    requires WellFormed(rows)
    ensures Matching(rows, None) == Reverse(rows)
  {
    var conds := Conditions(None);
    assert forall t :: Where(conds, t);
    KeepAll(rows, t => Where(conds, t));
    SortByNewestOfCreationOrder(rows);
  }

  /** The store: the table, the id sequence and the creation clock. */
  class TaskStore {
    var rows: seq<Task>
    /** The next value of the id sequence (`SERIAL`). */
    var nextId: int
    /** The next creation time; stands for the clock the database reads on insert. */
    var clock: int

    ghost predicate Valid()
      reads this
    {
      && WellFormed(rows)
      && nextId >= 1
      && Below(rows, nextId, clock)
    }

    constructor ()
      ensures Valid() && rows == [] && nextId == 1
    {
      rows := [];
      nextId := 1;
      clock := 0;
    }

    /**
     * `findOne(id)`: an id below 1 is invalid; otherwise the row with that id,
     * active or not, or not-found when there is none.
     */
    function FindOne(id: int): (r: Result<Task, Error>)
      reads this
      ensures id < 1 ==> r == Failure(InvalidId)
      ensures id >= 1 ==> (r.Failure? <==> forall t :: t in rows ==> t.id != id)
      ensures id >= 1 && r.Failure? ==> r == Failure(NotFound(id))
      ensures r.Success? ==> r.value in rows && r.value.id == id
      ensures r.Failure? ==> (HttpStatus(r.error) == 404 <==> id >= 1 && forall t :: t in rows ==> t.id != id)
    {
      if id < 1 then Failure(InvalidId)
      else match Find(rows, id)
        case None => Failure(NotFound(id))
        case Some(t) => Success(t)
    }

    /**
     * `create(dto)`: inserts a row with the next id, the current creation
     * time and defaults for omitted fields; a name already in the table is
     * refused and the store is left unchanged.
     */
    method Create(dto: CreateTask) returns (r: Result<Task, Error>)
      requires Valid()
      modifies this
      ensures Valid()
      ensures NameTaken(old(rows), dto.name) ==>
        r == Failure(DuplicateName) && rows == old(rows) && nextId == old(nextId) && clock == old(clock)
      ensures !NameTaken(old(rows), dto.name) ==>
        && r == Success(NewRow(old(nextId), old(clock), dto.name, dto.dueDate,
                               dto.status, dto.priority, dto.isActive))
        && rows == old(rows) + [r.value]
        && nextId == old(nextId) + 1 && clock == old(clock) + 1
      ensures r.Success? ==> (forall t :: t in old(rows) ==> t.id != r.value.id && t.createdAt < r.value.createdAt)
      ensures r.Success? ==> FindOne(r.value.id) == Success(r.value)
      ensures r.Failure? ==> HttpStatus(r.error) == 400
    {
      if exists t :: t in rows && t.name == dto.name {
        return Failure(DuplicateName);
      }
      var t := NewRow(nextId, clock, dto.name, dto.dueDate, dto.status, dto.priority, dto.isActive);
      AppendKeepsTable(rows, t);
      rows := rows + [t];
      nextId := nextId + 1;
      clock := clock + 1;
      r := Success(t);
    }

    /**
     * The checks `update(id, patch)` makes before it saves: the id, the
     * lookup, the status transition and the name constraint, giving the
     * record to save or the error to raise.
     */
    method CheckUpdate(id: int, patch: TaskPatch) returns (r: Result<Task, Error>)
      requires Valid()
      ensures r == UpdateResult(rows, id, patch)
    {
      if id < 1 {
        return Failure(InvalidId);
      }
      var found := FindOne(id);
      if found.Failure? {
        return found;
      }
      var t := found.value;
      if patch.status.Some? && t.status != patch.status.value {
        if t.status == Done && patch.status.value != Done {
          return Failure(InvalidTransition);
        }
      }
      var merged := Merge(t, patch);
      if NameTakenExcept(rows, merged.name, id) {
        return Failure(DuplicateName);
      }
      return Success(merged);
    }

    /**
     * `update(id, patch)`: the outcome `UpdateResult` describes; on success the
     * target row is replaced by the merged record and nothing else changes.
     */
    method Update(id: int, patch: TaskPatch) returns (r: Result<Task, Error>)
      requires Valid()
      modifies this
      ensures Valid()
      ensures nextId == old(nextId) && clock == old(clock)
      ensures r == UpdateResult(old(rows), id, patch)
      ensures rows == if r.Success? then Replace(old(rows), id, r.value) else old(rows)
    {
      r := CheckUpdate(id, patch);
      if r.Success? {
        UpdateCommits(rows, id, patch, nextId, clock);
        rows := Replace(rows, id, r.value);
      }
    }

    /** `softDelete(id)`: the lookup of `findOne`, then the row's active flag is cleared. */
    method SoftDelete(id: int) returns (r: Result<Task, Error>)
      requires Valid()
      modifies this
      ensures Valid()
      ensures nextId == old(nextId) && clock == old(clock)
      ensures old(FindOne(id)).Failure? ==> r == old(FindOne(id)) && rows == old(rows)
      ensures old(FindOne(id)).Success? ==>
        && r == Success(old(FindOne(id)).value.(isActive := false))
        && rows == Replace(old(rows), id, r.value)
      ensures r.Success? ==> FindOne(id) == r
      ensures forall other :: other != id ==> Find(rows, other) == Find(old(rows), other)
    {
      if id < 1 {
        return Failure(InvalidId);
      }
      var found := FindOne(id);
      if found.Failure? {
        return found;
      }
      var t := found.value.(isActive := false);
      DeactivateCommits(rows, found.value, nextId, clock);
      rows := Replace(rows, id, t);
      r := Success(t);
    }

    /** `remove(id)`: the default delete, which is the soft delete. */
    method Remove(id: int) returns (r: Result<Task, Error>)
      requires Valid()
      modifies this
      ensures Valid()
      ensures nextId == old(nextId) && clock == old(clock)
      ensures old(FindOne(id)).Failure? ==> r == old(FindOne(id)) && rows == old(rows)
      ensures old(FindOne(id)).Success? ==>
        && r == Success(old(FindOne(id)).value.(isActive := false))
        && rows == Replace(old(rows), id, r.value)
    {
      r := SoftDelete(id);
    }

    /**
     * `hardDelete(id)`: deletes the row with that id without looking it up
     * first, and reports not-found when the delete affected no row.
     */
    method HardDelete(id: int) returns (r: Result<string, Error>)
      requires Valid()
      modifies this
      ensures Valid()
      ensures nextId == old(nextId) && clock == old(clock)
      ensures id < 1 ==> r == Failure(InvalidId) && rows == old(rows)
      ensures id >= 1 ==> rows == Without(old(rows), id)
      ensures id >= 1 ==> (r.Failure? <==> old(FindOne(id)).Failure?)
      ensures r.Failure? && id >= 1 ==> r == Failure(NotFound(id))
      ensures r.Failure? ==> (HttpStatus(r.error) == 404 <==> id >= 1 && forall t :: t in old(rows) ==> t.id != id)
      ensures r.Success? ==> r.value == "Task permanently deleted"
      ensures id >= 1 ==> FindOne(id) == Failure(NotFound(id))
      ensures forall other :: other != id ==> Find(rows, other) == Find(old(rows), other)
    {
      if id < 1 {
        return Failure(InvalidId);
      }
      var kept := Without(rows, id);
      var affected := |rows| - |kept|;
      WithoutKeepsTable(rows, id);
      if affected == 0 {
        return Failure(NotFound(id));
      }
      rows := kept;
      r := Success("Task permanently deleted");
    }
  }

  /** Appending a row newer and with a larger id than every row keeps the table in order. */
  lemma AppendKeepsOrder(rows: seq<Task>, t: Task)
    requires Increasing(rows, Id) && Increasing(rows, CreatedAt)
    requires forall u :: u in rows ==> u.id < t.id && u.createdAt < t.createdAt
    ensures Increasing(rows + [t], Id) && Increasing(rows + [t], CreatedAt)
  {
    var r := rows + [t];
    forall i, j | 0 <= i < j < |r| ensures r[i].id < r[j].id && r[i].createdAt < r[j].createdAt {
      assert r[i] == rows[i];
      if j == |rows| { assert rows[i] in rows; } else { assert r[j] == rows[j]; }
    }
  }

  /**
   * Inserting a row with a fresh, larger id, a later creation time and an
   * unused name keeps the table well formed; the new id finds the new row and
   * every other lookup is unchanged.
   */
  lemma AppendKeepsTable(rows: seq<Task>, t: Task)
    requires WellFormed(rows) && t.id >= 1 && !NameTaken(rows, t.name)
    requires forall u :: u in rows ==> u.id < t.id && u.createdAt < t.createdAt
    ensures WellFormed(rows + [t])
    ensures Find(rows + [t], t.id) == Some(t)
    ensures forall other :: other != t.id ==> Find(rows + [t], other) == Find(rows, other)
  {
    var r := rows + [t];
    AppendKeepsOrder(rows, t);
    assert forall x :: x in r <==> x in rows || x == t;
    FindUnique(r, t);
    forall other | other != t.id ensures Find(r, other) == Find(rows, other) {
      if Find(rows, other).Some? {
        FindUnique(r, Find(rows, other).value);
      }
    }
  }
}
