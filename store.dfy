/** The backend's database and its request handlers: the User, Connection, Task and
    TaskAssignment tables are fields of one store, and each handler is a method that
    runs the source's checks in order and then writes. Calendar synchronisation is a
    no-op; the clock and new task ids are parameters. */
module Tasker {
  import opened Domain
  import opened Text
  import opened Seqs
  import opened ConnectionGraph
  import opened Tables
  import opened TaskRules
  import opened TaskViews
  import opened UserUpdate

  /** The error a spec function's outcome reports, if any. */
  function ErrorOf<T>(r: Result<T>): (e: Option<Error>)
    ensures e.None? <==> r.Ok?
    ensures r.Err? ==> e == Some(r.error)
  {
    if r.Ok? then None else Some(r.error)
  }

  /** The Connection table after an outcome: the new table, or the old one on failure. */
  function RowsAfter(r: Result<Rows>, rows: Rows): (r': Rows)
    ensures r.Ok? ==> r' == r.value
    ensures r.Err? ==> r' == rows
  {
    if r.Ok? then r.value else rows
  }

  class Store {
    var users: map<UserId, User>
    var connections: Rows
    var tasks: seq<Task>
    var assignments: seq<Assignment>
    /** The id the next assignment row receives, standing in for uuidv4. */
    var nextAssignmentId: nat

    /** The database's keys and foreign keys. */
    predicate Valid()
      reads this
    {
      TablesWellformed(tasks, assignments, nextAssignmentId)
    }

    /** What the handlers keep beyond the database's own constraints: one row per pair of
        users, an assignee for every task, a title with text on every task. */
    ghost predicate Invariant()
      reads this
    {
      PairUnique(connections) && EveryTaskAssigned(tasks, assignments) && TitlesNonBlank(tasks)
    }

    constructor ()
      ensures users == map[] && connections == map[] && tasks == [] && assignments == []
      ensures nextAssignmentId == 0
      ensures Valid() && Invariant()
    {
      users := map[];
      connections := map[];
      tasks := [];
      assignments := [];
      nextAssignmentId := 0;
    }

    // ----- connection.ts -----

    /** createUserConnection (connection.ts:14-45). */
    method CreateUserConnection(requestee: UserId, requester: UserId) returns (err: Option<Error>)
      modifies this`connections
      ensures err == ErrorOf(CreateConnection(old(connections), requestee, requester))
      ensures connections == RowsAfter(CreateConnection(old(connections), requestee, requester), old(connections))
    {
      if requestee == requester {
        return Some(ApiError("create_connection/connect_to_self"));
      }
      if Pair(requester, requestee) in connections || Pair(requestee, requester) in connections {
        return Some(ApiError("create_connection/connection_exists"));
      }
      connections := connections[Pair(requester, requestee) := false];
      return None;
    }

    /** deleteUserConnection (connection.ts:48-75): the row found in either direction is
        deleted. */
    method DeleteUserConnection(requestee: UserId, requester: UserId) returns (err: Option<Error>)
      modifies this`connections
      ensures err == ErrorOf(DeleteConnection(old(connections), requestee, requester))
      ensures connections == RowsAfter(DeleteConnection(old(connections), requestee, requester), old(connections))
    {
      if requestee == requester {
        return Some(ApiError("delete_connection/connect_to_self"));
      }
      var found: Option<Pair> :=
        if Pair(requester, requestee) in connections then Some(Pair(requester, requestee))
        else if Pair(requestee, requester) in connections then Some(Pair(requestee, requester))
        else None;
      if found.None? {
        return Some(ApiError("delete_connection/connection_not_exists"));
      }
      connections := connections - {found.value};
      return None;
    }

    /** acceptRequest (connection.ts:78-88): set `accepted` on the row from `requester`. */
    method AcceptRequest(requestee: UserId, requester: UserId) returns (err: Option<Error>)
      modifies this`connections
      ensures err == ErrorOf(AcceptConnection(old(connections), requestee, requester))
      ensures connections == RowsAfter(AcceptConnection(old(connections), requestee, requester), old(connections))
    {
      var conn := Pair(requester, requestee);
      if conn !in connections {
        return Some(UnknownError);
      }
      connections := connections[conn := true];
      return None;
    }

    /** declineRequest (connection.ts:92-101); deleteRequest (137-146) is the same code. */
    method DeclineRequest(requestee: UserId, requester: UserId) returns (err: Option<Error>)
      modifies this`connections
      ensures err == ErrorOf(DeclineConnection(old(connections), requestee, requester))
      ensures connections == RowsAfter(DeclineConnection(old(connections), requestee, requester), old(connections))
    {
      var conn := Pair(requester, requestee);
      if conn !in connections {
        return Some(UnknownError);
      }
      connections := connections - {conn};
      return None;
    }

    // ----- task-helpers.ts -----

    /** validAssignees (task-helpers.ts:6-18): every assignee is the editor or connected. */
    method ValidAssignees(editor: UserId, assignees: seq<UserId>) returns (ok: bool)
      ensures ok <==> AllAssignable(connections, editor, assignees)
    {
      for i := 0 to |assignees|
        invariant forall k :: 0 <= k < i ==> CanAssign(connections, editor, assignees[k])
      {
        if StatusOf(connections, editor, assignees[i]) != Connected && editor != assignees[i] {
          return false;
        }
      }
      return true;
    }

    /** deleteAssignment (task-helpers.ts:20-23): delete the row with this key. */
    method DeleteAssignment(id: AssignmentId)
      modifies this`assignments
      ensures assignments == Without(old(assignments), IdRows(old(assignments), {id}))
      ensures forall a :: a in assignments <==> a in old(assignments) && a.id != id
    {
      assignments := Without(assignments, IdRows(assignments, {id}));
    }

    /** deleteAssignmentByTaskAndUserId (task-helpers.ts:33-39): delete every row pairing
        this task with this user. */
    method DeleteAssignmentByTaskAndUserId(taskId: TaskId, user: UserId)
      modifies this`assignments
      ensures assignments == Without(old(assignments), TaskUserRows(old(assignments), taskId, {user}))
      ensures AssigneeSet(assignments, taskId) == old(AssigneeSet(assignments, taskId)) - {user}
      ensures forall t :: t != taskId ==> AssigneeSet(assignments, t) == old(AssigneeSet(assignments, t))
    {
      ghost var rows0 := assignments;
      assignments := Without(assignments, TaskUserRows(assignments, taskId, {user}));
      DropAssignees(rows0, taskId, {user}, taskId);
      forall t | t != taskId ensures AssigneeSet(assignments, t) == AssigneeSet(rows0, t) {
        DropAssignees(rows0, taskId, {user}, t);
      }
    }

    // ----- task-create.ts -----

    /** createTask (task-create.ts:11-186). `newId` is the uuid drawn for the task. */
    method CreateTask(now: int, newId: TaskId, creator: UserId, title: string, deadline: DateArg,
                      status: string, assignees: Option<seq<UserId>>, project: Option<string>,
                      description: Option<string>, estimatedDays: Option<real>) returns (r: Result<TaskId>)
      requires Valid() && newId !in TaskIds(tasks)
      modifies this`tasks, this`assignments, this`nextAssignmentId
      ensures Valid()
      ensures ErrorOf(r) == CreateTaskError(old(users).Keys, old(connections), now, creator, title, deadline,
                                            status, assignees, estimatedDays)
      ensures r.Err? ==> (tasks == old(tasks) && assignments == old(assignments)
                          && nextAssignmentId == old(nextAssignmentId))
      ensures r.Ok? ==> (&& deadline.Instant? && ParseStatus(status).Some?
                         && r.value == newId
                         && tasks == old(tasks) + [Task(newId, creator, title, description, deadline.ms,
                                                        ParseStatus(status).value, estimatedDays, project)]
                         && assignments == old(assignments)
                                           + NewRows(old(nextAssignmentId), newId, InitialAssignees(creator, assignees))
                         && nextAssignmentId == old(nextAssignmentId) + |InitialAssignees(creator, assignees)|
                         && AssigneeSet(assignments, newId) == Elems(InitialAssignees(creator, assignees)))
      ensures old(Invariant()) ==> Invariant()
    {
      var check := CreateTaskCheck(users.Keys, now, creator, title, deadline, status, estimatedDays);
      if check.Some? {
        return Err(check.value);
      }
      var task := Task(newId, creator, title, description, deadline.ms, ParseStatus(status).value,
                       estimatedDays, project);
      if assignees.None? || |assignees.value| == 0 {
        CreateKeepsTables(tasks, assignments, nextAssignmentId, task, [creator]);
        assert NewRows(nextAssignmentId, newId, [creator]) == [Assignment(nextAssignmentId, newId, creator)];
        tasks := tasks + [task];
        assignments := assignments + [Assignment(nextAssignmentId, newId, creator)];
        nextAssignmentId := nextAssignmentId + 1;
        return Ok(newId);
      }
      var xs := assignees.value;
      var ok := ValidAssignees(creator, xs);
      if !ok {
        return Err(ApiError("createTask/invalid_assignees"));
      }
      CreateKeepsTables(tasks, assignments, nextAssignmentId, task, xs);
      tasks := tasks + [task];
      SaveAssignments(newId, xs);
      return Ok(newId);
    }

    /** The loop of task-create.ts:167-174: one row per listed user, in list order, each
        with a fresh id. */
    method SaveAssignments(taskId: TaskId, xs: seq<UserId>)
      modifies this`assignments, this`nextAssignmentId
      ensures assignments == old(assignments) + NewRows(old(nextAssignmentId), taskId, xs)
      ensures nextAssignmentId == old(nextAssignmentId) + |xs|
    {
      for i := 0 to |xs|
        invariant assignments == old(assignments) + NewRows(old(nextAssignmentId), taskId, xs[..i])
        invariant nextAssignmentId == old(nextAssignmentId) + i
      {
        AppendNewRow(assignments, old(assignments), old(nextAssignmentId), nextAssignmentId, taskId, xs[..i], xs[i]);
        assert xs[..i + 1] == xs[..i] + [xs[i]];
        assignments := assignments + [Assignment(nextAssignmentId, taskId, xs[i])];
        nextAssignmentId := nextAssignmentId + 1;
      }
      assert xs[..|xs|] == xs;
    }

    // ----- task-edit.ts -----

    /** editTask (task-edit.ts:13-180), with the title written only when it has text. */
    method EditTask(now: int, taskId: TaskId, editor: UserId, title: string, deadline: DateArg,
                    status: string, add: Option<seq<UserId>>, remove: Option<seq<UserId>>,
                    description: Option<string>, estimatedDays: Option<real>) returns (err: Option<Error>)
      requires Valid()
      modifies this`tasks, this`assignments, this`nextAssignmentId
      ensures Valid()
      ensures err == EditTaskError(old(tasks), old(connections), old(assignments), now, taskId, editor, title,
                                   deadline, status, add, remove, description, estimatedDays)
      ensures err.Some? ==> (tasks == old(tasks) && assignments == old(assignments)
                             && nextAssignmentId == old(nextAssignmentId))
      ensures err.None? ==> (&& FindTask(old(tasks), taskId).Some?
                             && (status != "" ==> ParseStatus(status).Some?)
                             && var k := FindTask(old(tasks), taskId).value;
                                tasks == old(tasks)[k := ApplyEdits(old(tasks)[k], title, deadline, status,
                                                                    description, estimatedDays)])
      ensures err.None? && NoAssigneeChange(add, remove) ==>
        assignments == old(assignments) && nextAssignmentId == old(nextAssignmentId)
      ensures err.None? && !NoAssigneeChange(add, remove) ==> (
        && assignments == EditedRows(old(assignments), old(nextAssignmentId), taskId, editor, OrEmpty(add), OrEmpty(remove))
        && nextAssignmentId == EditedNext(old(assignments), old(nextAssignmentId), taskId, OrEmpty(add), OrEmpty(remove)))
      ensures old(Invariant()) ==> Invariant()
    {
      var check := EditTaskCheck(now, taskId, editor, title, deadline, status, add, remove, description, estimatedDays);
      if check.Some? {
        return check;
      }
      var found := FindTask(tasks, taskId);
      if found.None? {
        return Some(ApiError("editTask/task_id_nonexistent"));
      }
      var k := found.value;
      if tasks[k].creator != editor {
        return Some(ApiError("editTask/no_perm"));
      }
      var edited := ApplyEdits(tasks[k], title, deadline, status, description, estimatedDays);
      err := WriteEdit(k, edited, editor, add, remove);
    }

    /** Lines 135-179 of editTask, once the task is found and owned by the editor: with
        no assignee change only the task is written, otherwise the assignee checks run and
        then the task and assignment writes. */
    method WriteEdit(k: nat, edited: Task, editor: UserId, add: Option<seq<UserId>>,
                     remove: Option<seq<UserId>>) returns (err: Option<Error>)
      requires Valid() && k < |tasks| && edited.id == tasks[k].id
      requires HasText(tasks[k].title) ==> HasText(edited.title)
      modifies this`tasks, this`assignments, this`nextAssignmentId
      ensures Valid()
      ensures var t := old(tasks)[k].id;
        err == if NoAssigneeChange(add, remove) then None
               else if add.Some? && !AllAssignable(connections, editor, add.value)
               then Some(ApiError("editTask/invalid_add_assignees"))
               else if remove.Some? && !(forall x :: x in remove.value ==> x in AssigneesOf(old(assignments), t))
               then Some(ApiError("editTask/invalid_remove_assignees"))
               else None
      ensures err.Some? ==> (tasks == old(tasks) && assignments == old(assignments)
                             && nextAssignmentId == old(nextAssignmentId))
      ensures err.None? ==> tasks == old(tasks)[k := edited]
      ensures err.None? && NoAssigneeChange(add, remove) ==>
        assignments == old(assignments) && nextAssignmentId == old(nextAssignmentId)
      ensures err.None? && !NoAssigneeChange(add, remove) ==> (
        var t := old(tasks)[k].id;
        && assignments == EditedRows(old(assignments), old(nextAssignmentId), t, editor, OrEmpty(add), OrEmpty(remove))
        && nextAssignmentId == EditedNext(old(assignments), old(nextAssignmentId), t, OrEmpty(add), OrEmpty(remove)))
      ensures old(Invariant()) ==> Invariant()
    {
      ReplaceTask(tasks, k, edited);
      ReplaceKeepsInvariants(tasks, assignments, k, edited);
      if NoAssigneeChange(add, remove) {
        tasks := tasks[k := edited];
        return None;
      }
      err := ChangeAssignees(k, edited, editor, add, remove);
    }

    /** Lines 135-176 of editTask: the assignee checks, then the task and assignment
        writes, for an edit that changes the assignees of `tasks[k]`. */
    method ChangeAssignees(k: nat, edited: Task, editor: UserId, add: Option<seq<UserId>>,
                           remove: Option<seq<UserId>>) returns (err: Option<Error>)
      requires Valid() && k < |tasks| && edited.id == tasks[k].id
      modifies this`tasks, this`assignments, this`nextAssignmentId
      ensures var t := old(tasks)[k].id;
        err == if add.Some? && !AllAssignable(connections, editor, add.value)
               then Some(ApiError("editTask/invalid_add_assignees"))
               else if remove.Some? && !(forall x :: x in remove.value ==> x in AssigneesOf(old(assignments), t))
               then Some(ApiError("editTask/invalid_remove_assignees"))
               else None
      ensures err.Some? ==> (tasks == old(tasks) && assignments == old(assignments)
                             && nextAssignmentId == old(nextAssignmentId))
      ensures err.None? ==> (
        var t := old(tasks)[k].id;
        && tasks == old(tasks)[k := edited]
        && assignments == EditedRows(old(assignments), old(nextAssignmentId), t, editor, OrEmpty(add), OrEmpty(remove))
        && nextAssignmentId == EditedNext(old(assignments), old(nextAssignmentId), t, OrEmpty(add), OrEmpty(remove))
        && Valid()
        && (EveryTaskAssigned(old(tasks), old(assignments)) ==> EveryTaskAssigned(tasks, assignments)))
    {
      var taskId := tasks[k].id;
      if add.Some? {
        var ok := ValidAssignees(editor, add.value);
        if !ok {
          return Some(ApiError("editTask/invalid_add_assignees"));
        }
      }
      var current := UsersOf(RowsOf(assignments, taskId));
      if remove.Some? {
        var ok := UsersAreAssigned(remove.value, current);
        if !ok {
          return Some(ApiError("editTask/invalid_remove_assignees"));
        }
      }
      WriteAssignees(k, edited, editor, add, remove, current);
      return None;
    }

    /** Lines 155-176, once the assignee checks have passed: write the task, reconcile
        the rows, and assign the editor when nobody is left. */
    method WriteAssignees(k: nat, edited: Task, editor: UserId, add: Option<seq<UserId>>,
                          remove: Option<seq<UserId>>, current: seq<UserId>)
      requires Valid() && k < |tasks| && edited.id == tasks[k].id
      requires current == AssigneesOf(assignments, tasks[k].id)
      requires forall x :: x in OrEmpty(remove) ==> x in current
      modifies this`tasks, this`assignments, this`nextAssignmentId
      ensures var t := old(tasks)[k].id;
        && tasks == old(tasks)[k := edited]
        && assignments == EditedRows(old(assignments), old(nextAssignmentId), t, editor, OrEmpty(add), OrEmpty(remove))
        && nextAssignmentId == EditedNext(old(assignments), old(nextAssignmentId), t, OrEmpty(add), OrEmpty(remove))
        && Valid()
        && (EveryTaskAssigned(old(tasks), old(assignments)) ==> EveryTaskAssigned(tasks, assignments))
    {
      var taskId := tasks[k].id;
      EditKeepsTables(tasks, assignments, nextAssignmentId, k, edited, editor, OrEmpty(add), OrEmpty(remove));
      tasks := tasks[k := edited];
      UpdateAssignments(add, remove, taskId, current);
      FallbackRow(old(assignments), old(nextAssignmentId), taskId, editor, OrEmpty(add), OrEmpty(remove),
                  assignments, nextAssignmentId);
      var assignees := GetNewAssignees(current, add, remove);
      if |assignees| == 0 {
        assignments := assignments + [Assignment(nextAssignmentId, taskId, editor)];
        nextAssignmentId := nextAssignmentId + 1;
      }
    }

    /** updateAssignments (task-edit.ts:182-209): save a row for each added id that is not
        a current assignee, then delete the rows of each removed id that is one. */
    method UpdateAssignments(add: Option<seq<UserId>>, remove: Option<seq<UserId>>, taskId: TaskId,
                             current: seq<UserId>)
      requires current == AssigneesOf(assignments, taskId)
      modifies this`assignments, this`nextAssignmentId
      ensures assignments == KeptRows(old(assignments), old(nextAssignmentId), taskId, OrEmpty(add), OrEmpty(remove))
      ensures nextAssignmentId == old(nextAssignmentId) + |AddedRows(old(assignments), old(nextAssignmentId), taskId, OrEmpty(add))|
    {
      AddAssignees(taskId, OrEmpty(add), current);
      RemoveAssignees(taskId, OrEmpty(remove), current);
    }

    /** The first loop of updateAssignments (lines 188-200). */
    method AddAssignees(taskId: TaskId, xs: seq<UserId>, current: seq<UserId>)
      modifies this`assignments, this`nextAssignmentId
      ensures assignments == old(assignments) + NewRows(old(nextAssignmentId), taskId, Without(xs, Elems(current)))
      ensures nextAssignmentId == old(nextAssignmentId) + |Without(xs, Elems(current))|
    {
      var cs := Elems(current);
      ghost var added: seq<UserId> := [];
      for i := 0 to |xs|
        invariant added == Without(xs[..i], cs)
        invariant assignments == old(assignments) + NewRows(old(nextAssignmentId), taskId, added)
        invariant nextAssignmentId == old(nextAssignmentId) + |added|
      {
        WithoutSnoc(xs, i, cs);
        if xs[i] !in cs {
          AppendNewRow(assignments, old(assignments), old(nextAssignmentId), nextAssignmentId, taskId, added, xs[i]);
          assignments := assignments + [Assignment(nextAssignmentId, taskId, xs[i])];
          nextAssignmentId := nextAssignmentId + 1;
          added := added + [xs[i]];
        } else {
          assert added + [] == added;
        }
      }
      assert xs[..|xs|] == xs;
    }

    /** The second loop of updateAssignments (lines 201-207). */
    method RemoveAssignees(taskId: TaskId, ys: seq<UserId>, current: seq<UserId>)
      modifies this`assignments
      ensures assignments == Without(old(assignments), TaskUserRows(old(assignments), taskId, Elems(ys) * Elems(current)))
    {
      ghost var rows0 := assignments;
      var cs := Elems(current);
      WithoutNone(rows0, TaskUserRows(rows0, taskId, {}));
      assert Elems(ys[..0]) * cs == {};
      for i := 0 to |ys|
        invariant assignments == Without(rows0, TaskUserRows(rows0, taskId, Elems(ys[..i]) * cs))
      {
        assert Elems(ys[..i + 1]) == Elems(ys[..i]) + {ys[i]} by {
          assert ys[..i + 1] == ys[..i] + [ys[i]];
        }
        if ys[i] in current {
          DropUserMore(rows0, taskId, Elems(ys[..i]) * cs, ys[i]);
          assert Elems(ys[..i + 1]) * cs == Elems(ys[..i]) * cs + {ys[i]};
          DeleteAssignmentByTaskAndUserId(taskId, ys[i]);
        } else {
          assert Elems(ys[..i + 1]) * cs == Elems(ys[..i]) * cs;
        }
      }
      assert ys[..|ys|] == ys;
    }

    // ----- task-delete.ts -----

    /** deleteTask (task-delete.ts:4-37): delete the task's rows one key at a time, then
        the task. */
    method DeleteTask(deletor: UserId, taskId: TaskId) returns (err: Option<Error>)
      requires Valid()
      modifies this`tasks, this`assignments
      ensures Valid()
      ensures err == DeleteTaskError(old(tasks), old(assignments), deletor, taskId)
      ensures err.Some? ==> tasks == old(tasks) && assignments == old(assignments)
      ensures err.None? ==> (&& FindTask(old(tasks), taskId).Some?
                             && var k := FindTask(old(tasks), taskId).value;
                                tasks == old(tasks)[..k] + old(tasks)[k + 1..])
      ensures err.None? ==> (&& assignments == Without(old(assignments), TaskRows(old(assignments), taskId))
                             && taskId !in TaskIds(tasks) && RowsOf(assignments, taskId) == []
                             && forall t :: t in tasks ==> AssigneeSet(assignments, t.id) == old(AssigneeSet(assignments, t.id)))
      ensures old(Invariant()) ==> Invariant()
    {
      var toRemove := RowsOf(assignments, taskId);
      if |toRemove| == 0 {
        return Some(ApiError("deleteTask/invalid_task_id"));
      }
      assert toRemove[0] in assignments;
      var k := FindTask(tasks, toRemove[0].task).value;
      if tasks[k].creator != deletor {
        return Some(ApiError("deleteTask/invalid_delete"));
      }
      DropTask(k, toRemove);
      return None;
    }

    /** Lines 28-36 of deleteTask: the task's rows are deleted one key at a time, then the
        task itself. */
    method DropTask(k: nat, toRemove: seq<Assignment>)
      requires Valid() && k < |tasks| && toRemove == RowsOf(assignments, tasks[k].id)
      modifies this`tasks, this`assignments
      ensures Valid()
      ensures tasks == old(tasks)[..k] + old(tasks)[k + 1..]
      ensures var id := old(tasks)[k].id;
        && assignments == Without(old(assignments), TaskRows(old(assignments), id))
        && id !in TaskIds(tasks) && RowsOf(assignments, id) == []
        && forall t :: t in tasks ==> AssigneeSet(assignments, t.id) == old(AssigneeSet(assignments, t.id))
      ensures old(Invariant()) ==> Invariant()
    {
      ghost var rows0 := assignments;
      DeleteKeepsTables(tasks, rows0, nextAssignmentId, k);
      DeleteAssignments(toRemove);
      IdRowsOfTask(rows0, tasks[k].id);
      tasks := tasks[..k] + tasks[k + 1..];
    }

    /** The loop of task-delete.ts:31-33: deleteAssignment for each row's key. */
    method DeleteAssignments(rs: seq<Assignment>)
      modifies this`assignments
      ensures assignments == Without(old(assignments), IdRows(old(assignments), IdsOf(rs)))
    {
      ghost var rows0 := assignments;
      WithoutNone(rows0, IdRows(rows0, {}));
      assert IdsOf(rs[..0]) == {};
      for i := 0 to |rs|
        invariant assignments == Without(rows0, IdRows(rows0, IdsOf(rs[..i])))
      {
        DropNextKey(rows0, rs, i, assignments);
        DeleteAssignment(rs[i].id);
      }
      assert rs[..|rs|] == rs;
    }

    // ----- get-task.ts -----

    /** getTask (get-task.ts:8-48). Reads the tables and changes nothing. */
    method GetTask(viewer: UserId, taskId: TaskId) returns (r: Result<TaskView>)
      ensures r == GetTaskResult(tasks, connections, assignments, viewer, taskId)
    {
      if viewer == "" {
        return Err(ApiError("getTask/invalid_user_id"));
      }
      if taskId == "" {
        return Err(ApiError("getTask/invalid_task_id"));
      }
      var rs := RowsOf(assignments, taskId);
      if |rs| == 0 {
        return Err(ApiError("getTask/task_id_nonexistent"));
      }
      var found := FindTask(tasks, taskId);
      if found.None? {
        return Err(UnknownError);
      }
      var task := tasks[found.value];
      if viewer != task.creator {
        var connected := ConnectedToAnAssignee(viewer, rs);
        if !connected {
          return Err(ApiError("getTask/no_perm"));
        }
      }
      var assignees := PushAssignees(rs);
      return Ok(TaskView(task, assignees));
    }

    /** Lines 42-45: the user of every row, in row order. */
    static method PushAssignees(rs: seq<Assignment>) returns (assignees: seq<UserId>)
      ensures assignees == UsersOf(rs)
    {
      assignees := [];
      for i := 0 to |rs|
        invariant |assignees| == i && forall j :: 0 <= j < i ==> assignees[j] == rs[j].user
      {
        assignees := assignees + [rs[i].user];
      }
    }

    /** connectedToAnAssignee (get-task.ts:50-61): the first row whose user has an
        accepted connection with the viewer ends the scan. */
    method ConnectedToAnAssignee(viewer: UserId, rs: seq<Assignment>) returns (b: bool)
      ensures b <==> ConnectedToAssignee(connections, viewer, UsersOf(rs))
    {
      for i := 0 to |rs|
        invariant forall j :: 0 <= j < i ==> StatusOf(connections, viewer, UsersOf(rs)[j]) != Connected
      {
        if StatusOf(connections, viewer, rs[i].user) == Connected {
          assert UsersOf(rs)[i] == rs[i].user;
          return true;
        }
      }
      return false;
    }

    // ----- get-profile-tasks.ts -----

    /** getProfileTasks (get-profile-tasks.ts:8-77). Reads the tables and changes nothing. */
    method GetProfileTasks(viewer: UserId, profile: UserId) returns (r: Result<seq<TaskView>>)
      requires Valid()
      ensures r == ProfileTasksResult(tasks, connections, assignments, viewer, profile)
    {
      if viewer == "" {
        return Err(ApiError("getProfileTasks/invalid_user_id"));
      }
      if profile == "" {
        return Err(ApiError("getProfileTasks/invalid_profile_user_id"));
      }
      if viewer != profile && StatusOf(connections, viewer, profile) != Connected {
        return Err(ApiError("getProfileTasks/no_perm"));
      }
      var own := RowsOfUser(assignments, profile);
      if |own| == 0 {
        return Ok([]);
      }
      var views := ProfileAssignees(profile, own);
      return Ok(SortBy(ByDeadlineThenTitle, views));
    }

    /** Lines 41-63 of getProfileTasks: the tasks of the profile user's rows, each with
        the users of its rows among all rows of those tasks. */
    method ProfileAssignees(profile: UserId, own: seq<Assignment>) returns (views: seq<TaskView>)
      requires RowTasksExist(assignments, tasks) && own == RowsOfUser(assignments, profile)
      ensures views == ProfileViews(tasks, assignments, profile)
    {
      var ids := set a | a in own :: a.task;
      var related := RowsIn(assignments, ids);
      var ts := RowTasks(tasks, own);
      views := [];
      for i := 0 to |ts|
        invariant views == ViewsOf(assignments, ts[..i])
      {
        assert ts[i].id == own[i].task && own[i] in own;
        RowsOfRowsIn(assignments, ids, ts[i].id);
        var assignees := CollectAssignees(related, ts[i].id);
        ViewsOfSnoc(assignments, ts, i, views, TaskView(ts[i], assignees));
        views := views + [TaskView(ts[i], assignees)];
      }
      assert ts[..|ts|] == ts;
    }

    /** The inner loop of get-profile-tasks.ts:58-62: the users of the rows of task `t`,
        in row order. */
    static method CollectAssignees(rs: seq<Assignment>, t: TaskId) returns (us: seq<UserId>)
      ensures us == UsersOf(RowsOf(rs, t))
    {
      us := [];
      for j := 0 to |rs|
        invariant us == UsersOf(RowsOf(rs[..j], t))
      {
        CollectStep(rs, j, t, us);
        if rs[j].task == t {
          us := us + [rs[j].user];
        }
      }
      assert rs[..|rs|] == rs;
    }

    // ----- task-search.ts -----

    /** taskSearch (task-search.ts:11-166) on the current tables: both queries, then
        the assignees attached to each task found (lines 141-154), then the sort. */
    method TaskSearch(me: UserId, p: SearchParams) returns (r: seq<TaskView>)
      ensures r == TaskViews.TaskSearch(tasks, assignments, me, p)
    {
      var filter := BuildFilter(p);
      if filter.None? {
        return [];
      }
      var found := SearchUnion(tasks, assignments, me, p, filter.value);
      var views := AttachAssignees(found);
      return SortBy(ByDeadline, views);
    }

    /** Lines 141-154: the rows of the found tasks are read at once, and each task gets
        the users of its rows among them. */
    method AttachAssignees(found: seq<Task>) returns (views: seq<TaskView>)
      ensures views == ViewsOf(assignments, found)
    {
      var ids := TaskIds(found);
      var related := RowsIn(assignments, ids);
      views := [];
      for i := 0 to |found|
        invariant views == ViewsOf(assignments, found[..i])
      {
        assert found[i].id in ids;
        RowsOfRowsIn(assignments, ids, found[i].id);
        var assignees := UsersOf(RowsOf(related, found[i].id));
        ViewsOfSnoc(assignments, found, i, views, TaskView(found[i], assignees));
        views := views + [TaskView(found[i], assignees)];
      }
      assert found[..|found|] == found;
    }

    // ----- users-update.ts -----

    /** updateUser (users-update.ts:13-76): the errors a change raises before awaiting,
        in key order; then a new email already in use; then the update of the row, which
        fails on an empty change set and on an unknown id. */
    method UpdateUser(id: UserId, changes: seq<Change>, hash: string -> string, emailValid: string -> bool)
      returns (err: Option<Error>)
      modifies this`users
      ensures err == ErrorOf(UpdateOutcome(old(users), id, changes, hash, emailValid))
      ensures users == if err.None? then old(users)[id := UpdateOutcome(old(users), id, changes, hash, emailValid).value]
                       else old(users)
      ensures old(EmailsUnique(users)) && KeysDistinct(changes) ==> EmailsUnique(users)
    {
      for i := 0 to |changes|
        invariant forall k :: 0 <= k < i ==> ChangeError(changes[k], emailValid).None?
      {
        var e := ChangeError(changes[i], emailValid);
        if e.Some? {
          FirstErrorAt(changes, emailValid, i);
          return e;
        }
      }
      for i := 0 to |changes|
        invariant forall k :: 0 <= k < i ==> !(changes[k].key == "email" && EmailInUse(users, changes[k].value))
      {
        if changes[i].key == "email" && EmailInUse(users, changes[i].value) {
          return Some(ApiError("user_update/email_exists"));
        }
      }
      if |changes| == 0 {
        return Some(UnknownError);
      }
      if id !in users {
        return Some(ApiError("user_update/no_user"));
      }
      var row := users[id];
      for i := 0 to |changes|
        invariant Apply(row, changes[i..], hash) == Apply(users[id], changes, hash)
      {
        assert changes[i..][1..] == changes[i + 1..];
        row := ApplyOne(row, changes[i], hash);
      }
      assert Apply(row, changes[|changes|..], hash) == row;
      if EmailsUnique(users) && KeysDistinct(changes) {
        UpdateKeepsEmailsUnique(users, id, changes, hash, emailValid);
      }
      users := users[id := row];
      return None;
    }
  }
}
