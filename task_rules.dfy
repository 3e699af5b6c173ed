/** The pure side of the task operations: the ordered validation chains of createTask
    and editTask, the authorisation predicates, and the reconciliation of assignee lists
    (task-helpers.ts, task-create.ts, task-edit.ts, get-task.ts, get-profile-tasks.ts). */
module TaskRules {
  import opened Domain
  import opened Text
  import opened Seqs
  import opened ConnectionGraph
  import opened Tables

  // ----- authorisation -----

  /** validAssignees' test for one assignee: the editor themself, or connected. */
  predicate CanAssign(rows: Rows, editor: UserId, x: UserId)
  {
    StatusOf(rows, editor, x) == Connected || editor == x
  }

  predicate AllAssignable(rows: Rows, editor: UserId, xs: seq<UserId>)
  {
    forall i :: 0 <= i < |xs| ==> CanAssign(rows, editor, xs[i])
  }

  /** Only an accepted connection qualifies: a pending request, in either direction,
      does not make anyone assignable. */
  lemma CanAssignNeedsAcceptance(rows: Rows, editor: UserId, x: UserId)
    requires PairUnique(rows)
    ensures CanAssign(rows, editor, x) <==> x == editor || AcceptedBetween(rows, editor, x)
    ensures PendingBetween(rows, editor, x) && x != editor ==> !CanAssign(rows, editor, x)
  {
    StatusSymmetric(rows, editor, x);
    if PendingBetween(rows, editor, x) && Pair(x, editor) in rows {
      assert Flip(Pair(x, editor)) == Pair(editor, x);
    }
  }

  /** connectedToAnAssignee's test: some assignee is connected to the viewer. */
  predicate ConnectedToAssignee(rows: Rows, viewer: UserId, assignees: seq<UserId>)
  {
    exists i :: 0 <= i < |assignees| && StatusOf(rows, viewer, assignees[i]) == Connected
  }

  /** getTask's access rule: the creator, or someone connected to an assignee. */
  predicate CanView(rows: Rows, viewer: UserId, creator: UserId, assignees: seq<UserId>)
  {
    viewer == creator || ConnectedToAssignee(rows, viewer, assignees)
  }

  /** Access needs an accepted connection to an assignee; being an assignee oneself does
      not count, and without any accepted row touching the viewer only the creator may look. */
  lemma ViewNeedsAcceptedConnection(rows: Rows, viewer: UserId, creator: UserId, assignees: seq<UserId>)
    requires PairUnique(rows)
    ensures CanView(rows, viewer, creator, assignees)
        <==> viewer == creator || exists i :: 0 <= i < |assignees| && AcceptedBetween(rows, viewer, assignees[i])
    ensures (forall u :: !AcceptedBetween(rows, viewer, u))
        ==> (CanView(rows, viewer, creator, assignees) <==> viewer == creator)
  {
    forall i | 0 <= i < |assignees|
      ensures StatusOf(rows, viewer, assignees[i]) == Connected <==> AcceptedBetween(rows, viewer, assignees[i])
    {
      StatusSymmetric(rows, viewer, assignees[i]);
    }
  }

  /** getProfileTasks' access rule. */
  predicate CanSeeProfile(rows: Rows, viewer: UserId, profile: UserId)
  {
    viewer == profile || StatusOf(rows, viewer, profile) == Connected
  }

  /** Either user may see the other's profile tasks exactly when an accepted row joins them. */
  lemma ProfileAccessSymmetric(rows: Rows, a: UserId, b: UserId)
    requires PairUnique(rows)
    ensures CanSeeProfile(rows, a, b) <==> CanSeeProfile(rows, b, a)
    ensures a != b ==> (CanSeeProfile(rows, a, b) <==> AcceptedBetween(rows, a, b))
  {
    StatusSymmetric(rows, a, b);
  }

  // ----- createTask -----

  /** The guard chain of createTask (lines 22-82; lines 84-131 repeat it and can no
      longer fail): the first failing check decides the error. */
  function CreateTaskCheck(users: set<UserId>, now: int, creator: UserId, title: string,
                           deadline: DateArg, status: string, estimatedDays: Option<real>): (r: Option<Error>)
    ensures r.None? <==>
      creator != "" && HasText(title) && deadline.Instant? && deadline.ms > now
      && ParseStatus(status).Some? && (estimatedDays.None? || estimatedDays.value >= 0.0)
      && creator in users
    ensures r == Some(ApiError("createTask/invalid_title")) <==> creator != "" && !HasText(title)
    ensures r == Some(ApiError("createTask/invalid_deadline")) <==>
      creator != "" && HasText(title) && !(deadline.Instant? && deadline.ms > now)
    ensures r == Some(ApiError("createTask/invalid_status")) <==>
      creator != "" && HasText(title) && deadline.Instant? && deadline.ms > now
      && ParseStatus(status).None?
    ensures r == Some(ApiError("createTask/invalid_estimated_days")) <==>
      creator != "" && HasText(title) && deadline.Instant? && deadline.ms > now
      && ParseStatus(status).Some? && estimatedDays.Some? && estimatedDays.value < 0.0
    ensures r == Some(ApiError("createTask/invalid_creator")) <==>
      creator == ""
      || (HasText(title) && deadline.Instant? && deadline.ms > now && ParseStatus(status).Some?
          && (estimatedDays.None? || estimatedDays.value >= 0.0) && creator !in users)
  {
    if creator == "" then Some(ApiError("createTask/invalid_creator"))
    else if !HasText(title) then Some(ApiError("createTask/invalid_title"))
    else if !deadline.Instant? then Some(ApiError("createTask/invalid_deadline"))
    else if deadline.ms <= now then Some(ApiError("createTask/invalid_deadline"))
    else if status == "" then Some(ApiError("createTask/invalid_status"))
    else if ParseStatus(status).None? then Some(ApiError("createTask/invalid_status"))
    else if estimatedDays.Some? && estimatedDays.value < 0.0 then Some(ApiError("createTask/invalid_estimated_days"))
    else if creator !in users then Some(ApiError("createTask/invalid_creator"))
    else None
  }

  /** The boundary cases the tests pin: a deadline equal to now is refused, an estimate
      of zero days is accepted. */
  lemma CreateTaskBoundaries(users: set<UserId>, now: int, creator: UserId, title: string, status: string)
    requires creator in users && creator != "" && HasText(title) && ParseStatus(status).Some?
    ensures CreateTaskCheck(users, now, creator, title, Instant(now), status, None)
         == Some(ApiError("createTask/invalid_deadline"))
    ensures CreateTaskCheck(users, now, creator, title, Instant(now + 1), status, Some(0.0)) == None
    ensures CreateTaskCheck(users, now, creator, title, Instant(now + 1), status, Some(-1.0))
         == Some(ApiError("createTask/invalid_estimated_days"))
  {
  }

  // ----- editTask -----

  /** The guard at lines 38-54: at least one editable field is provided. */
  predicate SomethingToEdit(title: string, deadline: DateArg, status: string,
                            add: Option<seq<UserId>>, remove: Option<seq<UserId>>,
                            description: Option<string>, estimatedDays: Option<real>)
  {
    HasText(title) || deadline != Missing || status != ""
    || description.Some? || estimatedDays.Some?
    || (add.Some? && |add.value| > 0) || (remove.Some? && |remove.value| > 0)
  }

  /** The checks of editTask that need no database (lines 25-87), first failure first. */
  function EditTaskCheck(now: int, taskId: TaskId, editor: UserId, title: string,
                         deadline: DateArg, status: string,
                         add: Option<seq<UserId>>, remove: Option<seq<UserId>>,
                         description: Option<string>, estimatedDays: Option<real>): (r: Option<Error>)
    ensures r.None? <==>
      taskId != "" && editor != ""
      && SomethingToEdit(title, deadline, status, add, remove, description, estimatedDays)
      && (status == "" || ParseStatus(status).Some?)
      && deadline != NotADate && (deadline.Instant? ==> deadline.ms > now)
      && (estimatedDays.None? || estimatedDays.value >= 0.0)
    ensures r == Some(ApiError("editTask/invalid_task_id")) <==> taskId == ""
    ensures r == Some(ApiError("editTask/invalid_editor")) <==> taskId != "" && editor == ""
    ensures r == Some(ApiError("editTask/bad_params")) <==>
      taskId != "" && editor != ""
      && !SomethingToEdit(title, deadline, status, add, remove, description, estimatedDays)
    ensures r == Some(ApiError("editTask/invalid_status")) <==>
      taskId != "" && editor != ""
      && SomethingToEdit(title, deadline, status, add, remove, description, estimatedDays)
      && status != "" && ParseStatus(status).None?
    ensures r == Some(ApiError("editTask/invalid_deadline")) <==>
      taskId != "" && editor != ""
      && SomethingToEdit(title, deadline, status, add, remove, description, estimatedDays)
      && (status == "" || ParseStatus(status).Some?)
      && (deadline == NotADate || (deadline.Instant? && deadline.ms <= now))
    ensures r == Some(ApiError("editTask/invalid_estimated_days")) <==>
      taskId != "" && editor != ""
      && SomethingToEdit(title, deadline, status, add, remove, description, estimatedDays)
      && (status == "" || ParseStatus(status).Some?)
      && deadline != NotADate && (deadline.Instant? ==> deadline.ms > now)
      && estimatedDays.Some? && estimatedDays.value < 0.0
  {
    if taskId == "" then Some(ApiError("editTask/invalid_task_id"))
    else if editor == "" then Some(ApiError("editTask/invalid_editor"))
    else if !SomethingToEdit(title, deadline, status, add, remove, description, estimatedDays)
    then Some(ApiError("editTask/bad_params"))
    else if status != "" && ParseStatus(status).None? then Some(ApiError("editTask/invalid_status"))
    else if deadline == NotADate then Some(ApiError("editTask/invalid_deadline"))
    else if deadline.Instant? && deadline.ms <= now then Some(ApiError("editTask/invalid_deadline"))
    else if estimatedDays.Some? && estimatedDays.value < 0.0
    then Some(ApiError("editTask/invalid_estimated_days"))
    else None
  }

  /** Lines 115-119 as written: each field is overwritten when the argument is truthy. */
  function ApplyEditsAsWritten(t: Task, title: string, deadline: DateArg, status: string,
                               description: Option<string>, estimatedDays: Option<real>): (r: Task)
    requires status != "" ==> ParseStatus(status).Some?
    ensures r.id == t.id && r.creator == t.creator && r.project == t.project
  {
    t.(title := if title != "" then title else t.title,
       deadline := if deadline.Instant? then deadline.ms else t.deadline,
       status := if status != "" then ParseStatus(status).value else t.status,
       description := if description.Some? && description.value != "" then description else t.description,
       estimatedDays := if estimatedDays.Some? && estimatedDays.value != 0.0 then estimatedDays else t.estimatedDays)
  }

  /** A blank title slips through: the guard counts " " as no title, but a status makes the
      edit valid and the truthiness test then stores the blank title. */
  lemma AsWrittenEditStoresBlankTitle()
    ensures var t := Task("t1", "u1", "Plan", None, 10, ToDo, None, None);
      && EditTaskCheck(0, "t1", "u1", " ", Missing, "DONE", None, None, None, None) == None
      && HasText(t.title)
      && !HasText(ApplyEditsAsWritten(t, " ", Missing, "DONE", None, None).title)
  {
    assert TrimStart(" ") == TrimStart(" "[1..]) == [];
    assert !HasText(" ");
    assert TrimStart("DONE") == "DONE";
    assert HasText("Plan") by {
      assert TrimStart("Plan") == "Plan";
      assert TrimEnd("Plan") == "Plan";
    }
  }

  /** Lines 115-119 with the title overwritten only when it has text, as the guard and
      createTask intend; the other fields follow the source's truthiness tests. */
  function ApplyEdits(t: Task, title: string, deadline: DateArg, status: string,
                      description: Option<string>, estimatedDays: Option<real>): (r: Task)
    requires status != "" ==> ParseStatus(status).Some?
    ensures r.id == t.id && r.creator == t.creator && r.project == t.project
    ensures HasText(t.title) ==> HasText(r.title)
    ensures r.title == if HasText(title) then title else t.title
    ensures r.deadline == if deadline.Instant? then deadline.ms else t.deadline
    ensures status == "" ==> r.status == t.status
    ensures status != "" ==> StatusName(r.status) == status
    ensures r.description == if description.Some? && description.value != "" then description else t.description
    ensures r.estimatedDays == if estimatedDays.Some? && estimatedDays.value != 0.0 then estimatedDays else t.estimatedDays
  {
    t.(title := if HasText(title) then title else t.title,
       deadline := if deadline.Instant? then deadline.ms else t.deadline,
       status := if status != "" then ParseStatus(status).value else t.status,
       description := if description.Some? && description.value != "" then description else t.description,
       estimatedDays := if estimatedDays.Some? && estimatedDays.value != 0.0 then estimatedDays else t.estimatedDays)
  }

  /** Lines 122-128: the edit touches no assignment. */
  predicate NoAssigneeChange(add: Option<seq<UserId>>, remove: Option<seq<UserId>>)
  {
    (add.None? && remove.None?) || (add == Some([]) && remove == Some([]))
  }

  function OrEmpty(xs: Option<seq<UserId>>): seq<UserId>
  {
    if xs.Some? then xs.value else []
  }

  /** usersAreAssigned: every id to remove is currently assigned. */
  method UsersAreAssigned(remove: seq<UserId>, current: seq<UserId>) returns (r: bool)
    ensures r <==> forall x :: x in remove ==> x in current
  {
    for i := 0 to |remove|
      invariant forall k :: 0 <= k < i ==> remove[k] in current
    {
      if remove[i] !in current {
        return false;
      }
    }
    return true;
  }

  /** getNewAssignees: the current list, each new added id appended once, then every
      removed id filtered out. */
  function NewAssignees(current: seq<UserId>, add: seq<UserId>, remove: seq<UserId>): seq<UserId>
  {
    Without(AppendMissing(current, add), Elems(remove))
  }

  /** As a set: current plus added minus removed; no id twice if none was twice before. */
  lemma NewAssigneesElems(current: seq<UserId>, add: seq<UserId>, remove: seq<UserId>)
    ensures Elems(NewAssignees(current, add, remove)) == (Elems(current) + Elems(add)) - Elems(remove)
    ensures NoDup(current) ==> NoDup(NewAssignees(current, add, remove))
  {
    AppendMissingElems(current, add);
    if NoDup(current) {
      AppendMissingNoDup(current, add);
      WithoutKeepsNoDup(AppendMissing(current, add), Elems(remove));
    }
  }

  /** getNewAssignees as written: pushes onto a copy, then filters. */
  method GetNewAssignees(current: seq<UserId>, add: Option<seq<UserId>>, remove: Option<seq<UserId>>)
    returns (copy: seq<UserId>)
    ensures copy == NewAssignees(current, OrEmpty(add), OrEmpty(remove))
    ensures Elems(copy) == (Elems(current) + Elems(OrEmpty(add))) - Elems(OrEmpty(remove))
  {
    copy := current;
    if add.Some? {
      var xs := add.value;
      for i := 0 to |xs|
        invariant AppendMissing(copy, xs[i..]) == AppendMissing(current, xs)
      {
        assert xs[i..][1..] == xs[i + 1..];
        if xs[i] !in copy {
          copy := copy + [xs[i]];
        }
      }
    } else {
      assert AppendMissing(current, []) == current;
    }
    if remove.Some? {
      copy := Without(copy, Elems(remove.value));
    } else {
      WithoutNone(copy, Elems([]));
    }
    NewAssigneesElems(current, OrEmpty(add), OrEmpty(remove));
  }

  /** The rows updateAssignments' first loop saves: one per added id not currently
      assigned, duplicates included, with fresh ids from `next` on. */
  function AddedRows(rows: seq<Assignment>, next: nat, t: TaskId, add: seq<UserId>): seq<Assignment>
  {
    NewRows(next, t, Without(add, Elems(AssigneesOf(rows, t))))
  }

  /** The rows left after both loops of updateAssignments: the added rows appended, then
      every row of the task whose user is a removed current assignee deleted. */
  function KeptRows(rows: seq<Assignment>, next: nat, t: TaskId, add: seq<UserId>, remove: seq<UserId>): seq<Assignment>
  {
    var both := rows + AddedRows(rows, next, t, add);
    Without(both, TaskUserRows(both, t, Elems(remove) * Elems(AssigneesOf(rows, t))))
  }

  /** The assignment rows after lines 141-176 when the assignee lists are not both absent
      or both empty: `KeptRows`, plus a row for the editor when getNewAssignees comes out
      empty. */
  function EditedRows(rows: seq<Assignment>, next: nat, t: TaskId, editor: UserId,
                      add: seq<UserId>, remove: seq<UserId>): seq<Assignment>
  {
    KeptRows(rows, next, t, add, remove)
    + (if NewAssignees(AssigneesOf(rows, t), add, remove) == []
       then [Assignment(next + |AddedRows(rows, next, t, add)|, t, editor)] else [])
  }

  /** After the edit the task's assignee set is getNewAssignees' result, or just the
      editor when that is empty; other tasks keep their assignees. */
  lemma EditedAssignees(rows: seq<Assignment>, next: nat, t: TaskId, editor: UserId,
                        add: seq<UserId>, remove: seq<UserId>, t': TaskId)
    requires forall x :: x in remove ==> x in AssigneesOf(rows, t)
    ensures var na := NewAssignees(AssigneesOf(rows, t), add, remove);
      AssigneeSet(EditedRows(rows, next, t, editor, add, remove), t')
      == if t' != t then AssigneeSet(rows, t')
         else if na == [] then {editor}
         else Elems(na)
  {
    var current := AssigneesOf(rows, t);
    var kept := KeptRows(rows, next, t, add, remove);
    var na := NewAssignees(current, add, remove);
    var tail := if na == [] then [Assignment(next + |AddedRows(rows, next, t, add)|, t, editor)] else [];
    AssigneeSetAppend(kept, tail, t');
    KeptAssignees(rows, next, t, add, remove, t');
    if t' == t {
      assert AssigneeSet(kept, t) == Elems(na) by {
        AssigneesOfElems(rows, t);
        NewAssigneesElems(current, add, remove);
        SetAlgebra(Elems(current), Elems(add), Elems(remove));
      }
      assert AssigneeSet(tail, t) == if na == [] then {editor} else {};
    } else {
      assert AssigneeSet(tail, t') == {};
    }
  }

  /** KeptRows as sets of assignees: current plus the new ids, minus the removed current ones. */
  lemma KeptAssignees(rows: seq<Assignment>, next: nat, t: TaskId,
                      add: seq<UserId>, remove: seq<UserId>, t': TaskId)
    ensures var current := Elems(AssigneesOf(rows, t));
      AssigneeSet(KeptRows(rows, next, t, add, remove), t')
      == if t' == t then (AssigneeSet(rows, t) + (Elems(add) - current)) - Elems(remove) * current
         else AssigneeSet(rows, t')
  {
    var current := AssigneesOf(rows, t);
    var newcomers := Without(add, Elems(current));
    var added := AddedRows(rows, next, t, add);
    DropAssignees(rows + added, t, Elems(remove) * Elems(current), t');
    AssigneeSetAppend(rows, added, t');
    NewRowsAssignees(next, t, newcomers, t');
    assert Elems(newcomers) == Elems(add) - Elems(current);
  }

  lemma SetAlgebra(C: set<UserId>, A: set<UserId>, R: set<UserId>)
    requires R <= C
    ensures (C + (A - C)) - (R * C) == (C + A) - R
  {
  }

  /** Adding only ids that are already assigned, and removing nothing, writes no row. */
  lemma AddingAssignedIsNoop(rows: seq<Assignment>, next: nat, t: TaskId, editor: UserId, add: seq<UserId>)
    requires forall x :: x in add ==> x in AssigneesOf(rows, t)
    requires RowsOf(rows, t) != []
    ensures EditedRows(rows, next, t, editor, add, []) == rows
  {
    var current := AssigneesOf(rows, t);
    var none: seq<UserId> := [];
    assert AddedRows(rows, next, t, add) == [] by {
      var newcomers := Without(add, Elems(current));
      assert Elems(newcomers) == {};
      EmptyIffNoElems(newcomers);
    }
    assert KeptRows(rows, next, t, add, none) == rows by {
      assert rows + [] == rows;
      assert Elems(none) * Elems(current) == {};
      WithoutNone(rows, TaskUserRows(rows, t, {}));
    }
    assert NewAssignees(current, add, none) != [] by {
      AppendMissingPresent(current, add);
      WithoutNone(current, Elems(none));
      assert RowsOf(rows, t)[0] in RowsOf(rows, t);
    }
  }

  // ----- the outcome of createTask -----

  /** Lines 146-174: the users a new task is assigned to, one row each in this order: the
      creator when the list is absent or empty, else the list itself, duplicates included. */
  function InitialAssignees(creator: UserId, assignees: Option<seq<UserId>>): (r: seq<UserId>)
    ensures r != []
    ensures assignees.Some? && assignees.value != [] ==> r == assignees.value
    ensures assignees.None? || assignees.value == [] ==> r == [creator]
    ensures assignees.Some? && assignees.value != [] ==> Elems(r) == Elems(assignees.value)
    ensures assignees.None? || assignees.value == [] ==> Elems(r) == {creator}
  {
    if assignees.None? || |assignees.value| == 0 then [creator] else assignees.value
  }

  /** createTask's error: the guard chain, then validAssignees on a non-empty list. */
  function CreateTaskError(users: set<UserId>, conns: Rows, now: int, creator: UserId, title: string,
                           deadline: DateArg, status: string, assignees: Option<seq<UserId>>,
                           estimatedDays: Option<real>): (r: Option<Error>)
    ensures var check := CreateTaskCheck(users, now, creator, title, deadline, status, estimatedDays);
      && (check.Some? ==> r == check)
      && (r == Some(ApiError("createTask/invalid_assignees")) <==>
            check.None? && assignees.Some? && assignees.value != [] && !AllAssignable(conns, creator, assignees.value))
      && (r.None? <==> check.None? && AllAssignable(conns, creator, InitialAssignees(creator, assignees)))
  {
    var check := CreateTaskCheck(users, now, creator, title, deadline, status, estimatedDays);
    if check.Some? then check
    else if assignees.None? || |assignees.value| == 0 then None
    else if !AllAssignable(conns, creator, assignees.value) then Some(ApiError("createTask/invalid_assignees"))
    else None
  }

  // ----- the outcome of editTask -----

  /** The task exists and `editor` created it (lines 98-113). */
  predicate EditsOwnTask(tasks: seq<Task>, taskId: TaskId, editor: UserId)
  {
    FindTask(tasks, taskId).Some? && tasks[FindTask(tasks, taskId).value].creator == editor
  }

  /** The assignee checks of lines 135-153: additions must be assignable and removals
      current assignees. */
  predicate AssigneeEditValid(conns: Rows, rows: seq<Assignment>, taskId: TaskId, editor: UserId,
                              add: Option<seq<UserId>>, remove: Option<seq<UserId>>)
  {
    AllAssignable(conns, editor, OrEmpty(add)) && forall x :: x in OrEmpty(remove) ==> x in AssigneesOf(rows, taskId)
  }

  /** editTask's error: the checks without the database, then lookup, permission and the
      assignee checks, which only run when the assignee lists change something. */
  function EditTaskError(tasks: seq<Task>, conns: Rows, rows: seq<Assignment>, now: int, taskId: TaskId,
                         editor: UserId, title: string, deadline: DateArg, status: string,
                         add: Option<seq<UserId>>, remove: Option<seq<UserId>>,
                         description: Option<string>, estimatedDays: Option<real>): Option<Error>
  {
    var check := EditTaskCheck(now, taskId, editor, title, deadline, status, add, remove, description, estimatedDays);
    if check.Some? then check
    else if FindTask(tasks, taskId).None? then Some(ApiError("editTask/task_id_nonexistent"))
    else if tasks[FindTask(tasks, taskId).value].creator != editor then Some(ApiError("editTask/no_perm"))
    else if NoAssigneeChange(add, remove) then None
    else if add.Some? && !AllAssignable(conns, editor, add.value) then Some(ApiError("editTask/invalid_add_assignees"))
    else if remove.Some? && !(forall x :: x in remove.value ==> x in AssigneesOf(rows, taskId))
    then Some(ApiError("editTask/invalid_remove_assignees"))
    else None
  }

  /** Each of editTask's errors, and success, in terms of the conditions that cause it: a
      failed request check comes first, then an unknown task, then a task of someone
      else, then (only when the assignee lists change something) an unassignable
      addition, then the removal of a user who is not assigned. */
  lemma EditTaskErrorCases(tasks: seq<Task>, conns: Rows, rows: seq<Assignment>, now: int, taskId: TaskId,
                           editor: UserId, title: string, deadline: DateArg, status: string,
                           add: Option<seq<UserId>>, remove: Option<seq<UserId>>,
                           description: Option<string>, estimatedDays: Option<real>)
    ensures var check := EditTaskCheck(now, taskId, editor, title, deadline, status, add, remove, description, estimatedDays);
      var r := EditTaskError(tasks, conns, rows, now, taskId, editor, title, deadline, status, add, remove,
                             description, estimatedDays);
      && (check.Some? ==> r == check)
      && (r == Some(ApiError("editTask/task_id_nonexistent")) <==> check.None? && taskId !in TaskIds(tasks))
      && (r == Some(ApiError("editTask/no_perm")) <==>
            check.None? && taskId in TaskIds(tasks) && !EditsOwnTask(tasks, taskId, editor))
      && (r == Some(ApiError("editTask/invalid_add_assignees")) <==>
            check.None? && EditsOwnTask(tasks, taskId, editor) && !NoAssigneeChange(add, remove)
            && !AllAssignable(conns, editor, OrEmpty(add)))
      && (r == Some(ApiError("editTask/invalid_remove_assignees")) <==>
            check.None? && EditsOwnTask(tasks, taskId, editor) && !NoAssigneeChange(add, remove)
            && AllAssignable(conns, editor, OrEmpty(add))
            && !AssigneeEditValid(conns, rows, taskId, editor, add, remove))
      && (r.None? <==> check.None? && EditsOwnTask(tasks, taskId, editor)
                       && (NoAssigneeChange(add, remove) || AssigneeEditValid(conns, rows, taskId, editor, add, remove)))
  {
    var check := EditTaskCheck(now, taskId, editor, title, deadline, status, add, remove, description, estimatedDays);
    var r := EditTaskError(tasks, conns, rows, now, taskId, editor, title, deadline, status, add, remove,
                           description, estimatedDays);
    if check.Some? {
      EditTaskCheckCodes(now, taskId, editor, title, deadline, status, add, remove, description, estimatedDays);
      assert r == check;
    } else if FindTask(tasks, taskId).None? {
      assert r == Some(ApiError("editTask/task_id_nonexistent"));
    } else if !EditsOwnTask(tasks, taskId, editor) {
      assert r == Some(ApiError("editTask/no_perm"));
    } else if NoAssigneeChange(add, remove) {
      assert r.None?;
    } else if !AllAssignable(conns, editor, OrEmpty(add)) {
      assert r == Some(ApiError("editTask/invalid_add_assignees"));
    } else if !AssigneeEditValid(conns, rows, taskId, editor, add, remove) {
      assert r == Some(ApiError("editTask/invalid_remove_assignees"));
    } else {
      assert r.None?;
    }
  }

  /** The request checks only raise their own codes. */
  lemma EditTaskCheckCodes(now: int, taskId: TaskId, editor: UserId, title: string,
                           deadline: DateArg, status: string,
                           add: Option<seq<UserId>>, remove: Option<seq<UserId>>,
                           description: Option<string>, estimatedDays: Option<real>)
    ensures var r := EditTaskCheck(now, taskId, editor, title, deadline, status, add, remove, description, estimatedDays);
      r.Some? ==> r.value in {ApiError("editTask/invalid_task_id"), ApiError("editTask/invalid_editor"),
                              ApiError("editTask/bad_params"), ApiError("editTask/invalid_status"),
                              ApiError("editTask/invalid_deadline"), ApiError("editTask/invalid_estimated_days")}
  {
  }

  /** The counter after the edit: one id per added row, one more for the editor's row. */
  function EditedNext(rows: seq<Assignment>, next: nat, t: TaskId, add: seq<UserId>, remove: seq<UserId>): nat
  {
    next + |AddedRows(rows, next, t, add)| + (if NewAssignees(AssigneesOf(rows, t), add, remove) == [] then 1 else 0)
  }

  /** The editor's fallback row of lines 171-176 completes the rows left by
      updateAssignments into `EditedRows`, and the counter into `EditedNext`. */
  lemma FallbackRow(rows: seq<Assignment>, next: nat, t: TaskId, editor: UserId, add: seq<UserId>,
                    remove: seq<UserId>, kept: seq<Assignment>, counter: nat)
    requires kept == KeptRows(rows, next, t, add, remove) && counter == next + |AddedRows(rows, next, t, add)|
    ensures NewAssignees(AssigneesOf(rows, t), add, remove) == [] ==>
      kept + [Assignment(counter, t, editor)] == EditedRows(rows, next, t, editor, add, remove)
      && counter + 1 == EditedNext(rows, next, t, add, remove)
    ensures NewAssignees(AssigneesOf(rows, t), add, remove) != [] ==>
      kept == EditedRows(rows, next, t, editor, add, remove) && counter == EditedNext(rows, next, t, add, remove)
  {
    var na := NewAssignees(AssigneesOf(rows, t), add, remove);
    var tail := if na == [] then [Assignment(counter, t, editor)] else [];
    assert EditedRows(rows, next, t, editor, add, remove) == kept + tail;
    assert EditedNext(rows, next, t, add, remove) == counter + |tail|;
    assert kept + [] == kept;
  }

  /** The rows written by an edit keep the assignment keys unique and below the counter. */
  lemma EditedRowIds(rows: seq<Assignment>, next: nat, t: TaskId, editor: UserId,
                     add: seq<UserId>, remove: seq<UserId>)
    requires RowIdsUnique(rows) && RowIdsBelow(rows, next)
    ensures var rows' := EditedRows(rows, next, t, editor, add, remove);
      RowIdsUnique(rows') && RowIdsBelow(rows', EditedNext(rows, next, t, add, remove))
  {
    var current := AssigneesOf(rows, t);
    var added := AddedRows(rows, next, t, add);
    var both := rows + added;
    var kept := KeptRows(rows, next, t, add, remove);
    var n := next + |added|;
    AppendNewRows(rows, next, t, Without(add, Elems(current)));
    WithoutKeepsRowIdsUnique(both, TaskUserRows(both, t, Elems(remove) * Elems(current)));
    assert RowIdsBelow(kept, n);
    FallbackRow(rows, next, t, editor, add, remove, kept, n);
    if NewAssignees(current, add, remove) == [] {
      AppendNewRows(kept, n, t, [editor]);
      assert NewRows(n, t, [editor]) == [Assignment(n, t, editor)];
    }
  }

  /** Every row an edit writes belongs to the edited task or was there before. */
  lemma EditedRowTasks(rows: seq<Assignment>, next: nat, t: TaskId, editor: UserId,
                       add: seq<UserId>, remove: seq<UserId>)
    ensures forall a :: a in EditedRows(rows, next, t, editor, add, remove) ==> a in rows || a.task == t
  {
    var added := AddedRows(rows, next, t, add);
    forall a | a in added ensures a.task == t {
      var i :| 0 <= i < |added| && added[i] == a;
    }
  }

  /** A successful edit with assignee changes keeps the tables well formed and keeps
      every task assigned. */
  lemma EditKeepsTables(tasks: seq<Task>, rows: seq<Assignment>, next: nat, k: nat, edited: Task,
                        editor: UserId, add: seq<UserId>, remove: seq<UserId>)
    requires TablesWellformed(tasks, rows, next) && k < |tasks| && edited.id == tasks[k].id
    requires forall x :: x in remove ==> x in AssigneesOf(rows, tasks[k].id)
    ensures var t := tasks[k].id;
      var rows', next' := EditedRows(rows, next, t, editor, add, remove), EditedNext(rows, next, t, add, remove);
      && TablesWellformed(tasks[k := edited], rows', next')
      && (EveryTaskAssigned(tasks, rows) ==> EveryTaskAssigned(tasks[k := edited], rows'))
  {
    var t := tasks[k].id;
    var rows' := EditedRows(rows, next, t, editor, add, remove);
    ReplaceTask(tasks, k, edited);
    EditedRowIds(rows, next, t, editor, add, remove);
    EditedRowTasks(rows, next, t, editor, add, remove);
    assert t in TaskIds(tasks);
    if EveryTaskAssigned(tasks, rows) {
      var na := NewAssignees(AssigneesOf(rows, t), add, remove);
      EmptyIffNoElems(na);
      forall x | x in tasks[k := edited] ensures AssigneeSet(rows', x.id) != {} {
        EditedAssignees(rows, next, t, editor, add, remove, x.id);
        if x.id != t {
          assert x in tasks;
        }
      }
    }
  }

  // ----- the outcome of deleteTask -----

  /** deleteTask's error: a task without rows is reported as unknown, then only its
      creator may delete it (task-delete.ts:13-26). A row whose task is missing makes the
      creator lookup throw. */
  function DeleteTaskError(tasks: seq<Task>, rows: seq<Assignment>, deletor: UserId, taskId: TaskId): (r: Option<Error>)
    ensures r == Some(ApiError("deleteTask/invalid_task_id")) <==> RowsOf(rows, taskId) == []
    ensures r == Some(ApiError("deleteTask/invalid_delete")) <==>
      RowsOf(rows, taskId) != [] && taskId in TaskIds(tasks) && !EditsOwnTask(tasks, taskId, deletor)
    ensures r.None? <==> RowsOf(rows, taskId) != [] && EditsOwnTask(tasks, taskId, deletor)
  {
    if RowsOf(rows, taskId) == [] then Some(ApiError("deleteTask/invalid_task_id"))
    else match FindTask(tasks, taskId)
      case None => Some(UnknownError)
      case Some(k) => if tasks[k].creator != deletor then Some(ApiError("deleteTask/invalid_delete")) else None
  }
}
