/** The Task and TaskAssignment tables as sequences of rows in table order: lookups by
    key, the rows of a task or a user, and the constraints the database keeps. */
module Tables {
  import opened Domain
  import opened Seqs
  import opened Text

  function TaskIds(ts: seq<Task>): set<TaskId>
  {
    set t | t in ts :: t.id
  }

  /** The Task table's primary key. */
  predicate TaskIdsUnique(ts: seq<Task>)
  {
    forall i, j :: 0 <= i < j < |ts| ==> ts[i].id != ts[j].id
  }

  /** Position of the task with id `id`, if any. */
  function FindTask(ts: seq<Task>, id: TaskId): (r: Option<nat>)
    ensures r.Some? ==> r.value < |ts| && ts[r.value].id == id
    ensures r.None? <==> id !in TaskIds(ts)
  {
    if ts == [] then None
    else if ts[0].id == id then Some(0)
    else match FindTask(ts[1..], id)
      case None => None
      case Some(k) => Some(k + 1)
  }

  /** With unique ids, the task found is the only one with that id. */
  lemma FindTaskUnique(ts: seq<Task>, id: TaskId, k: nat)
    requires TaskIdsUnique(ts) && k < |ts| && ts[k].id == id
    ensures FindTask(ts, id) == Some(k)
  {
    var r := FindTask(ts, id);
    assert r.Some?;
  }

  /** `find({ where: { task } })`: the rows of one task, in row order. */
  function RowsOf(rows: seq<Assignment>, t: TaskId): (r: seq<Assignment>)
    ensures forall a :: a in r <==> a in rows && a.task == t
    ensures |r| <= |rows|
  {
    if rows == [] then []
    else (if rows[0].task == t then [rows[0]] else []) + RowsOf(rows[1..], t)
  }

  /** `find({ where: { user_assignee } })`: the rows of one user, in row order. */
  function RowsOfUser(rows: seq<Assignment>, u: UserId): (r: seq<Assignment>)
    ensures forall a :: a in r <==> a in rows && a.user == u
  {
    if rows == [] then []
    else (if rows[0].user == u then [rows[0]] else []) + RowsOfUser(rows[1..], u)
  }

  /** `rows.map((a) => a.user_assignee)` */
  function UsersOf(rows: seq<Assignment>): (r: seq<UserId>)
    ensures |r| == |rows| && forall i :: 0 <= i < |rows| ==> r[i] == rows[i].user
  {
    if rows == [] then [] else [rows[0].user] + UsersOf(rows[1..])
  }

  /** The users of a task's rows, one per row, in row order. */
  function AssigneesOf(rows: seq<Assignment>, t: TaskId): seq<UserId>
  {
    UsersOf(RowsOf(rows, t))
  }

  /** The set of users assigned to a task. */
  ghost function AssigneeSet(rows: seq<Assignment>, t: TaskId): set<UserId>
  {
    set a | a in rows && a.task == t :: a.user
  }

  lemma AssigneesOfElems(rows: seq<Assignment>, t: TaskId)
    ensures Elems(AssigneesOf(rows, t)) == AssigneeSet(rows, t)
  {
    var rs := RowsOf(rows, t);
    forall u | u in AssigneeSet(rows, t) ensures u in Elems(AssigneesOf(rows, t)) {
      var a :| a in rows && a.task == t && a.user == u;
      var i :| 0 <= i < |rs| && rs[i] == a;
      assert AssigneesOf(rows, t)[i] == u;
    }
  }

  /** One new row per listed user, ids counting up from `start`. */
  function NewRows(start: nat, t: TaskId, us: seq<UserId>): (r: seq<Assignment>)
    ensures |r| == |us| && forall i :: 0 <= i < |us| ==> r[i] == Assignment(start + i, t, us[i])
    decreases |us|
  {
    if us == [] then [] else [Assignment(start, t, us[0])] + NewRows(start + 1, t, us[1..])
  }

  lemma NewRowsAssignees(start: nat, t: TaskId, us: seq<UserId>, t': TaskId)
    ensures AssigneeSet(NewRows(start, t, us), t') == if t' == t then Elems(us) else {}
  {
    var r := NewRows(start, t, us);
    if t' == t {
      forall u | u in Elems(us) ensures u in AssigneeSet(r, t) {
        var i :| 0 <= i < |us| && us[i] == u;
        assert r[i] in r;
      }
    }
  }

  /** The rows of task `t` whose user is in `us`: what `delete({ task, user_assignee })`
      removes for each user of `us`. */
  function TaskUserRows(rows: seq<Assignment>, t: TaskId, us: set<UserId>): set<Assignment>
  {
    set a | a in rows && a.task == t && a.user in us
  }

  /** Removing the rows of some of task `t`'s users leaves exactly the other users, and
      leaves every other task's users alone. */
  lemma DropAssignees(rows: seq<Assignment>, t: TaskId, us: set<UserId>, t': TaskId)
    ensures AssigneeSet(Without(rows, TaskUserRows(rows, t, us)), t')
         == if t' == t then AssigneeSet(rows, t) - us else AssigneeSet(rows, t')
  {
    var kept := Without(rows, TaskUserRows(rows, t, us));
    forall u | u in AssigneeSet(rows, t') && (t' == t ==> u !in us)
      ensures u in AssigneeSet(kept, t')
    {
      var a :| a in rows && a.task == t' && a.user == u;
      assert a in kept;
    }
  }

  lemma AssigneeSetAppend(a: seq<Assignment>, b: seq<Assignment>, t: TaskId)
    ensures AssigneeSet(a + b, t) == AssigneeSet(a, t) + AssigneeSet(b, t)
  {
  }

  lemma {:induction false} RowsOfAppend(a: seq<Assignment>, b: seq<Assignment>, t: TaskId)
    ensures RowsOf(a + b, t) == RowsOf(a, t) + RowsOf(b, t)
    decreases |a|
  {
    if a == [] {
      assert a + b == b;
    } else {
      assert (a + b)[1..] == a[1..] + b;
      RowsOfAppend(a[1..], b, t);
    }
  }

  lemma {:induction false} UsersOfAppend(a: seq<Assignment>, b: seq<Assignment>)
    ensures UsersOf(a + b) == UsersOf(a) + UsersOf(b)
    decreases |a|
  {
    if a == [] {
      assert a + b == b;
    } else {
      assert (a + b)[1..] == a[1..] + b;
      UsersOfAppend(a[1..], b);
    }
  }

  lemma NewRowsAppend(start: nat, t: TaskId, a: seq<UserId>, b: seq<UserId>)
    ensures NewRows(start, t, a + b) == NewRows(start, t, a) + NewRows(start + |a|, t, b)
  {
    var l, r := NewRows(start, t, a + b), NewRows(start, t, a) + NewRows(start + |a|, t, b);
    forall i | 0 <= i < |l| ensures l[i] == r[i] {
      if i >= |a| {
        assert r[i] == NewRows(start + |a|, t, b)[i - |a|];
      }
    }
  }

  /** `find({ task: In(ids) })`: the rows of the listed tasks, in row order. */
  function RowsIn(rows: seq<Assignment>, ids: set<TaskId>): (r: seq<Assignment>)
    ensures forall a :: a in r <==> a in rows && a.task in ids
  {
    if rows == [] then []
    else (if rows[0].task in ids then [rows[0]] else []) + RowsIn(rows[1..], ids)
  }

  /** Restricting to a set of tasks keeps all rows of each task in it. */
  lemma {:induction false} RowsOfRowsIn(rows: seq<Assignment>, ids: set<TaskId>, t: TaskId)
    requires t in ids
    ensures RowsOf(RowsIn(rows, ids), t) == RowsOf(rows, t)
    decreases |rows|
  {
    if rows != [] {
      RowsOfRowsIn(rows[1..], ids, t);
      var head := if rows[0].task in ids then [rows[0]] else [];
      RowsOfAppend(head, RowsIn(rows[1..], ids), t);
    }
  }

  /** The rows of a task are missing exactly when the task has no assignee. */
  lemma RowsOfEmpty(rows: seq<Assignment>, t: TaskId)
    ensures RowsOf(rows, t) == [] <==> AssigneeSet(rows, t) == {}
  {
    if RowsOf(rows, t) != [] {
      var a := RowsOf(rows, t)[0];
      assert a in rows && a.task == t;
      assert a.user in AssigneeSet(rows, t);
    }
  }

  // ----- the constraints the tables keep -----

  /** TaskAssignment's primary key. */
  predicate RowIdsUnique(rows: seq<Assignment>)
  {
    forall i, j :: 0 <= i < j < |rows| ==> rows[i].id != rows[j].id
  }

  /** Every row id was drawn before `next`: the counter standing in for uuids is fresh. */
  predicate RowIdsBelow(rows: seq<Assignment>, next: nat)
  {
    forall a :: a in rows ==> a.id < next
  }

  /** The foreign key from TaskAssignment to Task. */
  predicate RowTasksExist(rows: seq<Assignment>, tasks: seq<Task>)
  {
    forall a :: a in rows ==> a.task in TaskIds(tasks)
  }

  predicate TablesWellformed(tasks: seq<Task>, rows: seq<Assignment>, next: nat)
  {
    TaskIdsUnique(tasks) && RowIdsUnique(rows) && RowIdsBelow(rows, next) && RowTasksExist(rows, tasks)
  }

  /** Every task has at least one assignee: createTask assigns the creator when no one
      else is named, and editTask assigns the editor when the last assignee is removed. */
  ghost predicate EveryTaskAssigned(tasks: seq<Task>, rows: seq<Assignment>)
  {
    forall t :: t in tasks ==> AssigneeSet(rows, t.id) != {}
  }

  lemma {:induction false} WithoutKeepsRowIdsUnique(rows: seq<Assignment>, drop: set<Assignment>)
    requires RowIdsUnique(rows)
    ensures RowIdsUnique(Without(rows, drop))
    decreases |rows|
  {
    if rows != [] {
      var tl := rows[1..];
      assert RowIdsUnique(tl) by {
        forall i, j | 0 <= i < j < |tl| ensures tl[i].id != tl[j].id {
          assert tl[i] == rows[i + 1] && tl[j] == rows[j + 1];
        }
      }
      WithoutKeepsRowIdsUnique(tl, drop);
      var rest := Without(tl, drop);
      if rows[0] !in drop {
        forall a | a in rest ensures a.id != rows[0].id {
          var j :| 0 <= j < |tl| && tl[j] == a;
          assert rows[j + 1] == a;
        }
        var r := [rows[0]] + rest;
        forall i, j | 0 <= i < j < |r| ensures r[i].id != r[j].id {
          assert r[j] == rest[j - 1];
          if i > 0 { assert r[i] == rest[i - 1]; }
        }
      }
    }
  }

  /** Appending rows with ids from `next` on keeps the keys unique and below the new counter. */
  lemma AppendNewRows(rows: seq<Assignment>, next: nat, t: TaskId, us: seq<UserId>)
    requires RowIdsUnique(rows) && RowIdsBelow(rows, next)
    ensures RowIdsUnique(rows + NewRows(next, t, us))
    ensures RowIdsBelow(rows + NewRows(next, t, us), next + |us|)
  {
    var r := rows + NewRows(next, t, us);
    forall i, j | 0 <= i < j < |r| ensures r[i].id != r[j].id {
      if j >= |rows| {
        assert r[j] == NewRows(next, t, us)[j - |rows|];
        if i >= |rows| {
          assert r[i] == NewRows(next, t, us)[i - |rows|];
        } else {
          assert r[i] in rows;
        }
      }
    }
    forall a | a in r ensures a.id < next + |us| {
      if a !in rows {
        var k :| 0 <= k < |us| && NewRows(next, t, us)[k] == a;
      }
    }
  }

  /** Every task's title has text: createTask refuses a blank one. */
  predicate TitlesNonBlank(ts: seq<Task>)
  {
    forall t :: t in ts ==> HasText(t.title)
  }

  lemma RowIdsKey(rows: seq<Assignment>, a: Assignment, b: Assignment)
    requires RowIdsUnique(rows) && a in rows && b in rows && a.id == b.id
    ensures a == b
  {
    var i :| 0 <= i < |rows| && rows[i] == a;
    var j :| 0 <= j < |rows| && rows[j] == b;
    assert i == j;
  }

  // ----- deleting rows -----

  /** The rows with one of the given keys: what `delete(id)` removes for each id. */
  function IdRows(rows: seq<Assignment>, ids: set<AssignmentId>): set<Assignment>
  {
    set a | a in rows && a.id in ids
  }

  /** All rows of one task. */
  function TaskRows(rows: seq<Assignment>, t: TaskId): set<Assignment>
  {
    set a | a in rows && a.task == t
  }

  function IdsOf(rs: seq<Assignment>): set<AssignmentId>
  {
    set a | a in rs :: a.id
  }

  /** Deleting by one more key, on the table left by the previous deletions, is deleting
      by all the keys at once. */
  lemma DropOneMore(rows: seq<Assignment>, ids: set<AssignmentId>, id: AssignmentId)
    ensures var left := Without(rows, IdRows(rows, ids));
      Without(left, IdRows(left, {id})) == Without(rows, IdRows(rows, ids + {id}))
  {
    var left := Without(rows, IdRows(rows, ids));
    WithoutTwice(rows, IdRows(rows, ids), IdRows(left, {id}));
    WithoutAgree(rows, IdRows(rows, ids) + IdRows(left, {id}), IdRows(rows, ids + {id}));
  }

  /** deleteAssignment for the key of one more row of `rs`. */
  lemma DropNextKey(rows: seq<Assignment>, rs: seq<Assignment>, i: nat, left: seq<Assignment>)
    requires i < |rs| && left == Without(rows, IdRows(rows, IdsOf(rs[..i])))
    ensures Without(left, IdRows(left, {rs[i].id})) == Without(rows, IdRows(rows, IdsOf(rs[..i + 1])))
  {
    DropOneMore(rows, IdsOf(rs[..i]), rs[i].id);
    assert IdsOf(rs[..i + 1]) == IdsOf(rs[..i]) + {rs[i].id} by {
      assert rs[..i + 1] == rs[..i] + [rs[i]];
    }
  }

  /** With unique keys, deleting the keys of a task's rows deletes exactly that task's rows. */
  lemma IdRowsOfTask(rows: seq<Assignment>, t: TaskId)
    requires RowIdsUnique(rows)
    ensures IdRows(rows, IdsOf(RowsOf(rows, t))) == TaskRows(rows, t)
  {
    forall a | a in IdRows(rows, IdsOf(RowsOf(rows, t))) ensures a.task == t {
      var b :| b in RowsOf(rows, t) && b.id == a.id;
      RowIdsKey(rows, a, b);
    }
    forall a | a in TaskRows(rows, t) ensures a.id in IdsOf(RowsOf(rows, t)) {
      assert a in RowsOf(rows, t);
    }
  }

  // ----- what createTask and deleteTask keep -----

  /** Appending a task with a fresh id and its rows keeps the tables well formed, assigns
      the new task exactly the listed users and leaves every other task's users alone. */
  lemma CreateKeepsTables(tasks: seq<Task>, rows: seq<Assignment>, next: nat, t: Task, us: seq<UserId>)
    requires TablesWellformed(tasks, rows, next) && t.id !in TaskIds(tasks)
    ensures var rows' := rows + NewRows(next, t.id, us);
      && TablesWellformed(tasks + [t], rows', next + |us|)
      && AssigneeSet(rows', t.id) == Elems(us)
      && (forall x :: x in tasks ==> AssigneeSet(rows', x.id) == AssigneeSet(rows, x.id))
      && (EveryTaskAssigned(tasks, rows) && us != [] ==> EveryTaskAssigned(tasks + [t], rows'))
  {
    var added := NewRows(next, t.id, us);
    var rows', tasks' := rows + added, tasks + [t];
    AppendNewRows(rows, next, t.id, us);
    assert TaskIds(tasks') == TaskIds(tasks) + {t.id};
    assert TaskIdsUnique(tasks') by {
      forall i, j | 0 <= i < j < |tasks'| ensures tasks'[i].id != tasks'[j].id {
        if j == |tasks| { assert tasks'[i] in tasks; }
      }
    }
    forall x | x in tasks ensures AssigneeSet(rows', x.id) == AssigneeSet(rows, x.id) {
      AssigneeSetAppend(rows, added, x.id);
      NewRowsAssignees(next, t.id, us, x.id);
    }
    AssigneeSetAppend(rows, added, t.id);
    NewRowsAssignees(next, t.id, us, t.id);
    EmptyIffNoElems(us);
  }

  /** Removing the task at `k` keeps ids unique and drops just its id. */
  lemma RemoveTask(tasks: seq<Task>, k: nat)
    requires TaskIdsUnique(tasks) && k < |tasks|
    ensures var tasks' := tasks[..k] + tasks[k + 1..];
      && TaskIdsUnique(tasks')
      && TaskIds(tasks') == TaskIds(tasks) - {tasks[k].id}
      && (forall x :: x in tasks' ==> x in tasks)
  {
    var id := tasks[k].id;
    var tasks' := tasks[..k] + tasks[k + 1..];
    assert forall i :: 0 <= i < |tasks'| ==> tasks'[i] == tasks[if i < k then i else i + 1];
    forall i, j | 0 <= i < j < |tasks'| ensures tasks'[i].id != tasks'[j].id {
      assert tasks'[i] == tasks[if i < k then i else i + 1];
      assert tasks'[j] == tasks[if j < k then j else j + 1];
    }
    forall x | x in tasks' ensures x in tasks && x.id != id {
      var i :| 0 <= i < |tasks'| && tasks'[i] == x;
      assert tasks'[i] == tasks[if i < k then i else i + 1];
    }
    forall i | 0 <= i < |tasks| && i != k ensures tasks[i] in tasks' {
      assert tasks'[if i < k then i else i - 1] == tasks[i];
    }
  }

  /** Deleting a task and all its rows keeps the tables well formed, drops just that id
      and leaves every remaining task's users alone. */
  lemma DeleteKeepsTables(tasks: seq<Task>, rows: seq<Assignment>, next: nat, k: nat)
    requires TablesWellformed(tasks, rows, next) && k < |tasks|
    ensures var id := tasks[k].id;
      var tasks', rows' := tasks[..k] + tasks[k + 1..], Without(rows, TaskRows(rows, id));
      && TablesWellformed(tasks', rows', next)
      && TaskIds(tasks') == TaskIds(tasks) - {id}
      && RowsOf(rows', id) == []
      && (forall x :: x in tasks' ==> x in tasks && AssigneeSet(rows', x.id) == AssigneeSet(rows, x.id))
      && (EveryTaskAssigned(tasks, rows) ==> EveryTaskAssigned(tasks', rows'))
      && (TitlesNonBlank(tasks) ==> TitlesNonBlank(tasks'))
  {
    var id := tasks[k].id;
    var tasks', rows' := tasks[..k] + tasks[k + 1..], Without(rows, TaskRows(rows, id));
    RemoveTask(tasks, k);
    WithoutKeepsRowIdsUnique(rows, TaskRows(rows, id));
    forall x | x in tasks' ensures AssigneeSet(rows', x.id) == AssigneeSet(rows, x.id) {
      forall a | a in rows && a.task == x.id ensures a in rows' { }
    }
    if RowsOf(rows', id) != [] {
      assert RowsOf(rows', id)[0] in RowsOf(rows', id);
    }
  }

  /** Overwriting a task with one of the same id keeps the ids. */
  lemma ReplaceTask(tasks: seq<Task>, k: nat, x: Task)
    requires TaskIdsUnique(tasks) && k < |tasks| && x.id == tasks[k].id
    ensures TaskIdsUnique(tasks[k := x]) && TaskIds(tasks[k := x]) == TaskIds(tasks)
    ensures forall y :: y in tasks[k := x] ==> y == x || y in tasks
  {
    var ts := tasks[k := x];
    forall y | y in TaskIds(tasks) ensures y in TaskIds(ts) {
      var i :| 0 <= i < |tasks| && tasks[i].id == y;
      assert ts[i].id == y;
    }
  }

  /** Overwriting a task with one of the same id keeps every task assigned, and keeps
      titles non-blank when the new title has text. */
  lemma ReplaceKeepsInvariants(tasks: seq<Task>, rows: seq<Assignment>, k: nat, x: Task)
    requires TaskIdsUnique(tasks) && k < |tasks| && x.id == tasks[k].id
    ensures EveryTaskAssigned(tasks, rows) ==> EveryTaskAssigned(tasks[k := x], rows)
    ensures TitlesNonBlank(tasks) && HasText(x.title) ==> TitlesNonBlank(tasks[k := x])
  {
    ReplaceTask(tasks, k, x);
    assert tasks[k] in tasks;
  }

  /** Deleting the rows of one more user of task `t`, on the table left by the previous
      deletions, is deleting the rows of all those users at once. */
  lemma DropUserMore(rows: seq<Assignment>, t: TaskId, us: set<UserId>, u: UserId)
    ensures var left := Without(rows, TaskUserRows(rows, t, us));
      Without(left, TaskUserRows(left, t, {u})) == Without(rows, TaskUserRows(rows, t, us + {u}))
  {
    var left := Without(rows, TaskUserRows(rows, t, us));
    WithoutTwice(rows, TaskUserRows(rows, t, us), TaskUserRows(left, t, {u}));
    WithoutAgree(rows, TaskUserRows(rows, t, us) + TaskUserRows(left, t, {u}), TaskUserRows(rows, t, us + {u}));
  }

  /** Saving one more row for one more user, with the counter at the next free id. */
  lemma AppendNewRow(rows: seq<Assignment>, rows0: seq<Assignment>, start: nat, next: nat, t: TaskId, us: seq<UserId>, u: UserId)
    requires rows == rows0 + NewRows(start, t, us) && next == start + |us|
    ensures rows + [Assignment(next, t, u)] == rows0 + NewRows(start, t, us + [u])
  {
    NewRowsAppend(start, t, us, [u]);
    assert NewRows(start + |us|, t, [u]) == [Assignment(start + |us|, t, u)];
  }

  /** Scanning one more row: its user is collected when the row belongs to task `t`. */
  lemma CollectStep(rs: seq<Assignment>, j: nat, t: TaskId, us: seq<UserId>)
    requires j < |rs| && us == UsersOf(RowsOf(rs[..j], t))
    ensures (if rs[j].task == t then us + [rs[j].user] else us) == UsersOf(RowsOf(rs[..j + 1], t))
  {
    var pre, last := rs[..j], [rs[j]];
    assert rs[..j + 1] == pre + last;
    RowsOfAppend(pre, last, t);
    UsersOfAppend(RowsOf(pre, t), RowsOf(last, t));
    if rs[j].task == t {
      assert RowsOf(last, t) == last;
      assert UsersOf(last) == [rs[j].user];
    } else {
      assert RowsOf(last, t) == [];
      assert us + [] == us;
    }
  }
}
