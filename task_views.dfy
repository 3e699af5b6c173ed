/** What the read operations return: a task together with its assignees, the two
    orders results are sorted in, and taskSearch's filter (get-task.ts,
    get-profile-tasks.ts, task-search.ts). */
module TaskViews {
  import opened Domain
  import opened Text
  import opened Seqs
  import opened ConnectionGraph
  import opened Tables
  import opened TaskRules

  /** A task as returned to a client, with `assignees` attached. */
  datatype TaskView = TaskView(task: Task, assignees: seq<UserId>)

  /** The task with its assignees in row order. */
  function ViewOf(rows: seq<Assignment>, t: Task): TaskView
  {
    TaskView(t, AssigneesOf(rows, t.id))
  }

  function ViewsOf(rows: seq<Assignment>, ts: seq<Task>): (r: seq<TaskView>)
    ensures |r| == |ts| && forall i :: 0 <= i < |ts| ==> r[i] == ViewOf(rows, ts[i])
  {
    if ts == [] then [] else [ViewOf(rows, ts[0])] + ViewsOf(rows, ts[1..])
  }

  /** Attaching the assignees of one more task. */
  lemma ViewsOfSnoc(rows: seq<Assignment>, ts: seq<Task>, i: nat, views: seq<TaskView>, v: TaskView)
    requires i < |ts| && views == ViewsOf(rows, ts[..i]) && v == ViewOf(rows, ts[i])
    ensures views + [v] == ViewsOf(rows, ts[..i + 1])
  {
    var l, r := views + [v], ViewsOf(rows, ts[..i + 1]);
    forall j | 0 <= j < |l| ensures l[j] == r[j] {
      if j < i {
        assert ts[..i][j] == ts[..i + 1][j];
      }
    }
  }

  // ----- orders -----

  /** taskSearch sorts by deadline; getProfileTasks breaks deadline ties by title. */
  datatype Order = ByDeadline | ByDeadlineThenTitle

  /** `a` may come before `b`: the comparator is not positive. */
  predicate Le(o: Order, a: TaskView, b: TaskView)
  {
    match o
    case ByDeadline => a.task.deadline <= b.task.deadline
    case ByDeadlineThenTitle =>
      a.task.deadline < b.task.deadline
      || (a.task.deadline == b.task.deadline && StrLe(a.task.title, b.task.title))
  }

  lemma LeTotal(o: Order, a: TaskView, b: TaskView)
    ensures Le(o, a, b) || Le(o, b, a)
  {
    StrLeTotal(a.task.title, b.task.title);
  }

  lemma LeTrans(o: Order, a: TaskView, b: TaskView, c: TaskView)
    requires Le(o, a, b) && Le(o, b, c)
    ensures Le(o, a, c)
  {
    if o.ByDeadlineThenTitle? && a.task.deadline == b.task.deadline == c.task.deadline {
      StrLeTrans(a.task.title, b.task.title, c.task.title);
    }
  }

  predicate Sorted(o: Order, s: seq<TaskView>)
  {
    forall i, j :: 0 <= i < j < |s| ==> Le(o, s[i], s[j])
  }

  /** Insert `x` before the first element it may precede. */
  function Insert(o: Order, x: TaskView, s: seq<TaskView>): seq<TaskView>
  {
    if s == [] then [x]
    else if Le(o, x, s[0]) then [x] + s
    else [s[0]] + Insert(o, x, s[1..])
  }

  /** `Array.prototype.sort` with the order's comparator. */
  function SortBy(o: Order, s: seq<TaskView>): seq<TaskView>
  {
    if s == [] then [] else Insert(o, s[0], SortBy(o, s[1..]))
  }

  lemma SortedTail(o: Order, s: seq<TaskView>)
    requires Sorted(o, s) && s != []
    ensures Sorted(o, s[1..])
    ensures forall y :: y in s[1..] ==> Le(o, s[0], y)
  {
    forall y | y in s[1..] ensures Le(o, s[0], y) {
      var j :| 0 <= j < |s[1..]| && s[1..][j] == y;
      assert s[j + 1] == y;
    }
  }

  lemma SortedCons(o: Order, h: TaskView, s: seq<TaskView>)
    requires Sorted(o, s) && forall y :: y in s ==> Le(o, h, y)
    ensures Sorted(o, [h] + s)
  {
    forall i, j | 0 <= i < j < |[h] + s| ensures Le(o, ([h] + s)[i], ([h] + s)[j]) {
      if i == 0 {
        assert ([h] + s)[j] == s[j - 1];
      } else {
        assert ([h] + s)[i] == s[i - 1] && ([h] + s)[j] == s[j - 1];
      }
    }
  }

  lemma {:induction false} InsertSpec(o: Order, x: TaskView, s: seq<TaskView>)
    requires Sorted(o, s)
    ensures Sorted(o, Insert(o, x, s))
    ensures multiset(Insert(o, x, s)) == multiset(s) + multiset{x}
    decreases |s|
  {
    if s == [] {
    } else if Le(o, x, s[0]) {
      forall y | y in s ensures Le(o, x, y) {
        if y != s[0] {
          SortedTail(o, s);
          assert y in s[1..] by { assert s == [s[0]] + s[1..]; }
          LeTrans(o, x, s[0], y);
        }
      }
      SortedCons(o, x, s);
    } else {
      LeTotal(o, x, s[0]);
      SortedTail(o, s);
      InsertSpec(o, x, s[1..]);
      var rest := Insert(o, x, s[1..]);
      forall y | y in rest ensures Le(o, s[0], y) {
        assert y in multiset(s[1..]) + multiset{x};
      }
      SortedCons(o, s[0], rest);
      assert s == [s[0]] + s[1..];
    }
  }

  /** The sort puts the views in the order and is a permutation. */
  lemma {:induction false} SortBySpec(o: Order, s: seq<TaskView>)
    ensures Sorted(o, SortBy(o, s))
    ensures multiset(SortBy(o, s)) == multiset(s)
    decreases |s|
  {
    if s != [] {
      var tl := s[1..];
      var rest := SortBy(o, tl);
      SortBySpec(o, tl);
      InsertSpec(o, s[0], rest);
      assert SortBy(o, s) == Insert(o, s[0], rest);
      assert s == [s[0]] + tl;
      assert multiset(s) == multiset(tl) + multiset{s[0]};
    }
  }

  /** A permutation has the same members. */
  lemma SameMembers(a: seq<TaskView>, b: seq<TaskView>)
    requires multiset(a) == multiset(b)
    ensures forall v :: v in a <==> v in b
  {
    forall v ensures v in a <==> v in b {
      assert v in a <==> v in multiset(a);
      assert v in b <==> v in multiset(b);
    }
  }

  // ----- taskSearch -----

  /** The query parameters; "" stands for an absent string, and `deadline` and
      `estimatedDays` arrive already converted. */
  datatype SearchParams = SearchParams(
    title: string,
    description: string,
    project: string,
    creator: UserId,
    deadline: Option<int>,
    status: string,
    estimatedDays: Option<real>,
    userAssignees: seq<UserId>)

  /** The `search` object, one optional criterion per column. */
  datatype Filter = Filter(
    title: Option<string>,
    description: Option<string>,
    project: Option<string>,
    creator: Option<UserId>,
    deadline: Option<int>,
    status: Option<Status>,
    estimatedDays: Option<real>)

  function IfGiven(s: string): (r: Option<string>)
    ensures r.Some? <==> s != ""
    ensures r.Some? ==> r.value == s
  {
    if s == "" then None else Some(s)
  }

  /** Lines 36-80: the criteria of the given parameters; an unknown status ends the
      search with no results (`None`). */
  function BuildFilter(p: SearchParams): (r: Option<Filter>)
    ensures r.None? <==> p.status != "" && ParseStatus(p.status).None?
    ensures r.Some? ==> r.value.status == ParseStatus(p.status)
    ensures r.Some? ==> r.value.title == IfGiven(p.title) && r.value.creator == IfGiven(p.creator)
    ensures r.Some? ==> r.value.description == IfGiven(p.description) && r.value.project == IfGiven(p.project)
                        && r.value.deadline == p.deadline && r.value.estimatedDays == p.estimatedDays
  {
    if p.status != "" && ParseStatus(p.status).None? then None
    else Some(Filter(IfGiven(p.title), IfGiven(p.description), IfGiven(p.project),
                     IfGiven(p.creator), p.deadline,
                     if p.status == "" then None else ParseStatus(p.status),
                     p.estimatedDays))
  }

  /** A Task row satisfies every criterion of the filter; ILIKE on a NULL description
      is not true. */
  predicate Matches(f: Filter, t: Task)
  {
    (f.title.Some? ==> ContainsIgnoringCase(t.title, f.title.value))
    && (f.description.Some? ==> t.description.Some? && ContainsIgnoringCase(t.description.value, f.description.value))
    && (f.project.Some? ==> t.project == f.project)
    && (f.creator.Some? ==> t.creator == f.creator.value)
    && (f.deadline.Some? ==> t.deadline <= f.deadline.value)
    && (f.status.Some? ==> t.status == f.status.value)
    && (f.estimatedDays.Some? ==> t.estimatedDays == f.estimatedDays)
  }

  /** `find({ where })`: the rows that satisfy `keep`, in table order. */
  function Select(ts: seq<Task>, keep: Task -> bool): (r: seq<Task>)
    ensures forall t :: t in r <==> t in ts && keep(t)
  {
    if ts == [] then []
    else (if keep(ts[0]) then [ts[0]] else []) + Select(ts[1..], keep)
  }

  lemma {:induction false} SelectUnique(ts: seq<Task>, keep: Task -> bool)
    requires TaskIdsUnique(ts)
    ensures TaskIdsUnique(Select(ts, keep))
    decreases |ts|
  {
    if ts != [] {
      var tl := ts[1..];
      assert TaskIdsUnique(tl) by {
        forall i, j | 0 <= i < j < |tl| ensures tl[i].id != tl[j].id {
          assert tl[i] == ts[i + 1] && tl[j] == ts[j + 1];
        }
      }
      SelectUnique(tl, keep);
      var rest := Select(tl, keep);
      if keep(ts[0]) {
        assert ts[0].id !in TaskIds(rest) by {
          forall t | t in rest ensures t.id != ts[0].id {
            var j :| 0 <= j < |tl| && tl[j] == t;
            assert ts[j + 1] == t;
          }
        }
        UniqueCons(ts[0], rest);
      }
    }
  }

  lemma UniqueCons(t: Task, s: seq<Task>)
    requires TaskIdsUnique(s) && t.id !in TaskIds(s)
    ensures TaskIdsUnique([t] + s)
  {
    var r := [t] + s;
    forall i, j | 0 <= i < j < |r| ensures r[i].id != r[j].id {
      assert r[j] == s[j - 1];
      if i > 0 { assert r[i] == s[i - 1]; }
    }
  }

  /** Lines 82-123: the ids of the tasks `me` is assigned to. The rows are first
      restricted to `me` and the extra `user_assignee` ids, grouped by task, and a group
      is kept when `me` is among its users. */
  function AccessibleIds(rows: seq<Assignment>, me: UserId, extra: seq<UserId>): set<TaskId>
  {
    var everyone := [me] + extra;
    var found := set a | a in rows && a.user in everyone;
    set a | a in found && (exists b :: b in found && b.task == a.task && b.user == me) :: a.task
  }

  /** The extra `user_assignee` ids widen nothing: the result is always the tasks `me`
      is assigned to. */
  lemma AccessibleIdsAreOwn(rows: seq<Assignment>, me: UserId, extra: seq<UserId>)
    ensures AccessibleIds(rows, me, extra) == (set a | a in rows && a.user == me :: a.task)
  {
    var everyone := [me] + extra;
    var found := set a | a in rows && a.user in everyone;
    forall a | a in rows && a.user == me
      ensures a.task in AccessibleIds(rows, me, extra)
    {
      assert a in found;
    }
  }

  /** `_.unionBy(a, b, "id")`: the first row of each id, in order. */
  function UniqById(acc: seq<Task>, xs: seq<Task>): (r: seq<Task>)
    ensures TaskIdsUnique(acc) ==> TaskIdsUnique(r)
    ensures TaskIds(r) == TaskIds(acc) + TaskIds(xs)
    ensures forall t :: t in r ==> t in acc || t in xs
    ensures acc <= r
    decreases |xs|
  {
    if xs == [] then acc
    else if xs[0].id in TaskIds(acc) then
      assert TaskIds(xs) == TaskIds([xs[0]]) + TaskIds(xs[1..]) by {
        assert xs == [xs[0]] + xs[1..];
      }
      UniqById(acc, xs[1..])
    else
      var next := acc + [xs[0]];
      assert TaskIds(xs) == TaskIds([xs[0]]) + TaskIds(xs[1..]) by {
        assert xs == [xs[0]] + xs[1..];
      }
      assert TaskIds(next) == TaskIds(acc) + {xs[0].id};
      assert TaskIdsUnique(acc) ==> TaskIdsUnique(next);
      var r := UniqById(next, xs[1..]);
      assert acc <= next <= r;
      r
  }

  /** The search criteria with the creator replaced by `me`: the second query
      (lines 132-137). */
  function CreatedBy(f: Filter, me: UserId): Filter
  {
    f.(creator := Some(me))
  }

  /** The tasks taskSearch may return: assigned to `me` and matching every criterion,
      or created by `me` and matching every criterion but the creator. */
  predicate Found(f: Filter, mine: set<TaskId>, me: UserId, t: Task)
  {
    (t.id in mine && Matches(f, t)) || Matches(CreatedBy(f, me), t)
  }

  /** The matches of the first query, restricted to the tasks `me` is assigned to. */
  function AssignedMatches(tasks: seq<Task>, rows: seq<Assignment>, me: UserId, p: SearchParams, f: Filter): seq<Task>
  {
    var ids := AccessibleIds(rows, me, p.userAssignees);
    Select(tasks, (t: Task) => t.id in ids && Matches(f, t))
  }

  /** The matches of the second query. */
  function CreatedMatches(tasks: seq<Task>, me: UserId, f: Filter): seq<Task>
  {
    Select(tasks, (t: Task) => Matches(CreatedBy(f, me), t))
  }

  /** The union of both queries, before assignees are attached and the sort. */
  function SearchUnion(tasks: seq<Task>, rows: seq<Assignment>, me: UserId, p: SearchParams, f: Filter): seq<Task>
  {
    UniqById(AssignedMatches(tasks, rows, me, p, f), CreatedMatches(tasks, me, f))
  }

  /** taskSearch on the current tables. */
  function TaskSearch(tasks: seq<Task>, rows: seq<Assignment>, me: UserId, p: SearchParams): seq<TaskView>
  {
    match BuildFilter(p)
    case None => []
    case Some(f) => SortBy(ByDeadline, ViewsOf(rows, SearchUnion(tasks, rows, me, p, f)))
  }

  /** The tasks `me` is assigned to. */
  ghost function OwnTaskIds(rows: seq<Assignment>, me: UserId): set<TaskId>
  {
    set a | a in rows && a.user == me :: a.task
  }

  /** The union holds exactly the tasks found by one of the two queries, once each. */
  lemma SearchUnionSpec(tasks: seq<Task>, rows: seq<Assignment>, me: UserId, p: SearchParams, f: Filter)
    requires TaskIdsUnique(tasks)
    ensures var u := SearchUnion(tasks, rows, me, p, f);
      && TaskIdsUnique(u)
      && (forall t :: t in u <==> t in tasks && Found(f, OwnTaskIds(rows, me), me, t))
  {
    AccessibleIdsAreOwn(rows, me, p.userAssignees);
    var mine := OwnTaskIds(rows, me);
    var a := AssignedMatches(tasks, rows, me, p, f);
    var c := CreatedMatches(tasks, me, f);
    var u := SearchUnion(tasks, rows, me, p, f);
    SelectUnique(tasks, (t: Task) => t.id in AccessibleIds(rows, me, p.userAssignees) && Matches(f, t));
    forall t | t in tasks && Found(f, mine, me, t) ensures t in u {
      assert t.id in TaskIds(a) + TaskIds(c) by {
        if t.id in mine && Matches(f, t) { assert t in a; } else { assert t in c; }
      }
      var t' :| t' in u && t'.id == t.id;
      TasksWithSameId(tasks, t, t');
    }
  }

  /** What a search returns: an unknown status returns nothing; otherwise every result
      is found by one of the two queries and carries its assignees, with unique task ids
      every such task is returned exactly once, and the results are in deadline order. */
  lemma TaskSearchSpec(tasks: seq<Task>, rows: seq<Assignment>, me: UserId, p: SearchParams)
    requires TaskIdsUnique(tasks)
    ensures var r := TaskSearch(tasks, rows, me, p);
      && (BuildFilter(p).None? ==> r == [])
      && Sorted(ByDeadline, r)
      && (forall v :: v in r ==> v == ViewOf(rows, v.task))
      && (BuildFilter(p).Some? ==>
            forall t :: t in tasks && Found(BuildFilter(p).value, OwnTaskIds(rows, me), me, t)
                        <==> ViewOf(rows, t) in r)
      && ViewIdsDistinct(r)
  {
    var r := TaskSearch(tasks, rows, me, p);
    if BuildFilter(p).Some? {
      var f := BuildFilter(p).value;
      var u := SearchUnion(tasks, rows, me, p, f);
      var views := ViewsOf(rows, u);
      SearchUnionSpec(tasks, rows, me, p, f);
      SortBySpec(ByDeadline, views);
      SameMembers(views, r);
      ViewsOfMembers(rows, u);
      ViewIdsUnique(u, views);
      PermutationKeepsUnique(views, r);
    }
  }

  lemma ViewsOfMembers(rows: seq<Assignment>, ts: seq<Task>)
    ensures forall v :: v in ViewsOf(rows, ts) <==> v.task in ts && v == ViewOf(rows, v.task)
  {
    var vs := ViewsOf(rows, ts);
    forall v | v in vs ensures v.task in ts && v == ViewOf(rows, v.task) {
      var i :| 0 <= i < |vs| && vs[i] == v;
    }
    forall t | t in ts ensures ViewOf(rows, t) in vs {
      var i :| 0 <= i < |ts| && ts[i] == t;
      assert vs[i] == ViewOf(rows, t);
    }
  }

  lemma TasksWithSameId(tasks: seq<Task>, t: Task, t': Task)
    requires TaskIdsUnique(tasks) && t in tasks && t' in tasks && t.id == t'.id
    ensures t == t'
  {
  }

  predicate ViewIdsDistinct(vs: seq<TaskView>)
  {
    forall i, j :: 0 <= i < j < |vs| ==> vs[i].task.id != vs[j].task.id
  }

  lemma ViewIdsUnique(u: seq<Task>, views: seq<TaskView>)
    requires TaskIdsUnique(u) && |views| == |u|
    requires forall k :: 0 <= k < |u| ==> views[k].task == u[k]
    ensures ViewIdsDistinct(views)
  {
  }

  /** Distinct ids are a property of the multiset of views. */
  lemma PermutationKeepsUnique(a: seq<TaskView>, b: seq<TaskView>)
    requires ViewIdsDistinct(a) && multiset(a) == multiset(b)
    ensures ViewIdsDistinct(b)
  {
    forall i, j | 0 <= i < j < |b| ensures b[i].task.id != b[j].task.id {
      if b[i].task.id == b[j].task.id {
        assert b[i] in multiset(a) && b[j] in multiset(a);
        var x :| 0 <= x < |a| && a[x] == b[i];
        var y :| 0 <= y < |a| && a[y] == b[j];
        if x == y {
          // b[i] == b[j] appears twice in b, so twice in a, which distinct ids forbid
          assert b[i] == b[j];
          TwiceInSeq(b, i, j);
          OnceInSeq(a, x);
          assert false;
        }
      }
    }
  }

  lemma TwiceInSeq(s: seq<TaskView>, i: int, j: int)
    requires 0 <= i < j < |s| && s[i] == s[j]
    ensures multiset(s)[s[i]] >= 2
  {
    var x := s[i];
    assert s == s[..i] + [x] + s[i + 1..j] + [x] + s[j + 1..];
  }

  lemma OnceInSeq(s: seq<TaskView>, k: int)
    requires ViewIdsDistinct(s) && 0 <= k < |s|
    ensures multiset(s)[s[k]] == 1
  {
    var x := s[k];
    assert s == s[..k] + [x] + s[k + 1..];
    assert x !in s[..k] by {
      forall y | y in s[..k] ensures y != x {
        var m :| 0 <= m < k && s[..k][m] == y;
        assert s[m] == y;
      }
    }
    var tl := s[k + 1..];
    assert x !in tl by {
      forall y | y in tl ensures y != x {
        var m :| 0 <= m < |tl| && tl[m] == y;
        assert s[k + 1 + m] == y;
      }
    }
  }

  // ----- getProfileTasks -----

  /** One task per row of `profile`, in row order, each row's task found by id. */
  function RowTasks(tasks: seq<Task>, rs: seq<Assignment>): (r: seq<Task>)
    requires forall a :: a in rs ==> a.task in TaskIds(tasks)
    ensures |r| == |rs|
    ensures forall i :: 0 <= i < |rs| ==> r[i] in tasks && r[i].id == rs[i].task
    ensures forall i :: 0 <= i < |rs| ==> r[i] == tasks[FindTask(tasks, rs[i].task).value]
  {
    if rs == [] then []
    else
      var k := FindTask(tasks, rs[0].task).value;
      [tasks[k]] + RowTasks(tasks, rs[1..])
  }

  /** Lines 41-63, before the sort: the views of the tasks `profile` is assigned to. */
  function ProfileViews(tasks: seq<Task>, rows: seq<Assignment>, profile: UserId): seq<TaskView>
    requires forall a :: a in rows ==> a.task in TaskIds(tasks)
  {
    ViewsOf(rows, RowTasks(tasks, RowsOfUser(rows, profile)))
  }

  /** Every task shown on a profile is a task with its assignees, the profile's user
      among them. */
  lemma ProfileViewsSound(tasks: seq<Task>, rows: seq<Assignment>, profile: UserId)
    requires forall a :: a in rows ==> a.task in TaskIds(tasks)
    ensures forall v :: v in ProfileViews(tasks, rows, profile) ==>
      v.task in tasks && v == ViewOf(rows, v.task) && profile in v.assignees
  {
    var rs := RowsOfUser(rows, profile);
    var vs := ProfileViews(tasks, rows, profile);
    forall v | v in vs ensures v.task in tasks && v == ViewOf(rows, v.task) && profile in v.assignees {
      var i :| 0 <= i < |vs| && vs[i] == v;
      assert rs[i] in rows;
      AssigneesOfElems(rows, v.task.id);
    }
  }

  /** Every task the profile's user is assigned to is shown (unique ids make the task
      found for a row the task itself). */
  lemma ProfileViewsComplete(tasks: seq<Task>, rows: seq<Assignment>, profile: UserId, t: Task)
    requires forall a :: a in rows ==> a.task in TaskIds(tasks)
    requires TaskIdsUnique(tasks)
    requires t in tasks && profile in AssigneesOf(rows, t.id)
    ensures ViewOf(rows, t) in ProfileViews(tasks, rows, profile)
  {
    var rs := RowsOfUser(rows, profile);
    var ts := RowTasks(tasks, rs);
    AssigneesOfElems(rows, t.id);
    var a :| a in rows && a.task == t.id && a.user == profile;
    assert a in rs;
    var i :| 0 <= i < |rs| && rs[i] == a;
    TasksWithSameId(tasks, ts[i], t);
    assert ProfileViews(tasks, rows, profile)[i] == ViewOf(rows, t);
  }

  // ----- the outcomes of getTask and getProfileTasks -----

  /** getTask (get-task.ts:8-48): checks in order, then the task with all its row users. */
  function GetTaskResult(tasks: seq<Task>, conns: Rows, rows: seq<Assignment>,
                         viewer: UserId, taskId: TaskId): (r: Result<TaskView>)
    ensures r == Err(ApiError("getTask/invalid_user_id")) <==> viewer == ""
    ensures r == Err(ApiError("getTask/invalid_task_id")) <==> viewer != "" && taskId == ""
    ensures r == Err(ApiError("getTask/task_id_nonexistent")) <==>
      viewer != "" && taskId != "" && RowsOf(rows, taskId) == []
    ensures r == Err(ApiError("getTask/no_perm")) <==>
      viewer != "" && taskId != "" && RowsOf(rows, taskId) != [] && taskId in TaskIds(tasks)
      && !CanView(conns, viewer, tasks[FindTask(tasks, taskId).value].creator, AssigneesOf(rows, taskId))
    ensures r == Err(UnknownError) <==>
      viewer != "" && taskId != "" && RowsOf(rows, taskId) != [] && taskId !in TaskIds(tasks)
    ensures r.Ok? <==>
      viewer != "" && taskId != "" && RowsOf(rows, taskId) != [] && taskId in TaskIds(tasks)
      && CanView(conns, viewer, tasks[FindTask(tasks, taskId).value].creator, AssigneesOf(rows, taskId))
    ensures r.Ok? ==> (r.value.task in tasks && r.value.task.id == taskId
                       && r.value.assignees == AssigneesOf(rows, taskId)
                       && CanView(conns, viewer, r.value.task.creator, r.value.assignees))
  {
    if viewer == "" then Err(ApiError("getTask/invalid_user_id"))
    else if taskId == "" then Err(ApiError("getTask/invalid_task_id"))
    else if RowsOf(rows, taskId) == [] then Err(ApiError("getTask/task_id_nonexistent"))
    else match FindTask(tasks, taskId)
      case None => Err(UnknownError)
      case Some(k) =>
        if !CanView(conns, viewer, tasks[k].creator, AssigneesOf(rows, taskId)) then Err(ApiError("getTask/no_perm"))
        else Ok(ViewOf(rows, tasks[k]))
  }

  /** Every assignment row names a stored task, so getTask never reaches its unknown
      error: each request ends in one of its four codes or in the task. */
  lemma GetTaskNeverUnknown(tasks: seq<Task>, conns: Rows, rows: seq<Assignment>,
                            viewer: UserId, taskId: TaskId)
    requires RowTasksExist(rows, tasks)
    ensures GetTaskResult(tasks, conns, rows, viewer, taskId) != Err(UnknownError)
  {
    if viewer != "" && taskId != "" && RowsOf(rows, taskId) != [] {
      var a := RowsOf(rows, taskId)[0];
      assert a in RowsOf(rows, taskId);
    }
  }

  /** getProfileTasks (get-profile-tasks.ts:12-74): checks in order, then the views of
      the profile user's tasks sorted by deadline and title. */
  function ProfileTasksResult(tasks: seq<Task>, conns: Rows, rows: seq<Assignment>,
                              viewer: UserId, profile: UserId): (r: Result<seq<TaskView>>)
    requires RowTasksExist(rows, tasks)
    ensures r == Err(ApiError("getProfileTasks/invalid_user_id")) <==> viewer == ""
    ensures r == Err(ApiError("getProfileTasks/invalid_profile_user_id")) <==> viewer != "" && profile == ""
    ensures r == Err(ApiError("getProfileTasks/no_perm")) <==>
      viewer != "" && profile != "" && !CanSeeProfile(conns, viewer, profile)
    ensures r.Ok? <==> viewer != "" && profile != "" && CanSeeProfile(conns, viewer, profile)
  {
    if viewer == "" then Err(ApiError("getProfileTasks/invalid_user_id"))
    else if profile == "" then Err(ApiError("getProfileTasks/invalid_profile_user_id"))
    else if !CanSeeProfile(conns, viewer, profile) then Err(ApiError("getProfileTasks/no_perm"))
    else if RowsOfUser(rows, profile) == [] then Ok([])
    else Ok(SortBy(ByDeadlineThenTitle, ProfileViews(tasks, rows, profile)))
  }

  /** A profile listing is sorted, holds one entry per row of the profile user, and
      every entry is a task that user is assigned to, with all its assignees. */
  lemma ProfileTasksSound(tasks: seq<Task>, conns: Rows, rows: seq<Assignment>, viewer: UserId, profile: UserId)
    requires RowTasksExist(rows, tasks)
    ensures var r := ProfileTasksResult(tasks, conns, rows, viewer, profile);
      r.Ok? ==> (&& Sorted(ByDeadlineThenTitle, r.value)
                 && |r.value| == |RowsOfUser(rows, profile)|
                 && forall v :: v in r.value ==> v.task in tasks && v == ViewOf(rows, v.task) && profile in v.assignees)
  {
    var r := ProfileTasksResult(tasks, conns, rows, viewer, profile);
    if r.Ok? && RowsOfUser(rows, profile) != [] {
      var pv := ProfileViews(tasks, rows, profile);
      assert r.value == SortBy(ByDeadlineThenTitle, pv);
      SortBySpec(ByDeadlineThenTitle, pv);
      ProfileViewsSound(tasks, rows, profile);
      SameMembers(pv, r.value);
      assert |r.value| == |multiset(r.value)| == |multiset(pv)| == |pv|;
    }
  }

  /** Every task the profile user is assigned to is listed. */
  lemma ProfileTasksComplete(tasks: seq<Task>, conns: Rows, rows: seq<Assignment>, viewer: UserId,
                             profile: UserId, t: Task)
    requires RowTasksExist(rows, tasks) && TaskIdsUnique(tasks)
    requires t in tasks && profile in AssigneesOf(rows, t.id)
    ensures var r := ProfileTasksResult(tasks, conns, rows, viewer, profile);
      r.Ok? ==> ViewOf(rows, t) in r.value
  {
    var r := ProfileTasksResult(tasks, conns, rows, viewer, profile);
    if r.Ok? {
      var pv := ProfileViews(tasks, rows, profile);
      ProfileViewsComplete(tasks, rows, profile, t);
      assert RowsOfUser(rows, profile) != [] by {
        AssigneesOfElems(rows, t.id);
        var a :| a in rows && a.task == t.id && a.user == profile;
        assert a in RowsOfUser(rows, profile);
      }
      SortBySpec(ByDeadlineThenTitle, pv);
      SameMembers(pv, r.value);
    }
  }
}
