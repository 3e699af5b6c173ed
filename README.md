# Tasker backend core in Dafny

This project models the business layer of the Tasker backend: a task manager where users connect with each other, create tasks, assign them to connected users, edit and delete them, and view tasks and profiles. One client-side piece is also modelled, the assignee diff of the task dialog.

The model follows the source files one by one:

- **`ConnectionGraph`** (connection_graph.dfy): the Connection table. It is a map from an ordered pair (requester, requestee) to the `accepted` flag. It holds the status query, the three list queries, and one transition function per mutator.
- **`Tables`** (tables.dfy): the Task and TaskAssignment tables as sequences in table order. It holds the row queries the handlers run, the database's keys and foreign keys, and the lemmas showing that each kind of write keeps them.
- **`TaskRules`** (task_rules.dfy): the authorisation predicates. It also holds the validation chains of createTask, editTask and deleteTask, the field overwrites of editTask, and the assignee reconciliation of editTask.
- **`TaskViews`** (task_views.dfy): the outcomes of getTask and getProfileTasks. It also holds the search filter, the union of the two queries, and the orders that search and profile listings sort by.
- **`UserUpdate`** (user_update.dfy): the key whitelist of updateUser, the order in which its errors are reported, and the row it writes.
- **`AssigneeDiff`** (assignee_diff.dfy): the add/remove diff built by the task dialog, and its round trip through editTask.
- **`Tasker`** (store.dfy): the class `Store`. It holds the four tables as fields and one method per request handler. Each method runs the source's checks in order and writes the tables the way the source does: row by row in its loops, one key at a time in its deletes. The one exception is the title overwrite of `Store.EditTask`, which follows the corrected rule of the Findings table. Each method is proved equal to the outcome function of its module, so every property proved about those functions holds for the handlers.

These become parameters:

- the clock (`now`);
- the uuid of a new task (`newId`, which must not be in use);
- bcrypt hashing and the email regex (`hash`, `emailValid`).

Assignment-row uuids are drawn from a counter, `nextAssignmentId`. Calendar synchronisation is a no-op. Errors carry the source's code string; `UnknownError` stands for a failure that is not an `ApiError`, such as a TypeError or an ORM refusal.

## Model

| member | source | states |
|---|---|---|
| Domain.ParseStatus | backend/src/entity/Task.ts:4-9 | a string is accepted exactly when it names one of the four enum values, and it parses to that value |
| Domain.StatusNameParses | backend/src/entity/Task.ts:4-9 | every status parses back from its name |
| Text.TrimEmptyIffBlank | backend/src/tasks/task-create.ts:35-39 | `title.trim().length > 0` fails exactly for all-whitespace strings |
| Text.LiteralTermIsSubstring | backend/src/tasks/task-search.ts:39-44 | for a search term without `%`, `_` or `\`, `ILIKE '%term%'` holds exactly when the case-folded term occurs in the case-folded column |
| Text.UnderscoreIsWildcard | backend/src/tasks/task-search.ts:39-41 | the term is passed to ILIKE unescaped, so `_` matches any character: the term "a_c" finds the title "ABC" |
| ConnectionGraph.StatusOf | backend/src/connection.ts:105-133 | "unconnected" iff there is no row in either direction; "connected" only for an accepted row and "requested" only for a pending one, the row from requester to requestee being consulted before the reverse one: when that row exists its flag alone decides connected or requested, and otherwise the reverse row's flag does |
| ConnectionGraph.StatusSymmetric | backend/src/connection.ts:105-133 | with at most one row per pair of users, the status is symmetric, and connected/requested are exactly accepted/pending |
| ConnectionGraph.NoSelfConnection | backend/src/connection.ts:19-24 | with pair uniqueness, no user is connected to themselves |
| ConnectionGraph.IncomingRequests | backend/src/connection.ts:150-160 | the requesters of unaccepted rows whose requestee is the user |
| ConnectionGraph.OutgoingRequests | backend/src/connection.ts:164-174 | the requestees of unaccepted rows whose requester is the user |
| ConnectionGraph.AcceptedConnections | backend/src/connection.ts:176-196 | the other endpoint of every accepted row touching the user, in either direction |
| ConnectionGraph.ListsAgreeWithStatus | backend/src/connection.ts:150-196 | incoming and outgoing requests are "requested" users; the accepted list is exactly the "connected" users |
| ConnectionGraph.IsValidAcceptedConnections | backend/src/connection.ts:198-206 | true exactly for a null row list, the case the accepted query reports as accepted_connections_fail |
| ConnectionGraph.CreateConnection | backend/src/connection.ts:14-45 | connect_to_self iff the two users are the same; connection_exists iff a row exists in either direction; success iff the users differ and no row joins them, and it adds exactly the (requester, requestee) row, pending, keeps every other row, and keeps pair uniqueness |
| ConnectionGraph.DeleteConnection | backend/src/connection.ts:48-75 | connect_to_self and connection_not_exists iff their conditions hold; success iff the users differ and a row joins them, and it removes one row joining the two users, in either direction, and nothing else; with pair uniqueness no row is left between them |
| ConnectionGraph.AcceptConnection | backend/src/connection.ts:78-88 | fails iff no row runs from requester to requestee; success keeps every key, accepts that row only, and makes the users connected both ways |
| ConnectionGraph.DeclineConnection | backend/src/connection.ts:92-101 | fails iff no row runs from requester to requestee; success removes exactly that row and keeps pair uniqueness |
| ConnectionGraph.CreateThenDelete | backend/src/connection.ts:14-75 | deleting a request just created, from either end, restores the table |
| ConnectionGraph.CreateThenAnswer | backend/src/connection.ts:14-101 | declining a fresh request restores the table; accepting it succeeds and puts the requester among the requestee's accepted connections |
| ConnectionGraph.RequesterCannotAccept | backend/src/connection.ts:78-88 | the requester cannot accept their own request: with the arguments reversed no row is found |
| TaskRules.CanAssignNeedsAcceptance | backend/src/tasks/task-helpers.ts:6-18 | an assignee is valid iff they are the editor or joined to them by an accepted row; a pending connection never makes another user valid |
| TaskRules.ViewNeedsAcceptedConnection | backend/src/tasks/get-task.ts:29-38 | the viewer may see a task iff they are its creator or share an accepted row with some assignee; with no accepted row only the creator may |
| TaskRules.ProfileAccessSymmetric | backend/src/tasks/get-profile-tasks.ts:25-33 | profile access is symmetric, and between two users it means an accepted row |
| TaskRules.CreateTaskCheck | backend/src/tasks/task-create.ts:22-82 | each error code iff its check is the first to fail, in source order, with the deadline strictly after `now` and a non-negative estimate; success iff every check passes |
| TaskRules.CreateTaskBoundaries | backend/src/tasks/task-create.ts:48-76 | a deadline equal to now is refused, an estimate of 0 accepted, a negative one refused |
| TaskRules.InitialAssignees | backend/src/tasks/task-create.ts:146-174 | never empty: exactly `[creator]` when assignees are null or empty, otherwise exactly the list as given, in its order and with its duplicates |
| TaskRules.CreateTaskError | backend/src/tasks/task-create.ts:22-180 | the validation error comes first; invalid_assignees iff a non-empty list holds a user who is neither the creator nor connected; success otherwise |
| TaskRules.EditTaskCheck | backend/src/tasks/task-edit.ts:25-87 | each of invalid_task_id, invalid_editor, bad_params, invalid_status, invalid_deadline, invalid_estimated_days iff it is the first check to fail |
| TaskRules.EditTaskErrorCases | backend/src/tasks/task-edit.ts:25-153 | the request checks come first, then task_id_nonexistent, then no_perm; invalid_add_assignees and invalid_remove_assignees only when the assignee lists change something, additions before removals; success iff all pass |
| TaskRules.ApplyEdits | backend/src/tasks/task-edit.ts:115-119 | each field is overwritten only by a truthy value (a title only when it has text; an empty description or an estimate of 0 changes nothing); id, creator and project are kept, and so is a non-blank title |
| TaskRules.ApplyEditsAsWritten | backend/src/tasks/task-edit.ts:115-119 | the write as the source has it: id, creator and project are kept |
| TaskRules.AsWrittenEditStoresBlankTitle | backend/src/tasks/task-edit.ts:38-119 | an edit with title " " and a status passes the checks and, as written, stores a blank title |
| TaskRules.UsersAreAssigned | backend/src/tasks/task-edit.ts:211-221 | true iff every id to remove is a current assignee |
| TaskRules.GetNewAssignees | backend/src/tasks/task-edit.ts:223-239 | the current list, each new addition appended once, minus every removed id; as a set, (current + added) - removed |
| TaskRules.NewAssigneesElems | backend/src/tasks/task-edit.ts:223-239 | as a set the result is (current + added) - removed, and it holds no duplicate when current holds none |
| TaskRules.EditedAssignees | backend/src/tasks/task-edit.ts:155-176 | after the writes the task's assignees are getNewAssignees' set, or just the editor when that is empty; other tasks keep theirs |
| TaskRules.KeptAssignees | backend/src/tasks/task-edit.ts:182-209 | after updateAssignments the task gains the added non-assignees and loses the removed assignees; other tasks are untouched |
| TaskRules.AddingAssignedIsNoop | backend/src/tasks/task-edit.ts:188-200 | adding users who are already assigned writes no row |
| TaskRules.FallbackRow | backend/src/tasks/task-edit.ts:163-176 | the editor's row is added exactly when getNewAssignees comes out empty |
| TaskRules.EditKeepsTables | backend/src/tasks/task-edit.ts:155-176 | an edit with assignee changes keeps keys and foreign keys and keeps every task assigned |
| TaskRules.DeleteTaskError | backend/src/tasks/task-delete.ts:13-26 | invalid_task_id iff the task has no assignment rows, checked first; invalid_delete iff it has rows, exists, and the deletor is not its creator; success iff it has rows and the deletor created it |
| Tables.FindTask | backend/src/tasks/task-edit.ts:89-99 | the index of a task with that id, or none iff no task has it |
| Tables.RowsOf | backend/src/tasks/get-task.ts:21-24 | exactly the rows of the task, in row order |
| Tables.RowsOfUser | backend/src/tasks/get-profile-tasks.ts:35-37 | exactly the rows of the user, in row order |
| Tables.RowsIn | backend/src/tasks/get-profile-tasks.ts:45-48 | exactly the rows whose task is one of the given ids |
| Tables.RowsOfRowsIn | backend/src/tasks/get-profile-tasks.ts:45-63 | restricting rows to a set of tasks keeps all rows of each task in it |
| Tables.NewRows | backend/src/tasks/task-create.ts:167-174 | one row per listed user, in list order, duplicates included, with consecutive fresh ids |
| Tables.NewRowsAssignees | backend/src/tasks/task-create.ts:167-174 | the new rows assign the task to exactly the listed users |
| Tables.DropAssignees | backend/src/tasks/task-helpers.ts:33-39 | deleting the (task, user) rows removes those users from that task and changes no other task |
| Tables.CreateKeepsTables | backend/src/tasks/task-create.ts:134-174 | saving a new task with its rows keeps keys and foreign keys, assigns it exactly the listed users, and changes no other task's assignees |
| Tables.DeleteKeepsTables | backend/src/tasks/task-delete.ts:31-36 | removing a task and its rows keeps keys and foreign keys, leaves no row of it, and keeps every other task and its assignees |
| Tables.ReplaceKeepsInvariants | backend/src/tasks/task-edit.ts:115-129 | overwriting a task keeps every task assigned, and keeps titles non-blank when the new one has text |
| TaskViews.SortBySpec | backend/src/tasks/get-profile-tasks.ts:69-74 | the sort returns a sorted permutation of its input |
| TaskViews.BuildFilter | backend/src/tasks/task-search.ts:36-80 | an unknown status gives no filter (the search returns nothing); otherwise the status criterion is the parsed status, and the title, description, project and creator criteria are set exactly when those parameters are given, with the given values; the deadline and estimate criteria are the given ones |
| TaskViews.AccessibleIdsAreOwn | backend/src/tasks/task-search.ts:82-125 | the extra user_assignee ids add nothing: the assigned branch yields exactly the tasks `me` is assigned to |
| TaskViews.UniqById | backend/src/tasks/task-search.ts:139 | a union by id: its ids are the ids of both inputs, it starts with the first input and holds only tasks of the inputs, and it keeps ids unique |
| TaskViews.SearchUnionSpec | backend/src/tasks/task-search.ts:82-139 | the union holds exactly the matching tasks assigned to `me` and the tasks created by `me` that match every other criterion, with no id twice |
| TaskViews.TaskSearchSpec | backend/src/tasks/task-search.ts:24-166 | an unknown status returns nothing; the results are sorted by deadline, carry all their assignees, have distinct ids, and a task is returned iff one of the two queries finds it |
| TaskViews.GetTaskResult | backend/src/tasks/get-task.ts:8-48 | invalid_user_id, invalid_task_id, task_id_nonexistent and no_perm iff their conditions hold, in that order; UnknownError iff the rows name a task that is not stored; success iff every check passes, and it returns the stored task with the users of its rows in row order |
| TaskViews.GetTaskNeverUnknown | backend/src/tasks/get-task.ts:21-40 | when every assignment row names a stored task, getTask never ends in UnknownError |
| TaskViews.ProfileTasksResult | backend/src/tasks/get-profile-tasks.ts:8-77 | invalid_user_id, invalid_profile_user_id and no_perm iff their conditions hold, in that order; success iff the viewer is the profile user or connected to them |
| TaskViews.ProfileTasksSound | backend/src/tasks/get-profile-tasks.ts:35-74 | the listing is sorted by deadline then title, has one entry per row of the profile user (so none without rows), and each entry is a task of theirs with all its assignees |
| TaskViews.ProfileTasksComplete | backend/src/tasks/get-profile-tasks.ts:35-63 | every task the profile user is assigned to is listed |
| UserUpdate.ChangeError | backend/src/users/users-update.ts:19-59 | password, the four plain fields and a valid email are accepted; an email the regex rejects gives invalid_email; any other key gives invalid_change |
| UserUpdate.FirstError | backend/src/users/users-update.ts:18-61 | no error iff every key is accepted, and any error is one of the two synchronous codes |
| UserUpdate.FirstErrorIsFirst | backend/src/users/users-update.ts:18-61 | the reported error is that of a key all of whose predecessors are accepted |
| UserUpdate.UpdateOutcome | backend/src/users/users-update.ts:13-76 | key errors come first, so an invalid key on an unknown id reports the key error; then email_exists for an email in use; an empty change set then fails with an unknown error; then no_user iff the id is unknown; success writes the changes into the user's row |
| UserUpdate.ApplyListed | backend/src/users/users-update.ts:21-54 | with distinct keys, each listed column stores the given value, a password only as its hash |
| UserUpdate.ApplyUnlisted | backend/src/users/users-update.ts:64-68 | a column whose key is absent keeps its value |
| UserUpdate.UpdateKeepsEmailsUnique | backend/src/users/users-update.ts:24-42 | a successful update keeps emails unique |
| UserUpdate.OwnEmailIsTaken | backend/src/users/users-update.ts:33-39 | re-submitting one's own email is refused with email_exists |
| AssigneeDiff.EditAssigneeArgs | frontend/components/task/TaskModal.tsx:144-161 | both lists are sent exactly when the assignee field was touched |
| AssigneeDiff.DiffSpec | frontend/components/task/TaskModal.tsx:147-157 | additions are the edited ids not originally assigned; removals are the original ids no longer listed, with no duplicate, all original, disjoint from additions |
| AssigneeDiff.DiffRoundTrip | frontend/components/task/TaskModal.tsx:143-161 | getNewAssignees applied to the diff yields the edited set |
| AssigneeDiff.DiffThenEdit | frontend/components/task/TaskModal.tsx:143-161 | the edit leaves the task assigned to exactly the chosen users, or to the editor when the list was emptied |
| AssigneeDiff.UnchangedFieldIsNoChange | frontend/components/task/TaskModal.tsx:147-161 | re-submitting the same set sends two empty lists, which editTask treats as no assignee change |
| Tasker.Store.constructor | backend/src/entity/TaskAssignment.ts:5-23 | empty tables, well formed and satisfying the invariants |
| Tasker.Store.CreateUserConnection | backend/src/connection.ts:14-45 | the error and the new Connection table are those of CreateConnection; the table is unchanged on error |
| Tasker.Store.DeleteUserConnection | backend/src/connection.ts:48-75 | the error and the new table are those of DeleteConnection |
| Tasker.Store.AcceptRequest | backend/src/connection.ts:78-88 | the error and the new table are those of AcceptConnection |
| Tasker.Store.DeclineRequest | backend/src/connection.ts:92-101 | the error and the new table are those of DeclineConnection |
| Tasker.Store.ValidAssignees | backend/src/tasks/task-helpers.ts:6-18 | true iff every assignee is the editor or connected to them, so true for [] |
| Tasker.Store.DeleteAssignment | backend/src/tasks/task-helpers.ts:20-23 | exactly the rows with that id are gone |
| Tasker.Store.DeleteAssignmentByTaskAndUserId | backend/src/tasks/task-helpers.ts:33-39 | every (task, user) row is gone; the user leaves that task's assignees and no other task changes |
| Tasker.Store.CreateTask | backend/src/tasks/task-create.ts:11-186 | the error is CreateTaskError and nothing changes on error; success appends the task with the given fields and one row per initial assignee, in order; it keeps the keys and the invariants |
| Tasker.Store.SaveAssignments | backend/src/tasks/task-create.ts:167-174 | appends the new rows for the list, in order |
| Tasker.Store.EditTask | backend/src/tasks/task-edit.ts:13-180 | the error is EditTaskError and nothing changes on error; success writes ApplyEdits into the task and, when the assignees change, the reconciled rows; it keeps the keys, every task assigned, and titles non-blank |
| Tasker.Store.WriteEdit | backend/src/tasks/task-edit.ts:121-179 | with no assignee change only the task is written; otherwise the assignee checks decide the error, and success writes the task and the reconciled rows |
| Tasker.Store.ChangeAssignees | backend/src/tasks/task-edit.ts:134-176 | the add check, then the remove check; success writes the task and the rows EditedRows describes |
| Tasker.Store.WriteAssignees | backend/src/tasks/task-edit.ts:155-176 | with the assignee checks passed: the task is overwritten, the rows become EditedRows and the counter EditedNext, keys stay valid and every task stays assigned |
| Tasker.Store.UpdateAssignments | backend/src/tasks/task-edit.ts:182-209 | adds the rows of new additions, then deletes the rows of removed current assignees |
| Tasker.Store.AddAssignees | backend/src/tasks/task-edit.ts:188-200 | one new row per added id that is not a current assignee, in order |
| Tasker.Store.RemoveAssignees | backend/src/tasks/task-edit.ts:201-207 | deletes every row of each removed id that is a current assignee |
| Tasker.Store.DeleteTask | backend/src/tasks/task-delete.ts:8-37 | the error is DeleteTaskError and nothing changes on error; success removes the task and exactly its rows, so it is not found again, and keeps every other task and its assignees |
| Tasker.Store.DropTask | backend/src/tasks/task-delete.ts:28-36 | removes the task's rows one key at a time, then the task |
| Tasker.Store.DeleteAssignments | backend/src/tasks/task-delete.ts:31-33 | deletes the rows carrying the keys of the given rows |
| Tasker.Store.GetTask | backend/src/tasks/get-task.ts:8-48 | returns GetTaskResult and changes nothing |
| Tasker.Store.ConnectedToAnAssignee | backend/src/tasks/get-task.ts:50-61 | true iff some row's user is connected to the viewer |
| Tasker.Store.PushAssignees | backend/src/tasks/get-task.ts:42-45 | the users of the given rows, one per row, in row order |
| Tasker.Store.GetProfileTasks | backend/src/tasks/get-profile-tasks.ts:8-77 | returns ProfileTasksResult and changes nothing |
| Tasker.Store.ProfileAssignees | backend/src/tasks/get-profile-tasks.ts:41-63 | the profile user's tasks, each with all its assignees |
| Tasker.Store.CollectAssignees | backend/src/tasks/get-profile-tasks.ts:58-62 | the users of the task's rows, in row order |
| Tasker.Store.TaskSearch | backend/src/tasks/task-search.ts:24-166 | returns TaskViews.TaskSearch and changes nothing |
| Tasker.Store.AttachAssignees | backend/src/tasks/task-search.ts:141-154 | each found task, in order, with the users of all its rows |
| Tasker.Store.UpdateUser | backend/src/users/users-update.ts:13-76 | the error is UpdateOutcome's, and the row is written only on success; email uniqueness is kept |

## Left out

- Calendar synchronisation (saveTaskToCalendar, deleteTaskFromCalendar) is Google API network I/O. It is a no-op here.
- Password hashing and the email regex are foreign primitives. They are the parameters `hash` and `emailValid`.
- uuidv4: a new task's id is a parameter that must not be in use. Assignment ids come from a counter. Randomness is not modelled.
- `Date.now()` is the parameter `now`. Deadlines are integer milliseconds. JS `Date` parsing is not modelled: a deadline argument is missing, not a Date, or an instant.
- `estimated_days` is a Dafny `real`. Floating-point rounding is not modelled.
- ILIKE lower-cases both strings with a character mapping (`Text.LowerChar`) that covers ASCII only. Unicode case folding is not modelled. The `%`, `_` and `\` of a search term keep their LIKE meaning (`Text.LikeMatch`). A term ending in a lone `\` matches nothing in the model, where the database raises an error.
- `localeCompare` is modelled as code-unit lexicographic order. Locale collation is not modelled.
- Array.prototype.sort is modelled as an insertion sort, the order being total. The insertion is stable: a task is placed before the first task it must precede, so tasks the comparator calls equal keep their input order, as Array.prototype.sort has guaranteed since ES2019.
- Tasker.Store.EditTask: writes the corrected title overwrite (`TaskRules.ApplyEdits`), so a title without text leaves the old title in place and the Store invariant keeps every title non-blank. The source as written stores such a title (task-edit.ts:115); `TaskRules.ApplyEditsAsWritten` models that behaviour.
- The database returns rows in table order. Any other order a real query plan might produce is not modelled.
- The foreign key from an assignment row to a User row is not modelled, and neither is any cascade.
- Concurrency: `Promise.all` and interleaving requests. Each handler is one atomic sequential method. For updateUser, the errors raised before the first `await` are reported in key order, ahead of email_exists.
- TypeORM's refusal of an update with no columns is assumed to be an `UnknownError`.
- Error messages are not modelled, only the code strings.
- task-create.ts:84-131 repeats the checks of lines 22-82. The repeat cannot fail once the first pass has succeeded, so it is not modelled twice.
- editTask's duplicate_task_ids (task-edit.ts:101-105) cannot happen, because task ids are the primary key (`Tables.TaskIdsUnique` is part of `Valid`).
- deleteRequest (connection.ts:137-146) is the same code as declineRequest. `Store.DeclineRequest` models both.
- userIdExists (task-helpers.ts:25-30) is the membership test `creator in users` inside `TaskRules.CreateTaskCheck`.
- `Store.DeleteUserConnection` takes the (requester, requestee) row when both directions exist. Under pair uniqueness that case cannot arise.
- In taskSearch, the creator filter is string equality, and `In([])` is taken to match no task.
- In taskSearch, the `search` record is built by `TaskViews.BuildFilter` as one value. The source fills it field by field.
- Password-hash scrubbing of returned users (`delete ...password_hash`) only changes what is serialised. Views carry user ids, not user rows.
- Express routing, JWT and CORS are not part of this model. The session user is passed as the acting argument in the positions the routes use.

## Findings

| source | as written | input that shows it | evidently intended | confidence | as-written member | corrected member |
|---|---|---|---|---|---|---|
| backend/src/tasks/task-edit.ts:115 | `if (title)` overwrites the title with any non-empty string, while the guard at line 40 only counts a title whose trim is non-empty | editTask with title " " and status "DONE" on a task titled "Plan" | a title without text is ignored, as the guard treats it, so a task never gets a blank title (createTask refuses one at task-create.ts:35-39) | not executed | TaskRules.AsWrittenEditStoresBlankTitle | TaskRules.ApplyEdits |
