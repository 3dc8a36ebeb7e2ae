# J3ktMan kanban and timeline core, modelled in Dafny

J3ktMan is a small project manager built with Reflex. A project has
members, invitation codes, milestones, statuses (the kanban columns) and
tasks. Each task sits in one status and in at most one milestone. Tasks
carry assignments to users and dependency edges between them. This project
models four parts of it:

- **The domain operations** (`crud/tasks.py`, `crud/project.py`, records
  from `model/tasks.py` and `model/project.py`). Each one is a pure
  function from a `Store` to a new `Store` and a result. The store is one
  immutable record of finite maps keyed as the tables are, plus the list of
  invitation codes and the list of dependency edges. Every Python exception
  the code raises becomes a constructor of `Model.Error`.
- **The per-session projection** of `state/project.py`:
  - `Data`, built by `load_project` and patched by every handler;
  - three invariants over it. *Partition*: each task id is in exactly one
    status list, once. *Status coherence*: a task's `status_id` names the
    status whose list holds it. *Milestone coherence*: a milestone's list
    holds exactly its tasks;
  - `Mirrors`, which says the projection agrees with the store.

  A handler returns a `Step`: the store, the projection, and how it ended
  (normally, with an error toast, or with an uncaught exception). An
  uncaught exception stops the handler at the line that raises it. The
  store keeps what was committed. The projection keeps the patches made
  before that line.
- **The UI guards** of the kanban page, the task dialog, the task form and
  the milestone dialog. Each is a record of optional fields. A handler
  returns the new record and an `Intents.Effect`: nothing, a call into the
  projection, an error toast, or an exception. `Intents.Perform` runs such
  a call against the projection handlers.
- **The month arithmetic** of the timeline page:
  - `count_month`;
  - the 48-month floor;
  - the fallback range of month columns, with the Gregorian length of each
    month;
  - the day and pixel totals;
  - the expanded or collapsed flag of each milestone.

  Calendar days are counted as proleptic Gregorian ordinals, the day
  numbering Python's `datetime` uses. This makes `current +=
  timedelta(days=day_count)` exactly the step to the next month.

Database row order is modelled as ascending id order (`Rows.Ascending`).
Python dict insertion order follows from it. `now`, random draws and the
conversion of dates to epochs are parameters. `state/project.py` imports
`update_task_dates` and `DateError` from the `crud` module and calls a
seven-argument `create_task`. The repository's `crud/tasks.py` has neither
import and its `create_task` takes four arguments. `get_project` and
`is_in_project` are missing from `crud` as well. These are not part of
this model, and the model stands in for them as follows:

- `update_task_dates` is a function parameter that returns the committed
  store or `DateError`;
- the seven-argument `create_task` is `CrudTasks.CreateTaskWith`. It is
  the four-argument one followed by a check that a given milestone exists
  (`InvalidMilestoneIDError`) and by the date check of the task form's
  `check_date_validity` (`DateError`). It then stores the milestone and
  the dates;
- `get_project` is taken as the lookup of the project row;
- `is_in_project` is taken as the lookup of the membership row.

The `InvitationCode` record class is not part of this model either. Its
fields are the ones `get_invitation_code` reads and writes.

The model keeps these behaviours of the code:

- The error names are the code's own exception classes.
- Called as written, with seven arguments, the four-argument crud
  `create_task` raises TypeError (`ProjectHandlers.CreateTaskAsWritten`).
- `delete_status` validates only the status being deleted. The migration
  target is not checked (`CrudTasksFacts.DeleteStatusOntoItselfOrphans`).
- The rename queries do not exclude the renamed row. Renaming a status or
  task to its current name fails (`CrudTasksFacts.RenameStatusToOwnNameFails`).
- The cycle check looks only at the direct reverse edge
  (`CrudTasks.ThreeCycleAccepted`).
- Milestone task lists are Python lists, not sets.
- The handlers patch the projection partially when they raise, rather than
  all or nothing. The page handlers clear their fields only after the
  forwarded call has returned (`Kanban.DropThenPerform`,
  `Kanban.ConfirmDeleteThenPerform`).
- The projection's `create_task` shows no milestone for the new task, and
  its `delete_task` does not remove the id from the milestone list (see
  Findings).

## Model

| member | source | states |
|---|---|---|
| Model.PriorityOf | J3ktMan/model/tasks.py:9-12 | `Priority(value)` names a member exactly when the string is that member's value; any other string names none |
| Model.RoleOf | J3ktMan/model/project.py:9-11 | `Role(value)` names OWNER or COLLABORATOR exactly when the string is that member's value |
| Model.EnumValuesDistinct | J3ktMan/model/tasks.py:9-12 | distinct priorities (and distinct roles) have distinct string values, so the lookup by value is unambiguous |
| CrudTasks.CreateMilestone | J3ktMan/crud/tasks.py:42-70 | fails with ExistingMilestoneNameError exactly when a milestone of the project already has the name; otherwise adds one milestone under a fresh id, with the given name, description and project and due date `now`; every other row is unchanged and the store stays well formed |
| CrudTasks.CreateStatus | J3ktMan/crud/tasks.py:465-490 | fails with ExistingStatusNameError exactly when a status of the project has the name; otherwise adds exactly one fresh status and changes nothing else |
| CrudTasks.CreateTask | J3ktMan/crud/tasks.py:228-274 | InvalidStatusIDError for an unknown status; ExistingTaskNameError exactly when a task whose status is in the same project has the name; otherwise one fresh task with the given status and priority, no milestone and no dates, and nothing else changes |
| CrudTasks.CreateTaskWith | J3ktMan/state/project.py:257-265 | the seven-argument create_task the handler calls: InvalidStatusIDError for an unknown status; otherwise it fails exactly when the name is taken in the project, a given milestone does not exist, or both dates are given with the start not before the end, with ExistingTaskNameError, InvalidMilestoneIDError and DateError in that order of precedence; on success one fresh task with all seven fields and nothing else changes |
| CrudTasks.CreateTaskWithNothingIsCreateTask | J3ktMan/crud/tasks.py:228-274 | with no milestone and no dates the seven-argument create_task is the four-argument one |
| CrudTasks.RenameStatus | J3ktMan/crud/tasks.py:101-126 | InvalidStatusIDError for an unknown id; ExistingStatusNameError exactly when some status of the project, the renamed one included, has the new name; otherwise only that status's name changes |
| CrudTasks.RenameTask | J3ktMan/crud/tasks.py:129-160 | InvalidTaskIDError for an unknown task; the failed assertion when its status row is missing; ExistingTaskNameError exactly when a task of the project has the new name; otherwise only that task's name changes |
| CrudTasks.SetTaskDescription | J3ktMan/crud/tasks.py:87-98 | fails exactly for an unknown task; otherwise only that task's description changes |
| CrudTasks.AssignMilestone | J3ktMan/crud/tasks.py:183-202 | InvalidTaskIDError for an unknown task; InvalidMilestoneIDError exactly when a given milestone does not exist; otherwise only that task's milestone id changes, `None` unassigning |
| CrudTasks.SetStatus | J3ktMan/crud/tasks.py:525-544 | the task is checked before the status; succeeds exactly when both exist, returns the previous status id and changes only that task's status id |
| CrudTasks.DeleteStatus | J3ktMan/crud/tasks.py:547-578 | fails exactly for an unknown status; otherwise removes that status only, gives every task of it the target status and leaves other tasks alone, and returns exactly the moved rows, as stored afterwards, in id order |
| CrudTasks.DeleteMilestone | J3ktMan/crud/tasks.py:205-225 | no change for an unknown id; otherwise the milestone and every task in it are removed, every other task is kept unchanged, and nothing else changes |
| CrudTasks.DeleteTask | J3ktMan/crud/tasks.py:285-316 | no change for an unknown id; otherwise the task, every assignment of it and every edge touching it at either end are removed, and every other row is kept |
| CrudTasks.AssignTask | J3ktMan/crud/tasks.py:329-359 | TaskAlreadyAssignedError exactly when the pair is already assigned; otherwise adds that one assignment, dated `now` |
| CrudTasks.UnassignTask | J3ktMan/crud/tasks.py:386-405 | removes the one (task, user) pair if present and nothing else |
| CrudTasks.AssignThenUnassign | J3ktMan/crud/tasks.py:329-405 | assigning a pair that is not assigned, then unassigning it, gives back the original store |
| CrudTasks.CreateTaskDependency | J3ktMan/crud/tasks.py:408-437 | CyclicDependencyError exactly when the edge (dependency = dependent, dependant = dependency) exists; otherwise inserts the edge (dependency, dependent) once more and changes nothing else |
| CrudTasks.RemoveTaskDependency | J3ktMan/crud/tasks.py:440-458 | as written: removes one occurrence of the edge (dependency = dependent, dependant = dependency), the reverse of the edge create inserts |
| CrudTasks.RemoveTaskDependencyCorrected | J3ktMan/crud/tasks.py:440-458 | removes one occurrence of the edge that create inserted for the same pair |
| CrudTasks.CreateThenRemoveLeavesEdge | J3ktMan/crud/tasks.py:408-458 | on the empty store, creating the dependency (1, 2) and removing it as written leaves the inserted edge in place |
| CrudTasks.CreateThenRemoveCorrectedRestores | J3ktMan/crud/tasks.py:408-458 | creating a dependency and removing it with the corrected removal gives back the original edges and store |
| CrudTasks.ThreeCycleAccepted | J3ktMan/crud/tasks.py:417-427 | the three edges 1→2, 2→3, 3→1 are all accepted: the check sees only two-task cycles |
| CrudTasks.MilestonesOfProject | J3ktMan/crud/tasks.py:163-170 | lists exactly the stored milestones of the project, each once, in strictly ascending id order |
| CrudTasks.StatusesOfProject | J3ktMan/crud/tasks.py:493-500 | lists exactly the stored statuses of the project, each once, in strictly ascending id order |
| CrudTasks.TasksOfStatus | J3ktMan/crud/tasks.py:503-510 | lists exactly the stored tasks of the status, each once, in strictly ascending id order |
| CrudTasks.TasksOfMilestone | J3ktMan/crud/tasks.py:319-326 | lists exactly the stored tasks of the milestone, each once, in strictly ascending id order |
| CrudTasks.TaskById | J3ktMan/crud/tasks.py:277-282 | the task row for a stored id, and none for any other id |
| CrudTasks.MilestoneById | J3ktMan/crud/tasks.py:173-180 | the milestone row for a stored id, and none for any other id |
| CrudTasks.MilestoneOfTask | J3ktMan/crud/tasks.py:73-84 | InvalidTaskIDError exactly for an unknown task; otherwise the task's milestone row when it has one that exists, else none |
| CrudTasks.TasksAssignedTo | J3ktMan/crud/tasks.py:362-371 | lists exactly the tasks assigned to the user, each once, in strictly ascending id order |
| CrudTasks.AssigneesOf | J3ktMan/crud/tasks.py:374-383 | exactly the users assigned to the task |
| CrudTasksFacts.CreateMilestoneKeepsNamesUnique | J3ktMan/crud/tasks.py:49-70 | a successful create_milestone keeps milestone names unique within each project |
| CrudTasksFacts.CreateMilestoneTwiceFails | J3ktMan/crud/tasks.py:42-70 | a second create_milestone with the same name and project fails with ExistingMilestoneNameError |
| CrudTasksFacts.CreateStatusKeepsNamesUnique | J3ktMan/crud/tasks.py:465-490 | a successful create_status keeps status names unique within each project |
| CrudTasksFacts.CreateStatusTwiceFails | J3ktMan/crud/tasks.py:465-490 | a second create_status with the same name and project fails with ExistingStatusNameError |
| CrudTasksFacts.CreateTaskKeepsNamesUnique | J3ktMan/crud/tasks.py:228-274 | a successful create_task keeps task names unique within each project, the project found through the status |
| CrudTasksFacts.CreateTaskKeepsStatusRefs | J3ktMan/crud/tasks.py:228-274 | if every task names an existing status before create_task, it still does afterwards |
| CrudTasksFacts.RenameStatusToOwnNameFails | J3ktMan/crud/tasks.py:110-119 | renaming a status to its current name fails with ExistingStatusNameError |
| CrudTasksFacts.RenameTaskToOwnNameFails | J3ktMan/crud/tasks.py:142-153 | renaming a task to its current name fails with ExistingTaskNameError |
| CrudTasksFacts.RenameStatusKeepsNamesUnique | J3ktMan/crud/tasks.py:101-126 | a successful rename_status keeps status names unique within each project |
| CrudTasksFacts.RenameTaskKeepsNamesUnique | J3ktMan/crud/tasks.py:129-160 | a successful rename_task keeps task names unique within each project |
| CrudTasksFacts.SetStatusCanDuplicateTaskName | J3ktMan/crud/tasks.py:525-544 | set_status does no same-project check: moving a task into a status of another project can give that project two tasks with the same name |
| CrudTasksFacts.SetStatusKeepsStatusRefs | J3ktMan/crud/tasks.py:525-544 | a successful set_status keeps every task's status reference valid |
| CrudTasksFacts.SetStatusRoundTrip | J3ktMan/crud/tasks.py:525-544 | calling set_status again with the returned previous status gives back the original store and returns the status just set |
| CrudTasksFacts.DeleteStatusMigratesAll | J3ktMan/crud/tasks.py:547-578 | after deleting S with a different target T, S is gone, no task is in S, and T's tasks are its old tasks together with S's |
| CrudTasksFacts.DeleteStatusKeepsStatusRefs | J3ktMan/crud/tasks.py:547-578 | with an existing, different target, delete_status keeps every task's status reference valid |
| CrudTasksFacts.DeleteStatusOntoItselfOrphans | J3ktMan/crud/tasks.py:547-578 | the target is not validated: deleting a non-empty status onto itself leaves tasks naming a status that no longer exists, which a database that does not enforce foreign keys keeps |
| CrudTasksFacts.AssignMilestoneIdempotent | J3ktMan/crud/tasks.py:183-202 | repeating a successful assign_milestone returns the same store and task |
| CrudTasksFacts.UnassignTwice | J3ktMan/crud/tasks.py:183-202 | unassigning an existing task twice succeeds both times and leaves its milestone id None |
| CrudTasksFacts.DeleteTaskKeepsAssignmentRefs | J3ktMan/crud/tasks.py:285-316 | if every assignment names a stored task before delete_task, it still does afterwards |
| CrudTasksFacts.DeleteMilestoneEmptiesIt | J3ktMan/crud/tasks.py:205-225 | after deleting a stored milestone it lists no task; an unknown id changes nothing, so tasks naming it stay listed under it |
| CrudTasksFacts.DeleteMilestoneKeepsOthers | J3ktMan/crud/tasks.py:205-225 | every other milestone lists the same tasks, in the same order, after delete_milestone |
| CrudTasksFacts.DeleteMilestoneKeepsStatusRefs | J3ktMan/crud/tasks.py:205-225 | if every task names an existing status before delete_milestone, every remaining task still does |
| CrudTasksFacts.DeleteMilestoneLeavesAssignments | J3ktMan/crud/tasks.py:205-225 | delete_milestone removes tasks but not their assignments: a concrete store where an assignment then names a deleted task, which a database that does not enforce foreign keys keeps |
| CrudProject.AlphabetIsAlphanumeric | J3ktMan/crud/project.py:36 | the alphabet is the 62 ASCII letters and digits |
| CrudProject.GenerateRandomString | J3ktMan/crud/project.py:35-37 | exactly `length` characters, each an ASCII letter or digit chosen by the corresponding draw |
| CrudProject.CreateProject | J3ktMan/crud/project.py:40-80 | TooShortProjectNameError for a name under 4 characters, before any lookup; ExistingProjectNameError exactly when the user is already in a project of that name; otherwise one fresh project created and started at `now` and one OWNER membership for the user, nothing else changed |
| CrudProject.GetProjects | J3ktMan/crud/project.py:83-91 | lists exactly the projects the user is a member of, each once, in strictly ascending id order |
| CrudProject.CreatedProjectIsListed | J3ktMan/crud/project.py:40-91 | a created project is among the creator's projects |
| CrudProject.CreateProjectTwiceFails | J3ktMan/crud/project.py:47-58 | creating a second project with the same name for the same user fails with ExistingProjectNameError |
| CrudProject.Unexpired | J3ktMan/crud/project.py:112-118 | keeps exactly the codes that have not expired (`expired_at >= now`), keeping codes distinct |
| CrudProject.UnexpiredKeepsAll | J3ktMan/crud/project.py:112-118 | purging a list that holds no expired code changes nothing |
| CrudProject.FirstActive | J3ktMan/crud/project.py:133-138 | a code of the project with `expired_at > now` when one exists, and none exactly when none does |
| CrudProject.FirstFresh | J3ktMan/crud/project.py:144-157 | the first draw not already in use; none exactly when every draw is in use |
| CrudProject.GetInvitationCode | J3ktMan/crud/project.py:103-170 | for a positive duration and limit, as asserted: the purge is kept in every case. A non-owner gets UnauthorizedError(OWNER). An owner gets the project's active code, unchanged, when it has one. Otherwise the owner gets a fresh code: one of the generated strings, ten ASCII letters or digits, not among the kept codes, stored with `created_at = now`, `expired_at = now + duration` and the given limit. Codes stay distinct |
| CrudProject.InvitationCodeReused | J3ktMan/crud/project.py:133-141 | for an owner, a second request at the same time returns the same code and leaves the store as the first left it, whatever the new duration and limit |
| CrudProject.ActiveCodeReturned | J3ktMan/crud/project.py:133-141 | with nothing to purge and an active code present, the request returns that code and changes nothing |
| ProjectView.MilestoneNameByIds | J3ktMan/state/project.py:167-176 | empty before loading; otherwise maps exactly the loaded milestone ids to their names, which ProjectView.ShownMilestoneNamesAreStored ties to the stored names |
| ProjectView.Milestones | J3ktMan/state/project.py:178-187 | empty before loading; otherwise lists exactly the loaded milestones, one per entry, in strictly ascending id order (the dict's insertion order) |
| ProjectView.Statuses | J3ktMan/state/project.py:189-198 | empty before loading; otherwise lists exactly the loaded statuses, one per entry, in strictly ascending id order, the order the task form's first-by-name lookup scans |
| ProjectView.TasksById | J3ktMan/state/project.py:200-208 | empty before loading; otherwise the loaded task map, whose entries ProjectView.ShownTasksAreStored ties to the stored rows |
| ProjectView.NothingShownBeforeLoading | J3ktMan/state/project.py:159-208 | `loaded` is false exactly before loading, and then every derived list and map is empty; once loaded they show every loaded milestone, status and task |
| ProjectView.ShownTasksAreStored | J3ktMan/state/project.py:200-208 | with a projection in agreement with the store, every task the page shows is a stored task and shows its stored fields |
| ProjectView.ShownMilestoneNamesAreStored | J3ktMan/state/project.py:167-176 | with a projection in agreement with the store, every milestone name the page shows is the stored milestone's name |
| ProjectLoad.EmptyMilestones | J3ktMan/state/project.py:102-109 | exactly the project's milestones, each with its stored name and description and an empty task list |
| ProjectLoad.AddTask | J3ktMan/state/project.py:122-138 | one loaded task: fails (the KeyError) exactly when its milestone is not loaded. Otherwise its view is recorded and its id is appended to its status's list, and to its milestone's list when it has one. Nothing else changes |
| ProjectLoad.LoadProject | J3ktMan/state/project.py:76-157 | data is set exactly when the load succeeds. No user gives no data. A project the user is not a member of gives the not-authorized toast. A missing or unknown id, or a task whose milestone is outside the project, gives the invalid-project redirect |
| ProjectLoad.LoadedDataCoherent | J3ktMan/state/project.py:102-148 | a loaded projection holds exactly the project's statuses, milestones and tasks, agrees with the store and satisfies partition, status coherence and milestone coherence |
| ProjectLoad.LoadTasksFails | J3ktMan/state/project.py:120-138 | loading a status's tasks fails exactly when one of them names a milestone that is not loaded |
| ProjectLoad.LoadStatusFails | J3ktMan/state/project.py:111-138 | loading one status fails exactly when one of its stored tasks names a milestone that is not loaded |
| ProjectLoad.LoadStatusesFails | J3ktMan/state/project.py:111-138 | loading a run of statuses fails exactly when one of their tasks names a milestone that is not loaded |
| ProjectLoad.LoadStatusesCoherent | J3ktMan/state/project.py:111-138 | loading fresh statuses in ascending order keeps the projection coherent and in agreement with the store |
| ProjectLoad.LoadTasksCoherent | J3ktMan/state/project.py:120-138 | loading a status's fresh tasks in ascending order keeps the projection coherent and in agreement with the store |
| ProjectLoad.AddTaskCoherent | J3ktMan/state/project.py:122-138 | adding one fresh task of a loaded status keeps the three invariants |
| ProjectHandlers.CreateStatus | J3ktMan/state/project.py:211-238 | no-op before loading; ExistingStatusNameError caught, with store and projection unchanged, exactly when the name is taken in the project; otherwise the new status is stored and added to the projection with an empty list, nothing else in the projection changing |
| ProjectHandlers.CreateTaskAsWritten | J3ktMan/state/project.py:257-265 | as written: once loaded, the seven-argument call into the four-parameter crud function raises TypeError and changes nothing |
| ProjectHandlers.CreateTask | J3ktMan/state/project.py:241-299 | the handler against a seven-argument crud create_task. No-op before loading. InvalidStatusIDError and InvalidMilestoneIDError escape. ExistingTaskNameError and DateError are caught, with nothing changed, exactly when the crud call fails with them, DateError only for a start not before the end. A KeyError only when the status is not loaded. On success the stored task has the given milestone and dates, while its view shows the dates but no milestone and its id goes at the end of its status's list only |
| ProjectHandlers.CreateTaskCorrected | J3ktMan/state/project.py:241-299 | create_task with the entry built as load_project builds it. Errors as in the handler as written, plus a KeyError when a given milestone is not loaded. It ends normally exactly when the crud call succeeds and the status and any milestone are loaded. The view is the stored row, and the id is appended to its status's list and to its milestone's list, no other list changing |
| ProjectHandlers.CreateMilestone | J3ktMan/state/project.py:343-378 | no-op before loading; ExistingMilestoneNameError caught, with nothing changed, exactly when the name is taken; otherwise the new milestone, due `now`, is stored and added with an empty list |
| ProjectHandlers.RenameStatus | J3ktMan/state/project.py:302-325 | no-op before loading; an unknown id escapes; ExistingStatusNameError is caught, with nothing changed, exactly when the name is taken; on success only that status's name changes, in store and projection |
| ProjectHandlers.RenameTask | J3ktMan/state/project.py:467-490 | no-op before loading; an unknown id escapes; ExistingTaskNameError is caught exactly when the name is taken in the project; on success only that task's name changes, in store and projection |
| ProjectHandlers.SetTaskDescription | J3ktMan/state/project.py:493-508 | no-op before loading; never caught; ends normally exactly when the task is stored and loaded, changing only its description in both |
| ProjectHandlers.ChangeTaskDates | J3ktMan/state/project.py:511-537 | no-op before loading; DateError caught with nothing changed; ends normally exactly when the update succeeds and the task is loaded, and then only the task's two dates change in the projection |
| ProjectHandlers.EditTask | J3ktMan/state/project.py:540-572 | as written: the store gets the new name and dates but keeps the old description, while the projection gets the new name, description and dates |
| ProjectHandlers.EditTaskCorrected | J3ktMan/state/project.py:540-572 | the description is stored along with the name before the dates are updated, so store and projection get the same three changes |
| ProjectHandlers.SetTaskStatus | J3ktMan/state/project.py:328-340 | no-op before loading; never caught; ends normally exactly when both ids are stored, the task is loaded and listed under its old status, and the target status is loaded. Then the id leaves the old list, goes to the end of the target list, and the task's status id is set, in store and projection |
| ProjectHandlers.ClearMilestone | J3ktMan/state/project.py:421-424 | removes the task from its old milestone's list and sets its milestone id to None; statuses and other milestones unchanged |
| ProjectHandlers.JoinMilestone | J3ktMan/state/project.py:426-429 | sets the task's milestone id and appends it to the new milestone's list when there is one; nothing else changes |
| ProjectHandlers.AssignMilestone | J3ktMan/state/project.py:410-441 | no-op before loading. KeyError for a task that is not loaded. A crud error escapes exactly when the crud call fails. After the crud commit: KeyError when the task's old milestone is not loaded; ValueError, leaving the projection unchanged, when the old milestone's list lacks the task; KeyError when the new milestone is not loaded, the old list already cleared and the entry's milestone id already set. Otherwise ends normally: the store gets the new milestone id and the projection is clear-then-join |
| ProjectHandlers.Migrate | J3ktMan/state/project.py:395-400 | appends each moved id to the migration list in order; with refreshing, each moved entry also becomes the view of its moved row; KeyError exactly when a moved task or a needed migration status is not loaded |
| ProjectHandlers.DropAndMigrate | J3ktMan/state/project.py:391-400 | the deleted status's entry is dropped and the moved ids are appended to the migration list; KeyError exactly when a moved task is not loaded or, with moved tasks, the migration status is missing or the deleted one |
| ProjectHandlers.DeleteStatusWith | J3ktMan/state/project.py:381-407 | delete_status as written (moved entries not refreshed, taking `rx.Base` to accept the undeclared `.model` attribute) or corrected (refreshed). No-op before loading; an unknown status escapes; otherwise the crud delete is committed, and the handler ends normally exactly when the deleted status and every moved task are loaded and, if any moved, the migration status is loaded and different; then the projection is dropped-and-migrated |
| ProjectHandlers.DeleteTask | J3ktMan/state/project.py:444-464 | as written: the crud delete is committed; ends normally exactly when the task is loaded and listed under its status; the entry is dropped and its id removed from the status list only |
| ProjectHandlers.DeleteTaskCorrected | J3ktMan/state/project.py:444-464 | as DeleteTask, and the id is also removed from its milestone's list; ends normally exactly when the task is listed there too |
| HandlerFacts.CreateStatusPreserves | J3ktMan/state/project.py:211-238 | create_status keeps the projection coherent and in agreement with the store |
| HandlerFacts.CreateMilestonePreserves | J3ktMan/state/project.py:343-378 | create_milestone keeps the projection coherent and in agreement with the store |
| HandlerFacts.CreateTaskPreserves | J3ktMan/state/project.py:241-299 | create_task as written keeps the projection coherent, and keeps it in agreement with the store exactly when no milestone was given |
| HandlerFacts.CreateTaskCorrectedPreserves | J3ktMan/state/project.py:241-299 | the corrected create_task keeps the projection coherent and in agreement with the store, milestone or not |
| HandlerFacts.RenameStatusPreserves | J3ktMan/state/project.py:302-325 | rename_status keeps the projection coherent and in agreement with the store |
| HandlerFacts.RenameTaskPreserves | J3ktMan/state/project.py:467-490 | rename_task keeps the projection coherent and in agreement with the store |
| HandlerFacts.SetTaskDescriptionPreserves | J3ktMan/state/project.py:493-508 | set_task_description keeps the projection coherent and in agreement with the store |
| HandlerFacts.ChangeTaskDatesPreserves | J3ktMan/state/project.py:511-537 | change_task_dates keeps the projection coherent, and in agreement with the store when the date update sets exactly the two dates |
| HandlerFacts.SetTaskStatusPreserves | J3ktMan/state/project.py:328-340 | moving a task between status lists keeps the partition, both coherences and agreement with the store |
| HandlerFacts.AssignMilestonePreserves | J3ktMan/state/project.py:410-441 | assign_milestone keeps the projection coherent and in agreement with the store |
| HandlerFacts.EditTaskDropsDescription | J3ktMan/state/project.py:552-556 | as written, a completed edit_task leaves the stored description unchanged while the projection shows the new one, so they disagree exactly when the description changed |
| HandlerFacts.EditTaskCorrectedPreserves | J3ktMan/state/project.py:540-572 | the corrected edit_task keeps the projection coherent and in agreement with the store |
| DeleteFacts.DeleteTaskLeavesMilestoneList | J3ktMan/state/project.py:448-457 | as written, delete_task ends normally exactly for a loaded task and keeps partition and status coherence, but keeps milestone coherence exactly when the task had no milestone |
| DeleteFacts.DeleteTaskCorrectedPreserves | J3ktMan/state/project.py:444-464 | the corrected delete_task ends normally exactly for a loaded task and keeps the projection coherent and in agreement with the store |
| DeleteFacts.DeleteStatusLeavesStaleStatus | J3ktMan/state/project.py:388-400 | as written, a completed delete_status keeps status coherence exactly when no task was moved: a moved task's entry still names the deleted status |
| DeleteFacts.MovedAreTheStatusList | J3ktMan/state/project.py:388-400 | for a projection that covers the store, the tasks the crud delete returns are exactly the ids the deleted status's list held |
| DeleteFacts.DeleteStatusCorrectedPreserves | J3ktMan/state/project.py:381-407 | delete_status with the moved entries refreshed keeps the projection coherent and in agreement with the store |
| Intents.Perform | J3ktMan/state/project.py:241-250 | the kanban page's four-argument create_task call lacks the required `milestone_id` and raises TypeError, changing nothing; every other call is a no-op before loading. Calls run the corrected create_task, delete_status and delete_task |
| Intents.PerformPreserves | J3ktMan/state/project.py:210-572 | with the corrected create_task, delete_status and delete_task handlers, every call the pages make that completes keeps the projection coherent and in agreement with the store, when the projection holds every stored task of its statuses and the date update sets exactly the two dates |
| Kanban.OnDrop | J3ktMan/page/kanban.py:227-241 | the board it returns is the one left once the forwarded move has returned: both fields cleared; forwards set_task_status(dragged, hovered) exactly when both were set |
| Kanban.DropThenPerform | J3ktMan/page/kanban.py:227-241 | a drop followed by the move it forwards: with no drag or no hover the fields are cleared and nothing is called; otherwise the move is set_task_status of the two ids, and the fields are cleared exactly when it does not raise |
| Kanban.DragHoverDrop | J3ktMan/page/kanban.py:219-241 | drag, hover then drop forwards the move of that task to that column; a release before the drop forwards nothing |
| Kanban.DropPreserves | J3ktMan/page/kanban.py:233-236 | a move forwarded by a drop that completes keeps the projection coherent and in agreement with the store |
| Kanban.CreateStatus | J3ktMan/page/kanban.py:74-83 | forwards create_status with the typed name and closes the new-status input; what that call then does is Kanban.CreateStatusFromForm |
| Kanban.CreateStatusFromForm | J3ktMan/page/kanban.py:74-83 | the new-status form closes and its create_status never raises. It is caught, changing nothing, exactly when the name is taken in the project. Otherwise the projection gains one status with the typed name, an empty description and an empty list, and stays coherent and in agreement with the store |
| Kanban.CreateTask | J3ktMan/page/kanban.py:156-173 | no-op without an open column; otherwise closes it and forwards a MEDIUM task with an empty description in that column |
| Kanban.CreateTaskInColumn | J3ktMan/page/kanban.py:156-177 | the column's create forwards the four-argument call, which raises TypeError and changes nothing; a cancelled column forwards nothing |
| Kanban.SetEditingStatusName | J3ktMan/page/kanban.py:105-113 | no-op before loading; KeyError for a status that is not loaded; otherwise opens a draft with the status's current name |
| Kanban.UpdateStatusName | J3ktMan/page/kanban.py:98-102 | no-op without a draft; otherwise changes only the draft's name |
| Kanban.OnBlurEditingStatusName | J3ktMan/page/kanban.py:125-126 | discards the draft and changes nothing else |
| Kanban.ConfirmUpdateStatusName | J3ktMan/page/kanban.py:129-153 | KeyError exactly when the draft's status is not loaded; forwards rename_status exactly when a draft exists, data is loaded, and the draft name is non-empty and differs from the current name; never shows an error |
| Kanban.UneditedDraftRenamesNothing | J3ktMan/page/kanban.py:129-145 | confirming a draft just opened, or after a blur, forwards nothing |
| Kanban.ConfirmAgainAfterRename | J3ktMan/page/kanban.py:129-153 | after a forwarded rename completes, confirming the same draft again forwards nothing |
| Kanban.SetStatusDeleteDialog | J3ktMan/page/kanban.py:400-406 | opening sets the deleting status, closing clears it; the migration target is cleared either way |
| Kanban.AvailableStatuses | J3ktMan/page/kanban.py:408-421 | empty when nothing is being deleted or before loading; otherwise exactly the loaded status ids other than the one being deleted, in ascending order |
| Kanban.ConfirmDeleteStatus | J3ktMan/page/kanban.py:428-445 | an error toast and no change when either id is missing; otherwise forwards delete_status with both, and the dialog it returns, both ids cleared, is the one left once that call has returned |
| Kanban.ConfirmDeleteThenPerform | J3ktMan/page/kanban.py:428-445 | with both ids chosen the corrected delete_status is run and the ids are cleared exactly when it does not raise; with either missing nothing is run and the dialog is kept |
| Kanban.OfferedTargetIsAnotherStatus | J3ktMan/page/kanban.py:400-445 | every offered target is another loaded status and confirming it forwards that delete; confirming before choosing a target shows the error |
| TaskDialog.SetEditingTaskId | J3ktMan/component/task_dialog.py:444-450 | opening clears every draft and sets the id; closing clears only the id |
| TaskDialog.ResetState | J3ktMan/component/task_dialog.py:452-458 | all five fields are cleared, so that, by TaskDialog.ResetForwardsNothing, nothing can be forwarded |
| TaskDialog.ResetForwardsNothing | J3ktMan/component/task_dialog.py:452-554 | after a reset nothing is being edited, and no confirm and no delete forwards anything |
| TaskDialog.UpdatesStartEditing | J3ktMan/component/task_dialog.py:460-501 | each update handler sets only its own draft: typing a name always edits the name, a description is being edited exactly when one is given, and the dates exactly when the new input is non-empty or the other date is set |
| TaskDialog.DateInput | J3ktMan/component/task_dialog.py:495-501 | no date exactly when the input is absent or empty; otherwise its epoch |
| TaskDialog.ConfirmEditingTaskName | J3ktMan/component/task_dialog.py:503-512 | no-op without an id or a name draft; otherwise clears the name draft and forwards rename_task |
| TaskDialog.ConfirmEditingTaskDescription | J3ktMan/component/task_dialog.py:514-528 | no-op without an id or a description draft; otherwise clears that draft and forwards set_task_description |
| TaskDialog.ConfirmEditingTaskDates | J3ktMan/component/task_dialog.py:530-543 | no-op without an id; otherwise clears both date drafts and forwards change_task_dates with the values they held |
| TaskDialog.DeleteTask | J3ktMan/component/task_dialog.py:545-554 | no-op without an id; otherwise clears the id and forwards delete_task for it |
| TaskDialog.EditNameThenConfirm | J3ktMan/component/task_dialog.py:487-512 | open, type a name, confirm: rename_task is forwarded for that task and name, and confirming again forwards nothing |
| TaskDialog.OpenedDraftIsEmpty | J3ktMan/component/task_dialog.py:444-485 | a freshly opened dialog is editing nothing; confirming the name or description forwards nothing, while confirming the dates forwards clearing both |
| TaskDialog.ClosedDraftForwardsNothing | J3ktMan/component/task_dialog.py:444-554 | closing keeps the text drafts, yet no confirm or delete forwards anything |
| TaskDialog.ClearedDateEndsDatesEdit | J3ktMan/component/task_dialog.py:480-501 | with no end date, an empty or absent start date means the dates are not being edited |
| HandlerLists.Chain | J3ktMan/component/task_dialog.py:557-567 | the base handler first, then the additional ones: none, the single one, or the list's items in order |
| HandlerLists.ChainFlattensOneLevel | J3ktMan/component/task_dialog.py:557-567 | a single handler and a one-item list give the same chain, as do nothing and an empty list |
| TaskForm.SetWhichDialogOpen | J3ktMan/component/create_task_dialog.py:103-108 | stores the milestone id the form is opened for, the one TaskForm.OpenedFormTargetsMilestone shows a submit forwards |
| TaskForm.OpenedFormTargetsMilestone | J3ktMan/component/create_task_dialog.py:37-108 | a form opened for no milestone submits nothing; a form opened for a milestone forwards create_task for that milestone |
| TaskForm.MissingFields | J3ktMan/component/create_task_dialog.py:51-60 | lists a quoted field name exactly when that field is empty, in the order name, priority, status |
| TaskForm.MissingFieldsMessage | J3ktMan/component/create_task_dialog.py:51-67 | no message exactly when name, priority and status are all filled; otherwise the fixed prefix and the missing names joined by ", " |
| TaskForm.PriorityField | J3ktMan/component/create_task_dialog.py:71 | a priority exactly when the input is a member's value in any letter case |
| TaskForm.PriorityIgnoresCase | J3ktMan/component/create_task_dialog.py:71 | the upper-cased lookup accepts exactly the member values written in any case |
| TaskForm.DateField | J3ktMan/component/create_task_dialog.py:73-81 | no date exactly when the field is empty; otherwise its epoch |
| TaskForm.FirstStatusNamed | J3ktMan/component/create_task_dialog.py:83-87 | the id of the first listed status with the name; none exactly when no status has it |
| TaskForm.Submit | J3ktMan/component/create_task_dialog.py:37-101 | no-op without a milestone. The error toast exactly when a required field is empty. ValueError exactly for an unknown priority. AssertionError exactly when no status has the selected name. Otherwise the seven-argument create_task for the form's fields, found status and milestone |
| TaskForm.SubmittedFormCreatesTask | J3ktMan/component/create_task_dialog.py:83-101 | with the seven-argument crud create_task and the corrected handler that Intents.Perform runs: a valid form against a loaded projection that agrees with the store, whose milestone is loaded, creates the task or reports the taken name or a bad date range, and nothing else can happen. The created row has the form's fields, the found status, the dates and the form's milestone, and that milestone's list holds the new id. As written the submit raises TypeError (ProjectHandlers.CreateTaskAsWritten), and a seven-argument crud under the handler as written leaves the id out of the milestone's list (HandlerFacts.CreateTaskPreserves) |
| TaskForm.FoundStatusIsLoaded | J3ktMan/component/create_task_dialog.py:83-89 | a status found by name is one of the loaded statuses |
| MilestoneDialog.Submit | J3ktMan/component/create_milestone_dialog.py:26-60 | no-op without a project; ExistingMilestoneNameError caught exactly when the name is taken, which forgets the last milestone; otherwise the created milestone is stored and remembered; nothing escapes |
| MilestoneDialog.OnOpenChange | J3ktMan/component/create_milestone_dialog.py:62-68 | opening or closing forgets the last milestone and takes the project |
| MilestoneDialog.SubmitTwice | J3ktMan/component/create_milestone_dialog.py:26-68 | submitting a free name twice from an opened dialog creates it once; the second is caught, leaves the store as it was and forgets the milestone |
| MilestoneDialog.OnSubmitHandlers | J3ktMan/component/create_milestone_dialog.py:124-131 | the dialog's submit first, then the caller's handlers in order, flattened one level |
| Timeline.NextMonth | J3ktMan/page/timeline.py:266-270 | the step gives the first day of the following month, December rolling into January of the next year |
| Timeline.MonthBeforeIsIndexOrder | J3ktMan/page/timeline.py:264 | `datetime` order on first days of months is the order of their month indices |
| Timeline.CountMonth | J3ktMan/page/timeline.py:250-272 | the month difference of the two dates when the end is later, else 0; the days play no part |
| Timeline.ClampMonthCount | J3ktMan/page/timeline.py:570-572 | at least MIN_MONTH_COUNT = 48, and the count itself when it is larger; Timeline.ClampIsLeastCover and Timeline.DatedMonthCount say what that count covers |
| Timeline.ClampIsLeastCover | J3ktMan/page/timeline.py:570-572 | the floored count is the least value that is both at least 48 and at least the count |
| Timeline.DatedMonthCount | J3ktMan/page/timeline.py:568-572 | the column count when tasks have dates is at least 48 and reaches from the first date's month to the last date's, and is either 48 or exactly the months between them |
| Timeline.DaysInMonth | J3ktMan/page/timeline.py:603 | between 28 and 31 days; February has 29 exactly in Gregorian leap years |
| Timeline.MonthStep | J3ktMan/page/timeline.py:612 | adding a month's length in days to its first day reaches the first of the next month |
| Timeline.FallbackMonthRanges | J3ktMan/page/timeline.py:591-614 | exactly 48 columns, the i-th for the month i months after the current month two years back, with its Gregorian length; their days add up to the days between the two bounds |
| Timeline.TotalDaysAppend | J3ktMan/page/timeline.py:616-621 | the day total of two runs of columns is the sum of their totals |
| Timeline.TotalWidthPixels | J3ktMan/page/timeline.py:623-626 | ten pixels for each day of the range; Timeline.TotalWidthIsHeaderWidths and Timeline.FallbackWidth say what width that is |
| Timeline.TotalWidthIsHeaderWidths | J3ktMan/page/timeline.py:616-626 | the header row's total width is the sum of each month header's width of `day_count * 10` pixels |
| Timeline.FallbackWidth | J3ktMan/page/timeline.py:590-626 | without task dates, the width is ten pixels for each day from two years before the current month to two years after it |
| Timeline.OnMount | J3ktMan/page/timeline.py:309-319 | no change before loading; otherwise one flag per loaded milestone, every one collapsed |
| Timeline.ToggleMilestone | J3ktMan/page/timeline.py:524-528 | flips only that milestone's flag, a missing flag counting as collapsed |
| Timeline.ToggleTwice | J3ktMan/page/timeline.py:524-528 | toggling twice gives back the flags exactly when the milestone had one; otherwise it ends collapsed with a flag of its own |

## Left out

- Reflex components, page layout, toasts and redirects. An outcome is a tag; the toast text is not modelled.
- ORM sessions, commits and rollbacks. Each crud call is one atomic update of the store. The cross-session object handling in `delete_milestone` is an ORM detail.
- Clerk and identity. The signed-in user is an optional parameter of `load_project`.
- `get_project`, `is_in_project`, `InvalidProjectIDError`, the redeem functions, `update_task_dates`, the crud-level `DateError` and a seven-argument `create_task` are not in the repository's crud module. Project and membership lookups stand in for the first two. `update_task_dates` is a parameter. Redeeming is not modelled.
- CrudTasks.CreateTaskWith: its checks and their order are an assumption, since the function it stands for is not in the repository. The name check comes first, as in the four-argument function. The milestone check matches `assign_milestone`'s, and the date check is the task form's `check_date_validity`, applied only when both dates are given.
- `now`, randomness and `date_to_epoch` are parameters. `generate_random_string` takes its draws as a sequence of indices into the alphabet.
- CrudProject.GetInvitationCode: the collision loop is modelled as the first fresh code among the strings generated from a given sequence of ten-index draws. It requires that such a draw exists, because the loop has no bound.
- ProjectHandlers.ChangeTaskDates: the stored dates are whatever the `update_task_dates` parameter commits. HandlerFacts.ChangeTaskDatesPreserves proves agreement with the store only for an update that sets exactly the two dates.
- ProjectLoad.LoadProject: a page parameter that is absent or not a number is one `None`. The `KeyError` and `ValueError` cases are not told apart, since both redirect.
- ProjectLoad.LoadTasks, ProjectLoad.LoadStatus and ProjectLoad.LoadStatuses: their own contracts state only which keys they keep. What they load is proved in the `LoadTasks*`, `LoadStatus*` and `LoadStatuses*` lemmas.
- TaskDialog.IsEditingTaskName, TaskDialog.IsEditingTaskDescription, TaskDialog.IsEditingTaskDates, TaskDialog.UpdateTaskEditingName, TaskDialog.UpdateTaskEditingDescription, TaskDialog.UpdateTaskEditingStartDate, TaskDialog.UpdateTaskEditingEndDate, ProjectView.Loaded and Timeline.TotalDays (task_dialog.py:460-501, state/project.py:159-161, timeline.py:616-621): each is one expression and carries no contract of its own. TaskDialog.UpdatesStartEditing, TaskDialog.ResetForwardsNothing, ProjectView.NothingShownBeforeLoading, Timeline.TotalDaysAppend and Timeline.FallbackMonthRanges state what they mean.
- Kanban.OnDrag, Kanban.OnRelease, Kanban.SetMouseOver, Kanban.RemoveMouseOver, Kanban.SetStatusCreatingTask, Kanban.CancelTask and Kanban.SetMigrationStatus: each only sets one field. They carry no contract of their own and are used by the drag, create and delete lemmas.
- The kanban handlers that use attributes the state does not have: `delete_task`, `on_task_description_edit`, `on_task_name_edit` and `on_create_milestone` (page/kanban.py:116-122, 189-205, 243-270).
- The kanban create_task's four-argument call is kept only as the TypeError it raises (Intents.Perform).
- Timeline: the floating-point geometry, the rendering and the pandas helpers. When tasks have dates, the count of columns is modelled (Timeline.DatedMonthCount), but not the columns themselves, which step by 30 days. Also left out are the month labels, the `total_width` of 300 pixels per month and the year bounds of `datetime`.
- TaskForm.PriorityField: `str.upper` is modelled on ASCII letters only. Other characters are left as they are.
- Dead code: the commented-out parts of task_dialog.py and home_state.py, the prototype forms task_diaglog.py and milestone_dialog.py. The form's `check_date_validity` is never called; its test serves as the date check of CrudTasks.CreateTaskWith.
- ProjectHandlers.DeleteStatusWith: the handler as written assumes that `rx.Base` accepts an undeclared attribute, so `tasks_by_id[id].model = affecting_task` (state/project.py:396) only adds an unused attribute. No file in the repository settles this. If `rx.Base` refused it, as a pydantic model does by default, that line would raise ValueError just after the deleted status's entry is removed. The handler would then end with that exception; the model does not cover this.
- CrudTasks.AssigneesOf: returns the assigned users as a set, without the order in which `get_assignees_by_task_id` lists them. The assignment table's key is the (task, user) pair, with no id column, so the model does not record the database's row order for it. Each user is assigned at most once, so nothing else is lost.
- Foreign keys. model/tasks.py declares `status_id`, `milestone_id` and `project_id` as foreign keys, and the task columns of assignments and dependencies too. The store does not enforce them, as SQLite does not unless it is told to; the database is whatever `DATABASE_URL` names. CrudTasksFacts.DeleteStatusOntoItselfOrphans and CrudTasksFacts.DeleteMilestoneLeavesAssignments show states that a database enforcing those keys would refuse at commit.
- Id sequences. One `nextId` counter serves every table, whereas the database keeps one id sequence per table. Ids are therefore distinct across tables in the model, which the program does not guarantee.
- Concurrency between sessions. The view going stale when another user edits is not modelled.

## Findings

| source | as written | input that shows it | evidently intended | confidence | as-written member | corrected member |
|---|---|---|---|---|---|---|
| J3ktMan/crud/tasks.py:440-458 | remove_task_dependency(a, b) deletes the edge (dependency = a, dependant = b), but create_task_dependency(a, b) inserts (dependency = b, dependant = a) | create_task_dependency(1, 2) then remove_task_dependency(1, 2) on an empty store leaves the edge (2, 1) | removing the pair deletes the edge creating it inserted | not executed | CrudTasks.CreateThenRemoveLeavesEdge | CrudTasks.CreateThenRemoveCorrectedRestores |
| J3ktMan/state/project.py:257-265 | the handler calls crud create_task with seven arguments; the crud function takes four (crud/tasks.py:228-233) | with a crud module that defines the names state/project.py imports but keeps the four-parameter create_task, any create_task once a project is loaded raises TypeError; as given, the missing names make the import of state/project.py fail first | a crud create_task that takes and stores the milestone and the dates, as the handler's import of DateError and update_task_dates from crud and its `except DateError` suggest (state/project.py:11-31, 293) | not executed | ProjectHandlers.CreateTaskAsWritten | ProjectHandlers.CreateTask |
| J3ktMan/state/project.py:267-276 | with a seven-argument crud create_task, the handler's new entry has `milestone_id=None` and its id joins only its status's list, while the stored task keeps its milestone | create_task with a milestone that is loaded, from the task form, which always passes one | the entry shows the stored milestone and its id joins that milestone's list, as load_project builds it | not executed | HandlerFacts.CreateTaskPreserves | HandlerFacts.CreateTaskCorrectedPreserves |
| J3ktMan/state/project.py:552-556 | edit_task sets the description on the task returned by rename_task, after its session closed, so it is never stored; the projection shows it anyway | a loaded task with description "a", edited with description "b" | store the new description too | not executed | HandlerFacts.EditTaskDropsDescription | HandlerFacts.EditTaskCorrectedPreserves |
| J3ktMan/state/project.py:396 | delete_status assigns the moved row to a new `.model` attribute, so each moved entry keeps the deleted status id (assuming `rx.Base` accepts undeclared attributes; see the ProjectHandlers.DeleteStatusWith line under Left out) | deleting a status holding one task, migrating to another loaded status | each moved entry takes the migration status id | not executed | DeleteFacts.DeleteStatusLeavesStaleStatus | DeleteFacts.DeleteStatusCorrectedPreserves |
| J3ktMan/state/project.py:451-457 | delete_task removes the id from its status list but not from its milestone list | deleting a loaded task that is in a milestone | remove the id from the milestone list too | not executed | DeleteFacts.DeleteTaskLeavesMilestoneList | DeleteFacts.DeleteTaskCorrectedPreserves |
