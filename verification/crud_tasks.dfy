/**
 * The task-side domain operations (crud/tasks.py). Each database session
 * becomes one pure transition `Store -> Result<(Store, value), Error>`:
 * either every change of the call is applied, or the exception it raises is
 * returned and the store is left as it was.
 */
module CrudTasks {
  import opened Wrappers
  import opened Model
  import Rows

  // ---------------------------------------------------------------------
  // Name lookups behind the uniqueness checks
  // ---------------------------------------------------------------------

  predicate MilestoneNameTaken(s: Store, projectId: int, name: string) {
    exists id :: id in s.milestones && s.milestones[id].projectId == projectId && s.milestones[id].name == name
  }

  predicate StatusNameTaken(s: Store, projectId: int, name: string) {
    exists id :: id in s.statuses && s.statuses[id].projectId == projectId && s.statuses[id].name == name
  }

  /** A task belongs to a project through its status (the task-status join). */
  predicate TaskInProject(s: Store, t: Task, projectId: int) {
    t.statusId in s.statuses && s.statuses[t.statusId].projectId == projectId
  }

  /** Task names are scoped to the project of the task's status; a task whose status row is gone drops out of the join. */
  predicate TaskNameTaken(s: Store, projectId: int, name: string) {
    exists id :: id in s.tasks && s.tasks[id].name == name && TaskInProject(s, s.tasks[id], projectId)
  }

  // ---------------------------------------------------------------------
  // Creation
  // ---------------------------------------------------------------------

  /** create_milestone: due date is the creation time. */
  function CreateMilestone(s: Store, name: string, description: string, projectId: int, now: int)
    : (r: Result<(Store, Milestone), Error>)
    requires Valid(s)
    ensures r.Failure? <==> MilestoneNameTaken(s, projectId, name)
    ensures r.Failure? ==> r.error == ExistingMilestoneNameError
    ensures r.Success? ==>
              var (s', m) := r.value;
              && m.id !in s.milestones
              && m == Milestone(m.id, projectId, name, description, now)
              && s'.milestones.Keys == s.milestones.Keys + {m.id}
              && s'.milestones[m.id] == m
              && (forall k :: k in s.milestones ==> s'.milestones[k] == s.milestones[k])
              && s'.(milestones := s.milestones, nextId := s.nextId) == s
              && Valid(s')
  {
    if MilestoneNameTaken(s, projectId, name) then Failure(ExistingMilestoneNameError)
    else
      var m := Milestone(s.nextId, projectId, name, description, now);
      Success((s.(milestones := s.milestones[m.id := m], nextId := s.nextId + 1), m))
  }

  /** create_status. */
  function CreateStatus(s: Store, name: string, description: string, projectId: int)
    : (r: Result<(Store, Status), Error>)
    requires Valid(s)
    ensures r.Failure? <==> StatusNameTaken(s, projectId, name)
    ensures r.Failure? ==> r.error == ExistingStatusNameError
    ensures r.Success? ==>
              var (s', st) := r.value;
              && st.id !in s.statuses
              && st == Status(st.id, projectId, name, description)
              && s'.statuses.Keys == s.statuses.Keys + {st.id}
              && s'.statuses[st.id] == st
              && (forall k :: k in s.statuses ==> s'.statuses[k] == s.statuses[k])
              && s'.(statuses := s.statuses, nextId := s.nextId) == s
              && Valid(s')
  {
    if StatusNameTaken(s, projectId, name) then Failure(ExistingStatusNameError)
    else
      var st := Status(s.nextId, projectId, name, description);
      Success((s.(statuses := s.statuses[st.id := st], nextId := s.nextId + 1), st))
  }

  /** create_task: the status is looked up first, then the project-wide name check; the new task has no milestone and no dates. */
  function CreateTask(s: Store, name: string, description: string, priority: Priority, statusId: int)
    : (r: Result<(Store, Task), Error>)
    requires Valid(s)
    ensures statusId !in s.statuses ==> r == Failure(InvalidStatusIDError)
    ensures statusId in s.statuses ==>
              (r.Failure? <==> TaskNameTaken(s, s.statuses[statusId].projectId, name))
    ensures statusId in s.statuses && r.Failure? ==> r.error == ExistingTaskNameError
    ensures r.Success? ==>
              var (s', t) := r.value;
              && t.id !in s.tasks
              && t == Task(t.id, name, description, priority, statusId, None, None, None)
              && s'.tasks.Keys == s.tasks.Keys + {t.id}
              && s'.tasks[t.id] == t
              && (forall k :: k in s.tasks ==> s'.tasks[k] == s.tasks[k])
              && s'.(tasks := s.tasks, nextId := s.nextId) == s
              && Valid(s')
  {
    if statusId !in s.statuses then Failure(InvalidStatusIDError)
    else if TaskNameTaken(s, s.statuses[statusId].projectId, name) then Failure(ExistingTaskNameError)
    else
      var t := Task(s.nextId, name, description, priority, statusId, None, None, None);
      Success((s.(tasks := s.tasks[t.id := t], nextId := s.nextId + 1), t))
  }

  /** Both dates given, and the start not before the end. */
  predicate BadDateRange(startDate: Option<int>, endDate: Option<int>) {
    startDate.Some? && endDate.Some? && startDate.value >= endDate.value
  }

  /**
   * The seven-argument create_task that state/project.py imports alongside
   * DateError. crud/tasks.py holds only the four-argument version, so this
   * one is the model's: the same status and name checks, then
   * InvalidMilestoneIDError for a milestone that does not exist (the check
   * assign_milestone makes) and DateError for a bad range; the new task
   * carries the milestone and the dates it is given.
   */
  function CreateTaskWith(s: Store, name: string, description: string, priority: Priority, statusId: int,
                          milestoneId: Option<int>, startDate: Option<int>, endDate: Option<int>)
    : (r: Result<(Store, Task), Error>)
    requires Valid(s)
    ensures statusId !in s.statuses ==> r == Failure(InvalidStatusIDError)
    ensures statusId in s.statuses ==>
              (r.Failure? <==> || TaskNameTaken(s, s.statuses[statusId].projectId, name)
                               || (milestoneId.Some? && milestoneId.value !in s.milestones)
                               || BadDateRange(startDate, endDate))
    ensures statusId in s.statuses && TaskNameTaken(s, s.statuses[statusId].projectId, name) ==>
              r == Failure(ExistingTaskNameError)
    ensures statusId in s.statuses && !TaskNameTaken(s, s.statuses[statusId].projectId, name) ==>
              && (milestoneId.Some? && milestoneId.value !in s.milestones ==> r == Failure(InvalidMilestoneIDError))
              && (!(milestoneId.Some? && milestoneId.value !in s.milestones) && BadDateRange(startDate, endDate) ==>
                    r == Failure(DateError))
    ensures r.Failure? && r.error == DateError ==> BadDateRange(startDate, endDate)
    ensures r.Failure? ==> r.error in {InvalidStatusIDError, ExistingTaskNameError, InvalidMilestoneIDError, DateError}
    ensures r.Success? ==>
              var (s', t) := r.value;
              && t.id !in s.tasks
              && t == Task(t.id, name, description, priority, statusId, milestoneId, startDate, endDate)
              && s'.tasks.Keys == s.tasks.Keys + {t.id}
              && s'.tasks[t.id] == t
              && (forall k :: k in s.tasks ==> s'.tasks[k] == s.tasks[k])
              && s'.(tasks := s.tasks, nextId := s.nextId) == s
              && Valid(s')
  {
    match CreateTask(s, name, description, priority, statusId)
    case Failure(e) => Failure(e)
    case Success((s', t)) =>
      if milestoneId.Some? && milestoneId.value !in s.milestones then Failure(InvalidMilestoneIDError)
      else if BadDateRange(startDate, endDate) then Failure(DateError)
      else
        var t' := t.(milestoneId := milestoneId, startDate := startDate, endDate := endDate);
        Success((s'.(tasks := s'.tasks[t.id := t']), t'))
  }

  /** Without a milestone or dates, the seven-argument create_task is the four-argument one. */
  lemma CreateTaskWithNothingIsCreateTask(s: Store, name: string, description: string, priority: Priority, statusId: int)
    requires Valid(s)
    ensures CreateTaskWith(s, name, description, priority, statusId, None, None, None)
            == CreateTask(s, name, description, priority, statusId)
  {
    match CreateTask(s, name, description, priority, statusId)
    case Failure(_) =>
    case Success((s', t)) =>
      assert t.(milestoneId := None, startDate := None, endDate := None) == t;
      assert s'.tasks[t.id := t] == s'.tasks;
  }

  // ---------------------------------------------------------------------
  // Field updates of one row
  // ---------------------------------------------------------------------

  /** rename_status. The duplicate query does not exclude the status itself. */
  function RenameStatus(s: Store, statusId: int, newName: string): (r: Result<(Store, Status), Error>)
    ensures statusId !in s.statuses ==> r == Failure(InvalidStatusIDError)
    ensures statusId in s.statuses ==>
              (r.Failure? <==> StatusNameTaken(s, s.statuses[statusId].projectId, newName))
    ensures statusId in s.statuses && r.Failure? ==> r.error == ExistingStatusNameError
    ensures r.Success? ==>
              var (s', st) := r.value;
              && statusId in s.statuses
              && st == s.statuses[statusId].(name := newName)
              && s'.statuses.Keys == s.statuses.Keys
              && s'.statuses[statusId] == st
              && (forall k :: k in s.statuses && k != statusId ==> s'.statuses[k] == s.statuses[k])
              && s'.(statuses := s.statuses) == s
  {
    if statusId !in s.statuses then Failure(InvalidStatusIDError)
    else
      var st := s.statuses[statusId];
      if StatusNameTaken(s, st.projectId, newName) then Failure(ExistingStatusNameError)
      else
        var st' := st.(name := newName);
        Success((s.(statuses := s.statuses[statusId := st']), st'))
  }

  /** rename_task: the task, then its status (an assertion in the source), then the project-wide name check, itself included. */
  function RenameTask(s: Store, taskId: int, newName: string): (r: Result<(Store, Task), Error>)
    ensures taskId !in s.tasks ==> r == Failure(InvalidTaskIDError)
    ensures taskId in s.tasks && s.tasks[taskId].statusId !in s.statuses ==> r == Failure(ParentStatusMissing)
    ensures taskId in s.tasks && s.tasks[taskId].statusId in s.statuses ==>
              (r.Failure? <==> TaskNameTaken(s, s.statuses[s.tasks[taskId].statusId].projectId, newName))
    ensures taskId in s.tasks && s.tasks[taskId].statusId in s.statuses && r.Failure? ==>
              r.error == ExistingTaskNameError
    ensures r.Success? ==>
              var (s', t) := r.value;
              && taskId in s.tasks
              && t == s.tasks[taskId].(name := newName)
              && s'.tasks.Keys == s.tasks.Keys
              && s'.tasks[taskId] == t
              && (forall k :: k in s.tasks && k != taskId ==> s'.tasks[k] == s.tasks[k])
              && s'.(tasks := s.tasks) == s
  {
    if taskId !in s.tasks then Failure(InvalidTaskIDError)
    else
      var t := s.tasks[taskId];
      if t.statusId !in s.statuses then Failure(ParentStatusMissing)
      else if TaskNameTaken(s, s.statuses[t.statusId].projectId, newName) then Failure(ExistingTaskNameError)
      else
        var t' := t.(name := newName);
        Success((s.(tasks := s.tasks[taskId := t']), t'))
  }

  /** set_task_description. */
  function SetTaskDescription(s: Store, taskId: int, newDescription: string): (r: Result<(Store, Task), Error>)
    ensures r.Failure? <==> taskId !in s.tasks
    ensures r.Failure? ==> r.error == InvalidTaskIDError
    ensures r.Success? ==>
              var (s', t) := r.value;
              && t == s.tasks[taskId].(description := newDescription)
              && s'.tasks.Keys == s.tasks.Keys
              && s'.tasks[taskId] == t
              && (forall k :: k in s.tasks && k != taskId ==> s'.tasks[k] == s.tasks[k])
              && s'.(tasks := s.tasks) == s
  {
    if taskId !in s.tasks then Failure(InvalidTaskIDError)
    else
      var t := s.tasks[taskId].(description := newDescription);
      Success((s.(tasks := s.tasks[taskId := t]), t))
  }

  /** assign_milestone: `None` unassigns; there is no same-project check. */
  function AssignMilestone(s: Store, milestoneId: Option<int>, taskId: int): (r: Result<(Store, Task), Error>)
    ensures taskId !in s.tasks ==> r == Failure(InvalidTaskIDError)
    ensures taskId in s.tasks ==>
              (r.Failure? <==> milestoneId.Some? && milestoneId.value !in s.milestones)
    ensures taskId in s.tasks && r.Failure? ==> r.error == InvalidMilestoneIDError
    ensures r.Success? ==>
              var (s', t) := r.value;
              && t == s.tasks[taskId].(milestoneId := milestoneId)
              && s'.tasks.Keys == s.tasks.Keys
              && s'.tasks[taskId] == t
              && (forall k :: k in s.tasks && k != taskId ==> s'.tasks[k] == s.tasks[k])
              && s'.(tasks := s.tasks) == s
  {
    if taskId !in s.tasks then Failure(InvalidTaskIDError)
    else if milestoneId.Some? && milestoneId.value !in s.milestones then Failure(InvalidMilestoneIDError)
    else
      var t := s.tasks[taskId].(milestoneId := milestoneId);
      Success((s.(tasks := s.tasks[taskId := t]), t))
  }

  /** set_status: the task is checked before the status; returns the previous status id; no same-project check. */
  function SetStatus(s: Store, taskId: int, statusId: int): (r: Result<(Store, int), Error>)
    ensures taskId !in s.tasks ==> r == Failure(InvalidTaskIDError)
    ensures taskId in s.tasks && statusId !in s.statuses ==> r == Failure(InvalidStatusIDError)
    ensures r.Success? <==> taskId in s.tasks && statusId in s.statuses
    ensures r.Success? ==>
              var (s', previous) := r.value;
              && previous == s.tasks[taskId].statusId
              && s'.tasks.Keys == s.tasks.Keys
              && s'.tasks[taskId] == s.tasks[taskId].(statusId := statusId)
              && (forall k :: k in s.tasks && k != taskId ==> s'.tasks[k] == s.tasks[k])
              && s'.(tasks := s.tasks) == s
  {
    if taskId !in s.tasks then Failure(InvalidTaskIDError)
    else if statusId !in s.statuses then Failure(InvalidStatusIDError)
    else
      var t := s.tasks[taskId];
      Success((s.(tasks := s.tasks[taskId := t.(statusId := statusId)]), t.statusId))
  }

  // ---------------------------------------------------------------------
  // Deletion
  // ---------------------------------------------------------------------

  /** The ids of the tasks whose status is `statusId`. */
  function TasksInStatus(s: Store, statusId: int): set<int> {
    set t | t in s.tasks && s.tasks[t].statusId == statusId
  }

  /**
   * delete_status: every task of the status is moved to `toStatusId`, which is
   * not validated, and the status row is removed; the moved tasks are returned
   * as stored afterwards, in row order.
   */
  function DeleteStatus(s: Store, statusId: int, toStatusId: int): (r: Result<(Store, seq<Task>), Error>)
    requires forall k :: k in s.tasks ==> s.tasks[k].id == k
    ensures r.Failure? <==> statusId !in s.statuses
    ensures r.Failure? ==> r.error == InvalidStatusIDError
    ensures r.Success? ==>
              var (s', moved) := r.value;
              && s'.statuses == s.statuses - {statusId}
              && s'.tasks.Keys == s.tasks.Keys
              && (forall k :: k in s.tasks ==>
                    s'.tasks[k] == if s.tasks[k].statusId == statusId then s.tasks[k].(statusId := toStatusId) else s.tasks[k])
              && (forall i :: 0 <= i < |moved| ==> moved[i].id in s'.tasks && moved[i] == s'.tasks[moved[i].id])
              && IdsOf(moved) == TasksInStatus(s, statusId)
              && (forall i, j :: 0 <= i < j < |moved| ==> moved[i].id < moved[j].id)
              && s'.(statuses := s.statuses, tasks := s.tasks) == s
  {
    if statusId !in s.statuses then Failure(InvalidStatusIDError)
    else
      var tasks' := MoveTasks(s.tasks, statusId, toStatusId);
      Success((s.(statuses := s.statuses - {statusId}, tasks := tasks'), MovedRows(s.tasks, statusId, tasks')))
  }

  /** The rows of the tasks that were in `statusId`, as `tasks'` holds them, in row order. */
  function MovedRows(tasks: map<int, Task>, statusId: int, tasks': map<int, Task>): (moved: seq<Task>)
    requires forall k :: k in tasks ==> tasks[k].id == k
    requires tasks'.Keys == tasks.Keys && forall k :: k in tasks ==> tasks'[k].id == k
    ensures forall i :: 0 <= i < |moved| ==> moved[i].id in tasks' && moved[i] == tasks'[moved[i].id]
    ensures IdsOf(moved) == (set k | k in tasks && tasks[k].statusId == statusId)
    ensures forall i, j :: 0 <= i < j < |moved| ==> moved[i].id < moved[j].id
  {
    var keys := set k | k in tasks && tasks[k].statusId == statusId;
    var ids := Rows.Ascending(keys);
    MovedRowsFacts(tasks', keys, ids);
    Rows.At(tasks', ids)
  }

  /** The rows under the ascending enumeration of some of their keys: where they are, and which ids they carry. */
  lemma MovedRowsFacts(tasks': map<int, Task>, keys: set<int>, ids: seq<int>)
    requires keys <= tasks'.Keys && forall k :: k in tasks' ==> tasks'[k].id == k
    requires ids == Rows.Ascending(keys)
    ensures forall i :: 0 <= i < |ids| ==> ids[i] in tasks'
    ensures var moved := Rows.At(tasks', ids);
            && (forall i :: 0 <= i < |moved| ==> moved[i].id in tasks' && moved[i] == tasks'[moved[i].id])
            && IdsOf(moved) == keys
            && (forall i, j :: 0 <= i < j < |moved| ==> moved[i].id < moved[j].id)
  {
    forall i | 0 <= i < |ids| ensures ids[i] in tasks' {
      assert ids[i] in keys;
    }
    var moved := Rows.At(tasks', ids);
    MovedIds(tasks', ids, moved);
    Rows.AscendingElements(keys);
  }

  /** The tasks of `statusId` re-pointed at `toStatusId`; the others unchanged. */
  function MoveTasks(tasks: map<int, Task>, statusId: int, toStatusId: int): (r: map<int, Task>)
    ensures r.Keys == tasks.Keys
    ensures (forall k :: k in tasks ==> tasks[k].id == k) ==> forall k :: k in r ==> r[k].id == k
    ensures forall k :: k in tasks ==>
              r[k] == if tasks[k].statusId == statusId then tasks[k].(statusId := toStatusId) else tasks[k]
  {
    map k | k in tasks :: if tasks[k].statusId == statusId then tasks[k].(statusId := toStatusId) else tasks[k]
  }

  /** The ids of a sequence of tasks. */
  function IdsOf(ts: seq<Task>): set<int> {
    set i | 0 <= i < |ts| :: ts[i].id
  }

  lemma MovedIds(tasks: map<int, Task>, ids: seq<int>, moved: seq<Task>)
    requires forall k :: k in tasks ==> tasks[k].id == k
    requires forall i :: 0 <= i < |ids| ==> ids[i] in tasks
    requires |moved| == |ids| && forall i :: 0 <= i < |ids| ==> moved[i] == tasks[ids[i]]
    ensures forall i :: 0 <= i < |moved| ==> moved[i].id == ids[i]
    ensures IdsOf(moved) == set i | 0 <= i < |ids| :: ids[i]
  {
  }

  /** delete_milestone: a no-op for an unknown id; otherwise every task of the milestone goes with it, but their assignments and dependency edges stay. */
  function DeleteMilestone(s: Store, milestoneId: int): (r: Store)
    ensures milestoneId !in s.milestones ==> r == s
    ensures milestoneId in s.milestones ==>
              && r.milestones == s.milestones - {milestoneId}
              && (forall k :: k in r.tasks <==> k in s.tasks && s.tasks[k].milestoneId != Some(milestoneId))
              && (forall k :: k in r.tasks ==> r.tasks[k] == s.tasks[k])
              && r.(milestones := s.milestones, tasks := s.tasks) == s
  {
    if milestoneId !in s.milestones then s
    else
      var doomed := set k | k in s.tasks && s.tasks[k].milestoneId == Some(milestoneId);
      s.(milestones := s.milestones - {milestoneId}, tasks := s.tasks - doomed)
  }

  /** An edge with `taskId` at either end. */
  predicate Touches(e: TaskDependency, taskId: int) {
    e.dependencyId == Some(taskId) || e.dependantId == Some(taskId)
  }

  /** The edges of `deps` that do not touch `taskId`, in their order. */
  function EdgesAvoiding(deps: seq<TaskDependency>, taskId: int): (r: seq<TaskDependency>)
    ensures forall e :: multiset(r)[e] == if Touches(e, taskId) then 0 else multiset(deps)[e]
  {
    if deps == [] then []
    else
      var rest := EdgesAvoiding(deps[1..], taskId);
      assert deps == [deps[0]] + deps[1..];
      if Touches(deps[0], taskId) then rest else [deps[0]] + rest
  }

  /** delete_task: a no-op for an unknown id; otherwise the task, its assignments and every edge touching it are removed. */
  function DeleteTask(s: Store, taskId: int): (r: Store)
    ensures taskId !in s.tasks ==> r == s
    ensures taskId in s.tasks ==>
              && r.tasks == s.tasks - {taskId}
              && (forall k :: k in r.assignments <==> k in s.assignments && k.0 != taskId)
              && (forall k :: k in r.assignments ==> r.assignments[k] == s.assignments[k])
              && (forall e :: multiset(r.dependencies)[e] == if Touches(e, taskId) then 0 else multiset(s.dependencies)[e])
              && r.(tasks := s.tasks, assignments := s.assignments, dependencies := s.dependencies) == s
  {
    if taskId !in s.tasks then s
    else
      s.(tasks := s.tasks - {taskId},
         assignments := map k | k in s.assignments && k.0 != taskId :: s.assignments[k],
         dependencies := EdgesAvoiding(s.dependencies, taskId))
  }

  // ---------------------------------------------------------------------
  // Assignments
  // ---------------------------------------------------------------------

  /** assign_task: the pair is the key; the task itself is not looked up. */
  function AssignTask(s: Store, taskId: int, userId: UserId, now: int): (r: Result<(Store, TaskAssignment), Error>)
    ensures r.Failure? <==> (taskId, userId) in s.assignments
    ensures r.Failure? ==> r.error == TaskAlreadyAssignedError
    ensures r.Success? ==>
              var (s', a) := r.value;
              && a == TaskAssignment(taskId, userId, now)
              && s'.assignments.Keys == s.assignments.Keys + {(taskId, userId)}
              && s'.assignments[(taskId, userId)] == a
              && (forall k :: k in s.assignments ==> s'.assignments[k] == s.assignments[k])
              && s'.(assignments := s.assignments) == s
  {
    if (taskId, userId) in s.assignments then Failure(TaskAlreadyAssignedError)
    else
      var a := TaskAssignment(taskId, userId, now);
      Success((s.(assignments := s.assignments[(taskId, userId) := a]), a))
  }

  /** unassign_task: a no-op when the pair is not assigned. */
  function UnassignTask(s: Store, taskId: int, userId: UserId): (r: Store)
    ensures r.assignments.Keys == s.assignments.Keys - {(taskId, userId)}
    ensures forall k :: k in r.assignments ==> r.assignments[k] == s.assignments[k]
    ensures r.(assignments := s.assignments) == s
  {
    s.(assignments := s.assignments - {(taskId, userId)})
  }

  /** assign_task followed by unassign_task of the same pair gives back the store. */
  lemma AssignThenUnassign(s: Store, taskId: int, userId: UserId, now: int)
    requires (taskId, userId) !in s.assignments
    ensures AssignTask(s, taskId, userId, now).Success?
    ensures UnassignTask(AssignTask(s, taskId, userId, now).value.0, taskId, userId) == s
  {
    var s' := AssignTask(s, taskId, userId, now).value.0;
    assert UnassignTask(s', taskId, userId).assignments == s.assignments;
  }

  // ---------------------------------------------------------------------
  // Dependencies
  // ---------------------------------------------------------------------

  /**
   * create_task_dependency(dependent, dependency): refuses only when the
   * reverse edge (dependency = dependent, dependant = dependency) exists,
   * then appends the edge (dependency = dependency, dependant = dependent).
   */
  function CreateTaskDependency(s: Store, dependentId: int, dependencyId: int)
    : (r: Result<(Store, TaskDependency), Error>)
    ensures r.Failure? <==> TaskDependency(Some(dependentId), Some(dependencyId)) in s.dependencies
    ensures r.Failure? ==> r.error == CyclicDependencyError
    ensures r.Success? ==>
              var (s', e) := r.value;
              && e == TaskDependency(Some(dependencyId), Some(dependentId))
              && multiset(s'.dependencies) == multiset(s.dependencies) + multiset{e}
              && s'.(dependencies := s.dependencies) == s
  {
    if TaskDependency(Some(dependentId), Some(dependencyId)) in s.dependencies then Failure(CyclicDependencyError)
    else
      var e := TaskDependency(Some(dependencyId), Some(dependentId));
      Success((s.(dependencies := s.dependencies + [e]), e))
  }

  /**
   * remove_task_dependency(dependent, dependency) as written: it deletes the
   * edge (dependency = dependent, dependant = dependency), the reverse of the
   * one create_task_dependency inserts for the same arguments.
   */
  function RemoveTaskDependency(s: Store, dependentId: int, dependencyId: int): (r: Store)
    ensures multiset(r.dependencies) == multiset(s.dependencies) - multiset{TaskDependency(Some(dependentId), Some(dependencyId))}
    ensures r.(dependencies := s.dependencies) == s
  {
    s.(dependencies := Rows.RemoveFirst(s.dependencies, TaskDependency(Some(dependentId), Some(dependencyId))))
  }

  /** The removal the pair of functions evidently intends: the edge create_task_dependency inserts for these arguments. */
  function RemoveTaskDependencyCorrected(s: Store, dependentId: int, dependencyId: int): (r: Store)
    ensures multiset(r.dependencies) == multiset(s.dependencies) - multiset{TaskDependency(Some(dependencyId), Some(dependentId))}
    ensures r.(dependencies := s.dependencies) == s
  {
    s.(dependencies := Rows.RemoveFirst(s.dependencies, TaskDependency(Some(dependencyId), Some(dependentId))))
  }

  /** As written, creating and then removing the dependency of task 1 on task 2 leaves an edge behind. */
  lemma CreateThenRemoveLeavesEdge()
    ensures var s := EmptyStore();
            var c := CreateTaskDependency(s, 1, 2);
            && c.Success?
            && RemoveTaskDependency(c.value.0, 1, 2).dependencies == [TaskDependency(Some(2), Some(1))]
            && RemoveTaskDependency(c.value.0, 1, 2) != s
  {
    var s := EmptyStore();
    var c := CreateTaskDependency(s, 1, 2);
    assert c.value.0.dependencies == [TaskDependency(Some(2), Some(1))];
  }

  /** With the corrected removal, create-then-remove restores the store up to the order of the edge rows. */
  lemma CreateThenRemoveCorrectedRestores(s: Store, dependentId: int, dependencyId: int)
    requires CreateTaskDependency(s, dependentId, dependencyId).Success?
    ensures var s' := RemoveTaskDependencyCorrected(CreateTaskDependency(s, dependentId, dependencyId).value.0, dependentId, dependencyId);
            && multiset(s'.dependencies) == multiset(s.dependencies)
            && s'.(dependencies := s.dependencies) == s
  {
  }

  /**
   * The cycle check looks at the direct reverse edge only: three calls that
   * close the cycle 1 -> 2 -> 3 -> 1 all succeed.
   */
  lemma ThreeCycleAccepted()
    ensures var c1 := CreateTaskDependency(EmptyStore(), 2, 1);
            && c1.Success?
            && var c2 := CreateTaskDependency(c1.value.0, 3, 2);
            && c2.Success?
            && var c3 := CreateTaskDependency(c2.value.0, 1, 3);
            && c3.Success?
            && c3.value.0.dependencies == [
                 TaskDependency(Some(1), Some(2)),
                 TaskDependency(Some(2), Some(3)),
                 TaskDependency(Some(3), Some(1))]
  {
    var c1 := CreateTaskDependency(EmptyStore(), 2, 1);
    assert c1.value.0.dependencies == [TaskDependency(Some(1), Some(2))];
    var c2 := CreateTaskDependency(c1.value.0, 3, 2);
    assert c2.value.0.dependencies == [TaskDependency(Some(1), Some(2)), TaskDependency(Some(2), Some(3))];
    var c3 := CreateTaskDependency(c2.value.0, 1, 3);
  }

  // ---------------------------------------------------------------------
  // Queries
  // ---------------------------------------------------------------------

  /** get_milestones_by_project_id: the project's milestones, each once, in row (ascending id) order. */
  function MilestonesOfProject(s: Store, projectId: int): (r: seq<Milestone>)
    ensures forall m :: m in r <==> exists k :: k in s.milestones && s.milestones[k] == m && m.projectId == projectId
    ensures Valid(s) ==> forall i, j :: 0 <= i < j < |r| ==> r[i].id < r[j].id
  {
    var keys := set k | k in s.milestones && s.milestones[k].projectId == projectId;
    var r := Rows.Select(s.milestones, keys);
    assert Valid(s) ==> forall i :: 0 <= i < |r| ==> r[i].id == Rows.Ascending(keys)[i];
    r
  }

  /** get_statuses_by_project_id: the project's statuses, each once, in row (ascending id) order. */
  function StatusesOfProject(s: Store, projectId: int): (r: seq<Status>)
    ensures forall st :: st in r <==> exists k :: k in s.statuses && s.statuses[k] == st && st.projectId == projectId
    ensures Valid(s) ==> forall i, j :: 0 <= i < j < |r| ==> r[i].id < r[j].id
  {
    var keys := set k | k in s.statuses && s.statuses[k].projectId == projectId;
    var r := Rows.Select(s.statuses, keys);
    assert Valid(s) ==> forall i :: 0 <= i < |r| ==> r[i].id == Rows.Ascending(keys)[i];
    r
  }

  /** get_tasks_by_status_id: the status's tasks, each once, in row (ascending id) order. */
  function TasksOfStatus(s: Store, statusId: int): (r: seq<Task>)
    ensures forall t :: t in r <==> exists k :: k in s.tasks && s.tasks[k] == t && t.statusId == statusId
    ensures Valid(s) ==> forall i, j :: 0 <= i < j < |r| ==> r[i].id < r[j].id
  {
    var keys := TasksInStatus(s, statusId);
    var r := Rows.Select(s.tasks, keys);
    assert Valid(s) ==> forall i :: 0 <= i < |r| ==> r[i].id == Rows.Ascending(keys)[i];
    r
  }

  /** get_tasks_by_milestone_id: the milestone's tasks, each once, in row (ascending id) order. */
  function TasksOfMilestone(s: Store, milestoneId: int): (r: seq<Task>)
    ensures forall t :: t in r <==> exists k :: k in s.tasks && s.tasks[k] == t && t.milestoneId == Some(milestoneId)
    ensures Valid(s) ==> forall i, j :: 0 <= i < j < |r| ==> r[i].id < r[j].id
  {
    var keys := set k | k in s.tasks && s.tasks[k].milestoneId == Some(milestoneId);
    var r := Rows.Select(s.tasks, keys);
    assert Valid(s) ==> forall i :: 0 <= i < |r| ==> r[i].id == Rows.Ascending(keys)[i];
    r
  }

  /** get_task_by_id / get_milestone_by_id. */
  function TaskById(s: Store, taskId: int): (r: Option<Task>)
    ensures r.Some? <==> taskId in s.tasks
    ensures r.Some? ==> r.value == s.tasks[taskId]
  {
    if taskId in s.tasks then Some(s.tasks[taskId]) else None
  }

  function MilestoneById(s: Store, milestoneId: int): (r: Option<Milestone>)
    ensures r.Some? <==> milestoneId in s.milestones
    ensures r.Some? ==> r.value == s.milestones[milestoneId]
  {
    if milestoneId in s.milestones then Some(s.milestones[milestoneId]) else None
  }

  /** get_milestone_by_task_id: InvalidTaskIDError for an unknown task, else the task's milestone if it has one that exists. */
  function MilestoneOfTask(s: Store, taskId: int): (r: Result<Option<Milestone>, Error>)
    ensures r.Failure? <==> taskId !in s.tasks
    ensures r.Failure? ==> r.error == InvalidTaskIDError
    ensures r.Success? ==>
              (r.value.Some? <==> s.tasks[taskId].milestoneId.Some? && s.tasks[taskId].milestoneId.value in s.milestones)
    ensures r.Success? && r.value.Some? ==> r.value.value == s.milestones[s.tasks[taskId].milestoneId.value]
  {
    if taskId !in s.tasks then Failure(InvalidTaskIDError)
    else
      match s.tasks[taskId].milestoneId
      case None => Success(None)
      case Some(m) => Success(MilestoneById(s, m))
  }

  /** get_assigned_tasks_by_user_id: the assignment join drops assignments whose task is gone. */
  function TasksAssignedTo(s: Store, userId: UserId): (r: seq<Task>)
    ensures forall t :: t in r <==> exists k :: k in s.tasks && s.tasks[k] == t && (k, userId) in s.assignments
    ensures Valid(s) ==> forall i, j :: 0 <= i < j < |r| ==> r[i].id < r[j].id
  {
    var keys := set k | k in s.tasks && (k, userId) in s.assignments;
    var r := Rows.Select(s.tasks, keys);
    assert Valid(s) ==> forall i :: 0 <= i < |r| ==> r[i].id == Rows.Ascending(keys)[i];
    r
  }

  /** get_assignees_by_task_id (the row order of a composite-key table is not modelled). */
  function AssigneesOf(s: Store, taskId: int): (r: set<UserId>)
    ensures forall u :: u in r <==> (taskId, u) in s.assignments
  {
    set k | k in s.assignments && k.0 == taskId :: k.1
  }
}
