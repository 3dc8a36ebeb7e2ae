/**
 * Properties of the task-side domain operations taken together: which
 * operations keep names unique per project and references intact, the
 * round trips and idempotence the callers rely on, and concrete stores on
 * which an operation breaks an invariant.
 */
module CrudTasksFacts {
  import opened Wrappers
  import opened Model
  import opened CrudTasks
  import Rows

  // ---------------------------------------------------------------------
  // Invariants
  // ---------------------------------------------------------------------

  predicate MilestoneNamesUnique(s: Store) {
    forall a, b ::
      (a in s.milestones && b in s.milestones && a != b && s.milestones[a].projectId == s.milestones[b].projectId)
      ==> s.milestones[a].name != s.milestones[b].name
  }

  predicate StatusNamesUnique(s: Store) {
    forall a, b ::
      (a in s.statuses && b in s.statuses && a != b && s.statuses[a].projectId == s.statuses[b].projectId)
      ==> s.statuses[a].name != s.statuses[b].name
  }

  /** Two distinct tasks reachable from the same project through their statuses never share a name. */
  predicate TaskNamesUnique(s: Store) {
    forall a, b ::
      (a in s.tasks && b in s.tasks && a != b && s.tasks[a].name == s.tasks[b].name
       && s.tasks[a].statusId in s.statuses && s.tasks[b].statusId in s.statuses)
      ==> s.statuses[s.tasks[a].statusId].projectId != s.statuses[s.tasks[b].statusId].projectId
  }

  /** Every task's status row exists. */
  predicate TasksHaveStatus(s: Store) {
    forall k :: k in s.tasks ==> s.tasks[k].statusId in s.statuses
  }

  /** Every assignment names an existing task. */
  predicate AssignmentsHaveTask(s: Store) {
    forall k :: k in s.assignments ==> k.0 in s.tasks
  }

  // ---------------------------------------------------------------------
  // Uniqueness of names
  // ---------------------------------------------------------------------

  lemma CreateMilestoneKeepsNamesUnique(s: Store, name: string, description: string, projectId: int, now: int)
    requires Valid(s) && MilestoneNamesUnique(s)
    requires CreateMilestone(s, name, description, projectId, now).Success?
    ensures MilestoneNamesUnique(CreateMilestone(s, name, description, projectId, now).value.0)
  {
    var (s', m) := CreateMilestone(s, name, description, projectId, now).value;
    forall a, b | a in s'.milestones && b in s'.milestones && a != b
        && s'.milestones[a].projectId == s'.milestones[b].projectId
      ensures s'.milestones[a].name != s'.milestones[b].name
    {
      if a == m.id {
        assert !MilestoneNameTaken(s, projectId, name);
        assert b in s.milestones;
      } else if b == m.id {
        assert !MilestoneNameTaken(s, projectId, name);
        assert a in s.milestones;
      }
    }
  }

  /** A second milestone of the same name in the same project is refused. */
  lemma CreateMilestoneTwiceFails(s: Store, name: string, d1: string, d2: string, projectId: int, t1: int, t2: int)
    requires Valid(s)
    requires CreateMilestone(s, name, d1, projectId, t1).Success?
    ensures CreateMilestone(CreateMilestone(s, name, d1, projectId, t1).value.0, name, d2, projectId, t2)
            == Failure(ExistingMilestoneNameError)
  {
    var (s', m) := CreateMilestone(s, name, d1, projectId, t1).value;
    assert s'.milestones[m.id].name == name && s'.milestones[m.id].projectId == projectId;
  }

  lemma CreateStatusKeepsNamesUnique(s: Store, name: string, description: string, projectId: int)
    requires Valid(s) && StatusNamesUnique(s)
    requires CreateStatus(s, name, description, projectId).Success?
    ensures StatusNamesUnique(CreateStatus(s, name, description, projectId).value.0)
  {
    var (s', st) := CreateStatus(s, name, description, projectId).value;
    forall a, b | a in s'.statuses && b in s'.statuses && a != b
        && s'.statuses[a].projectId == s'.statuses[b].projectId
      ensures s'.statuses[a].name != s'.statuses[b].name
    {
      if a == st.id {
        assert b in s.statuses;
      } else if b == st.id {
        assert a in s.statuses;
      }
    }
  }

  /** A second status of the same name in the same project is refused. */
  lemma CreateStatusTwiceFails(s: Store, name: string, d1: string, d2: string, projectId: int)
    requires Valid(s)
    requires CreateStatus(s, name, d1, projectId).Success?
    ensures CreateStatus(CreateStatus(s, name, d1, projectId).value.0, name, d2, projectId)
            == Failure(ExistingStatusNameError)
  {
    var (s', st) := CreateStatus(s, name, d1, projectId).value;
    assert s'.statuses[st.id].name == name && s'.statuses[st.id].projectId == projectId;
  }

  lemma CreateTaskKeepsNamesUnique(s: Store, name: string, description: string, priority: Priority, statusId: int)
    requires Valid(s) && TaskNamesUnique(s)
    requires CreateTask(s, name, description, priority, statusId).Success?
    ensures TaskNamesUnique(CreateTask(s, name, description, priority, statusId).value.0)
  {
    var (s', t) := CreateTask(s, name, description, priority, statusId).value;
    var p := s.statuses[statusId].projectId;
    forall a, b | a in s'.tasks && b in s'.tasks && a != b && s'.tasks[a].name == s'.tasks[b].name
        && s'.tasks[a].statusId in s'.statuses && s'.tasks[b].statusId in s'.statuses
      ensures s'.statuses[s'.tasks[a].statusId].projectId != s'.statuses[s'.tasks[b].statusId].projectId
    {
      if a == t.id {
        assert b in s.tasks && s.tasks[b].name == name;
        assert !TaskInProject(s, s.tasks[b], p);
      } else if b == t.id {
        assert a in s.tasks && s.tasks[a].name == name;
        assert !TaskInProject(s, s.tasks[a], p);
      }
    }
  }

  /** Renaming a status to the name it already has is refused: the duplicate query finds the status itself. */
  lemma RenameStatusToOwnNameFails(s: Store, statusId: int)
    requires statusId in s.statuses
    ensures RenameStatus(s, statusId, s.statuses[statusId].name) == Failure(ExistingStatusNameError)
  {
    assert StatusNameTaken(s, s.statuses[statusId].projectId, s.statuses[statusId].name) by {
      assert s.statuses[statusId].projectId == s.statuses[statusId].projectId;
    }
  }

  /** Likewise for a task whose status exists. */
  lemma RenameTaskToOwnNameFails(s: Store, taskId: int)
    requires taskId in s.tasks && s.tasks[taskId].statusId in s.statuses
    ensures RenameTask(s, taskId, s.tasks[taskId].name) == Failure(ExistingTaskNameError)
  {
    var t := s.tasks[taskId];
    assert TaskNameTaken(s, s.statuses[t.statusId].projectId, t.name) by {
      assert TaskInProject(s, s.tasks[taskId], s.statuses[t.statusId].projectId);
    }
  }

  lemma RenameStatusKeepsNamesUnique(s: Store, statusId: int, newName: string)
    requires StatusNamesUnique(s)
    requires RenameStatus(s, statusId, newName).Success?
    ensures StatusNamesUnique(RenameStatus(s, statusId, newName).value.0)
  {
    var s' := RenameStatus(s, statusId, newName).value.0;
    var p := s.statuses[statusId].projectId;
    forall a, b | a in s'.statuses && b in s'.statuses && a != b
        && s'.statuses[a].projectId == s'.statuses[b].projectId
      ensures s'.statuses[a].name != s'.statuses[b].name
    {
      if a == statusId {
        assert !StatusNameTaken(s, p, newName);
        assert s.statuses[b].projectId == p;
      } else if b == statusId {
        assert !StatusNameTaken(s, p, newName);
        assert s.statuses[a].projectId == p;
      }
    }
  }

  lemma RenameTaskKeepsNamesUnique(s: Store, taskId: int, newName: string)
    requires TaskNamesUnique(s)
    requires RenameTask(s, taskId, newName).Success?
    ensures TaskNamesUnique(RenameTask(s, taskId, newName).value.0)
  {
    var s' := RenameTask(s, taskId, newName).value.0;
    var p := s.statuses[s.tasks[taskId].statusId].projectId;
    forall a, b | a in s'.tasks && b in s'.tasks && a != b && s'.tasks[a].name == s'.tasks[b].name
        && s'.tasks[a].statusId in s'.statuses && s'.tasks[b].statusId in s'.statuses
      ensures s'.statuses[s'.tasks[a].statusId].projectId != s'.statuses[s'.tasks[b].statusId].projectId
    {
      if a == taskId {
        assert !TaskNameTaken(s, p, newName);
        assert !TaskInProject(s, s.tasks[b], p);
      } else if b == taskId {
        assert !TaskNameTaken(s, p, newName);
        assert !TaskInProject(s, s.tasks[a], p);
      }
    }
  }

  /** A store with statuses 1 (project 1) and 2 (project 2), each holding a task named "t". */
  function TwoProjects(): (s: Store)
    ensures TaskNamesUnique(s) && TasksHaveStatus(s)
  {
    Store(map[], map[], [], map[],
          map[1 := Status(1, 1, "Todo", ""), 2 := Status(2, 2, "Todo", "")],
          map[10 := Task(10, "t", "", MEDIUM, 1, None, None, None),
              20 := Task(20, "t", "", MEDIUM, 2, None, None, None)],
          map[], [], 30)
  }

  /** set_status has no same-project check: moving a task into another project's status can duplicate a task name there. */
  lemma SetStatusCanDuplicateTaskName()
    ensures SetStatus(TwoProjects(), 10, 2).Success?
    ensures !TaskNamesUnique(SetStatus(TwoProjects(), 10, 2).value.0)
  {
    var s' := SetStatus(TwoProjects(), 10, 2).value.0;
    assert s'.tasks[10].statusId == 2 && s'.tasks[20].statusId == 2;
  }

  // ---------------------------------------------------------------------
  // Status references and the migration protocol
  // ---------------------------------------------------------------------

  lemma CreateTaskKeepsStatusRefs(s: Store, name: string, description: string, priority: Priority, statusId: int)
    requires Valid(s) && TasksHaveStatus(s)
    requires CreateTask(s, name, description, priority, statusId).Success?
    ensures TasksHaveStatus(CreateTask(s, name, description, priority, statusId).value.0)
  {
  }

  lemma SetStatusKeepsStatusRefs(s: Store, taskId: int, statusId: int)
    requires TasksHaveStatus(s)
    requires SetStatus(s, taskId, statusId).Success?
    ensures TasksHaveStatus(SetStatus(s, taskId, statusId).value.0)
  {
  }

  /** set_status followed by set_status back to the returned previous status restores the store. */
  lemma SetStatusRoundTrip(s: Store, taskId: int, statusId: int)
    requires TasksHaveStatus(s)
    requires SetStatus(s, taskId, statusId).Success?
    ensures var (s', previous) := SetStatus(s, taskId, statusId).value;
            SetStatus(s', taskId, previous) == Success((s, statusId))
  {
    var (s', previous) := SetStatus(s, taskId, statusId).value;
    assert s'.tasks[taskId := s'.tasks[taskId].(statusId := previous)] == s.tasks;
  }

  /**
   * Migration completeness: after delete_status onto a different target, the
   * deleted status is gone and the target holds exactly its own tasks plus
   * the migrated ones.
   */
  lemma DeleteStatusMigratesAll(s: Store, statusId: int, toStatusId: int)
    requires forall k :: k in s.tasks ==> s.tasks[k].id == k
    requires statusId in s.statuses && toStatusId != statusId
    ensures var s' := DeleteStatus(s, statusId, toStatusId).value.0;
            && statusId !in s'.statuses
            && TasksInStatus(s', statusId) == {}
            && TasksInStatus(s', toStatusId) == TasksInStatus(s, toStatusId) + TasksInStatus(s, statusId)
  {
  }

  /** With a surviving, distinct target, no task is left without a status. */
  lemma DeleteStatusKeepsStatusRefs(s: Store, statusId: int, toStatusId: int)
    requires forall k :: k in s.tasks ==> s.tasks[k].id == k
    requires TasksHaveStatus(s)
    requires toStatusId in s.statuses && toStatusId != statusId
    requires DeleteStatus(s, statusId, toStatusId).Success?
    ensures TasksHaveStatus(DeleteStatus(s, statusId, toStatusId).value.0)
  {
  }

  /** The target is not validated: migrating onto the deleted status itself orphans its tasks. */
  lemma DeleteStatusOntoItselfOrphans(s: Store, statusId: int)
    requires forall k :: k in s.tasks ==> s.tasks[k].id == k
    requires statusId in s.statuses && TasksInStatus(s, statusId) != {}
    ensures !TasksHaveStatus(DeleteStatus(s, statusId, statusId).value.0)
  {
    var k := Rows.PickOne(TasksInStatus(s, statusId));
    var s' := DeleteStatus(s, statusId, statusId).value.0;
    assert s'.tasks[k].statusId == statusId;
  }

  // ---------------------------------------------------------------------
  // Milestones
  // ---------------------------------------------------------------------

  /** Repeating the same assign_milestone call leaves the store as the first call left it. */
  lemma AssignMilestoneIdempotent(s: Store, milestoneId: Option<int>, taskId: int)
    requires AssignMilestone(s, milestoneId, taskId).Success?
    ensures var (s', t) := AssignMilestone(s, milestoneId, taskId).value;
            AssignMilestone(s', milestoneId, taskId) == Success((s', t))
  {
    var (s', t) := AssignMilestone(s, milestoneId, taskId).value;
    assert s'.tasks[taskId := t] == s'.tasks;
  }

  /** Unassigning twice in a row succeeds both times and leaves the task unassigned. */
  lemma UnassignTwice(s: Store, taskId: int)
    requires taskId in s.tasks
    ensures AssignMilestone(s, None, taskId).Success?
    ensures var s' := AssignMilestone(s, None, taskId).value.0;
            && AssignMilestone(s', None, taskId).Success?
            && AssignMilestone(s', None, taskId).value.1.milestoneId == None
  {
  }

  /** delete_task removes the assignments of the task, so no assignment is left dangling. */
  lemma DeleteTaskKeepsAssignmentRefs(s: Store, taskId: int)
    requires AssignmentsHaveTask(s)
    ensures AssignmentsHaveTask(DeleteTask(s, taskId))
  {
  }

  /**
   * After deleting a stored milestone it lists no task. An unknown id
   * changes nothing, so tasks that name it are still listed under it.
   */
  lemma DeleteMilestoneEmptiesIt(s: Store, milestoneId: int)
    ensures milestoneId in s.milestones ==> TasksOfMilestone(DeleteMilestone(s, milestoneId), milestoneId) == []
    ensures milestoneId !in s.milestones ==>
              TasksOfMilestone(DeleteMilestone(s, milestoneId), milestoneId) == TasksOfMilestone(s, milestoneId)
  {
  }

  /** Every other milestone lists the same tasks, in the same order, after delete_milestone. */
  lemma DeleteMilestoneKeepsOthers(s: Store, milestoneId: int, other: int)
    requires other != milestoneId
    ensures TasksOfMilestone(DeleteMilestone(s, milestoneId), other) == TasksOfMilestone(s, other)
  {
    var s' := DeleteMilestone(s, milestoneId);
    var keys := set k | k in s.tasks && s.tasks[k].milestoneId == Some(other);
    var keys' := set k | k in s'.tasks && s'.tasks[k].milestoneId == Some(other);
    assert keys' == keys;
    Rows.SelectAgrees(s.tasks, s'.tasks, keys);
  }

  /** delete_milestone keeps every remaining task's status reference valid. */
  lemma DeleteMilestoneKeepsStatusRefs(s: Store, milestoneId: int)
    requires TasksHaveStatus(s)
    ensures TasksHaveStatus(DeleteMilestone(s, milestoneId))
  {
  }

  /** delete_milestone deletes the milestone's tasks but not their assignments. */
  lemma DeleteMilestoneLeavesAssignments()
    ensures var s := Store(map[], map[], [], map[5 := Milestone(5, 1, "m", "", 0)],
                           map[1 := Status(1, 1, "Todo", "")],
                           map[10 := Task(10, "t", "", LOW, 1, Some(5), None, None)],
                           map[(10, "u") := TaskAssignment(10, "u", 0)], [], 11);
            && AssignmentsHaveTask(s)
            && !AssignmentsHaveTask(DeleteMilestone(s, 5))
  {
    var s := Store(map[], map[], [], map[5 := Milestone(5, 1, "m", "", 0)],
                   map[1 := Status(1, 1, "Todo", "")],
                   map[10 := Task(10, "t", "", LOW, 1, Some(5), None, None)],
                   map[(10, "u") := TaskAssignment(10, "u", 0)], [], 11);
    var s' := DeleteMilestone(s, 5);
    assert 10 !in s'.tasks;
    assert (10, "u") in s'.assignments;
  }
}
