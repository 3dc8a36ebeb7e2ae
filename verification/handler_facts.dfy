/**
 * What the patch handlers do to the invariants of the projection: which
 * ones a handler that ends normally keeps, and which ones it breaks.
 */
module HandlerFacts {
  import opened Wrappers
  import opened Model
  import Rows
  import CrudTasks
  import opened ProjectView
  import opened ProjectHandlers

  // ---------------------------------------------------------------------
  // New entries with empty lists
  // ---------------------------------------------------------------------

  /** A new status with an empty list keeps the projection coherent. */
  lemma AddEmptyStatusCoherent(d: Data, v: StatusView)
    requires Coherent(d) && v.id !in d.statuses && v.taskIds == []
    ensures Coherent(d.(statuses := d.statuses[v.id := v]))
  {
    var d' := d.(statuses := d.statuses[v.id := v]);
    forall t | t in d'.tasks ensures exists k :: k in d'.statuses && t in d'.statuses[k].taskIds {
      var k :| k in d.statuses && t in d.statuses[k].taskIds;
      assert d'.statuses[k] == d.statuses[k];
    }
  }

  /** create_status, ending normally, keeps the projection coherent and in step with the store. */
  lemma CreateStatusPreserves(s: Store, d: Data, name: string)
    requires Valid(s) && Coherent(d) && Mirrors(s, d)
    ensures var r := CreateStatus(s, Some(d), name);
            r.outcome == Done ==> r.data.Some? && Coherent(r.data.value) && Mirrors(r.store, r.data.value)
  {
    var r := CreateStatus(s, Some(d), name);
    if r.outcome == Done {
      var (s', st) := CrudTasks.CreateStatus(s, name, "", d.projectId).value;
      var v := StatusView(st.id, st.name, st.description, []);
      assert r.store == s' && r.data == Some(d.(statuses := d.statuses[st.id := v]));
      AddEmptyStatusCoherent(d, v);
      NewStatusMirrored(s, d, s', st);
    }
  }

  /** A new status with an empty list keeps the projection in step with a store that gained only that status. */
  lemma NewStatusMirrored(s: Store, d: Data, s': Store, st: Status)
    requires Mirrors(s, d)
    requires s'.tasks == s.tasks && s'.milestones == s.milestones && st.id in s'.statuses && s'.statuses[st.id] == st
    requires forall k :: k in s.statuses ==> k in s'.statuses && s'.statuses[k] == s.statuses[k]
    ensures Mirrors(s', d.(statuses := d.statuses[st.id := StatusView(st.id, st.name, st.description, [])]))
  {
  }

  /** create_milestone, ending normally, keeps the projection coherent and in step with the store. */
  lemma CreateMilestonePreserves(s: Store, d: Data, name: string, description: string, now: int)
    requires Valid(s) && Coherent(d) && Mirrors(s, d)
    ensures var r := CreateMilestone(s, Some(d), name, description, now);
            r.outcome == Done ==> r.data.Some? && Coherent(r.data.value) && Mirrors(r.store, r.data.value)
  {
    var r := CreateMilestone(s, Some(d), name, description, now);
    if r.outcome == Done {
      var (s', m) := CrudTasks.CreateMilestone(s, name, description, d.projectId, now).value;
      var v := MilestoneView(m.id, m.name, m.description, []);
      assert r.store == s' && r.data == Some(d.(milestones := d.milestones[m.id := v]));
      AddEmptyMilestoneCoherent(d, v);
      NewMilestoneMirrored(s, d, s', m);
    }
  }

  /** A new milestone with an empty list keeps the projection in step with a store that gained only that milestone. */
  lemma NewMilestoneMirrored(s: Store, d: Data, s': Store, m: Milestone)
    requires Mirrors(s, d)
    requires s'.tasks == s.tasks && s'.statuses == s.statuses && m.id in s'.milestones && s'.milestones[m.id] == m
    requires forall k :: k in s.milestones ==> k in s'.milestones && s'.milestones[k] == s.milestones[k]
    ensures Mirrors(s', d.(milestones := d.milestones[m.id := MilestoneView(m.id, m.name, m.description, [])]))
  {
  }

  /** A new milestone with an empty list keeps the projection coherent. */
  lemma AddEmptyMilestoneCoherent(d: Data, v: MilestoneView)
    requires Coherent(d) && v.id !in d.milestones && v.taskIds == []
    ensures Coherent(d.(milestones := d.milestones[v.id := v]))
  {
    var d' := d.(milestones := d.milestones[v.id := v]);
    forall t | t in d'.tasks && d'.tasks[t].milestoneId.Some?
      ensures d'.tasks[t].milestoneId.value in d'.milestones && t in d'.milestones[d'.tasks[t].milestoneId.value].taskIds
    {
      var m := d.tasks[t].milestoneId.value;
      assert m != v.id;
      assert d'.milestones[m] == d.milestones[m];
    }
  }

  /**
   * create_task, ending normally, keeps the projection coherent, and keeps
   * it in step with the store exactly when the new task has no milestone:
   * the row keeps the milestone that the entry drops.
   */
  lemma CreateTaskPreserves(s: Store, d: Data, name: string, description: string, priority: Priority,
                            statusId: int, milestoneId: Option<int>, startDate: Option<int>, endDate: Option<int>)
    requires Valid(s) && Coherent(d) && Mirrors(s, d)
    ensures var r := CreateTask(s, Some(d), name, description, priority, statusId, milestoneId, startDate, endDate);
            r.outcome == Done ==>
              && r.data.Some? && Coherent(r.data.value)
              && (Mirrors(r.store, r.data.value) <==> milestoneId.None?)
  {
    var r := CreateTask(s, Some(d), name, description, priority, statusId, milestoneId, startDate, endDate);
    if r.outcome == Done {
      var (s', t) := CrudTasks.CreateTaskWith(s, name, description, priority, statusId, milestoneId, startDate, endDate).value;
      var v := TaskView(t.id, name, description, statusId, None, startDate, endDate);
      assert r.store == s' && r.data == Some(WithNewTask(d, v));
      NewTaskFresh(s, d, t.id);
      NewTaskInStatusCoherent(d, v);
      if milestoneId.None? {
        assert v == ViewOf(t);
        NewTaskMirrored(s, d, s', t);
      } else {
        assert ViewOf(s'.tasks[t.id]).milestoneId != r.data.value.tasks[t.id].milestoneId;
      }
    }
  }

  /** create_task building the entry as the loader would, ending normally, keeps the projection coherent and in step with the store. */
  lemma CreateTaskCorrectedPreserves(s: Store, d: Data, name: string, description: string, priority: Priority,
                                     statusId: int, milestoneId: Option<int>, startDate: Option<int>, endDate: Option<int>)
    requires Valid(s) && Coherent(d) && Mirrors(s, d)
    ensures var r := CreateTaskCorrected(s, Some(d), name, description, priority, statusId, milestoneId, startDate, endDate);
            r.outcome == Done ==> r.data.Some? && Coherent(r.data.value) && Mirrors(r.store, r.data.value)
  {
    var r := CreateTaskCorrected(s, Some(d), name, description, priority, statusId, milestoneId, startDate, endDate);
    if r.outcome == Done {
      var (s', t) := CrudTasks.CreateTaskWith(s, name, description, priority, statusId, milestoneId, startDate, endDate).value;
      var v := ViewOf(t).(milestoneId := None);
      var d1 := WithNewTask(d, v);
      assert r.store == s' && r.data == Some(JoinMilestone(WithNewTask(d, ViewOf(t)), t.id, milestoneId));
      NewTaskFresh(s, d, t.id);
      NewTaskInStatusCoherent(d, v);
      JoinedNewTask(d, t.id, v, milestoneId);
      JoinMilestoneCoherent(d1, t.id, milestoneId);
      NewTaskJoinMirrored(s, d, s', t);
    }
  }

  /** Adding an entry and then giving it a milestone is adding the entry with that milestone and joining its list. */
  lemma JoinedNewTask(d: Data, id: int, v: TaskView, m: Option<int>)
    requires v.id == id && v.statusId in d.statuses && (m.Some? ==> m.value in d.milestones)
    ensures JoinMilestone(WithNewTask(d, v.(milestoneId := m)), id, m) == JoinMilestone(WithNewTask(d, v), id, m)
  {
    UpdateTwice(d.tasks, id, v, v.(milestoneId := m));
    UpdateTwice(d.tasks, id, v.(milestoneId := m), v.(milestoneId := m));
  }

  /** The new row with its milestone, against the new entry joined to that milestone's list, keeps the projection in step. */
  lemma NewTaskJoinMirrored(s: Store, d: Data, s': Store, t: Task)
    requires Coherent(d) && Mirrors(s, d)
    requires s'.tasks == s.tasks[t.id := t] && s'.statuses == s.statuses && s'.milestones == s.milestones
    requires t.id !in d.tasks && t.statusId in d.statuses && (t.milestoneId.Some? ==> t.milestoneId.value in d.milestones)
    ensures Mirrors(s', JoinMilestone(WithNewTask(d, ViewOf(t)), t.id, t.milestoneId))
  {
    var d1 := WithNewTask(d, ViewOf(t));
    var d2 := JoinMilestone(d1, t.id, t.milestoneId);
    assert ViewOf(t).(milestoneId := t.milestoneId) == ViewOf(t);
    UpdateTwice(d.tasks, t.id, ViewOf(t), ViewOf(t));
    assert d2.tasks == d.tasks[t.id := ViewOf(t)];
    forall k | k in d2.statuses
      ensures k in s'.statuses && d2.statuses[k].name == s'.statuses[k].name && d2.statuses[k].description == s'.statuses[k].description
    {
      assert d2.statuses[k].name == d.statuses[k].name && d2.statuses[k].description == d.statuses[k].description;
    }
    forall k | k in d2.milestones
      ensures k in s'.milestones && d2.milestones[k].name == s'.milestones[k].name
              && d2.milestones[k].description == s'.milestones[k].description
    {
      assert d2.milestones[k].name == d.milestones[k].name && d2.milestones[k].description == d.milestones[k].description;
    }
  }

  /** An id the store does not hold is in no entry and no list of a projection in step with it. */
  lemma NewTaskFresh(s: Store, d: Data, id: int)
    requires Coherent(d) && Mirrors(s, d) && id !in s.tasks
    ensures id !in d.tasks
    ensures forall k :: k in d.statuses ==> id !in d.statuses[k].taskIds
  {
    forall k | k in d.statuses ensures id !in d.statuses[k].taskIds {
      forall i | 0 <= i < |d.statuses[k].taskIds| ensures d.statuses[k].taskIds[i] != id {
        assert d.statuses[k].taskIds[i] in d.tasks;
      }
    }
  }

  /** Adding the view of a new row, and its id to its status's list, keeps the projection in step with a store that gained only that row. */
  lemma NewTaskMirrored(s: Store, d: Data, s': Store, t: Task)
    requires Mirrors(s, d)
    requires s'.tasks == s.tasks[t.id := t] && s'.statuses == s.statuses && s'.milestones == s.milestones
    requires t.id !in d.tasks && t.statusId in d.statuses
    ensures Mirrors(s', d.(tasks := d.tasks[t.id := ViewOf(t)],
                           statuses := d.statuses[t.statusId := d.statuses[t.statusId].(taskIds := d.statuses[t.statusId].taskIds + [t.id])]))
  {
  }

  /** A new entry without a milestone, appended to its status's list, keeps the projection coherent. */
  lemma NewTaskInStatusCoherent(d: Data, v: TaskView)
    requires Coherent(d) && v.id !in d.tasks && v.statusId in d.statuses && v.milestoneId.None?
    requires forall k :: k in d.statuses ==> v.id !in d.statuses[k].taskIds
    ensures Coherent(d.(tasks := d.tasks[v.id := v],
                        statuses := d.statuses[v.statusId := d.statuses[v.statusId].(taskIds := d.statuses[v.statusId].taskIds + [v.id])]))
  {
    NewTaskPartition(d, v);
    NewTaskLinks(d, v);
  }

  lemma NewTaskPartition(d: Data, v: TaskView)
    requires Coherent(d) && v.id !in d.tasks && v.statusId in d.statuses
    requires forall k :: k in d.statuses ==> v.id !in d.statuses[k].taskIds
    ensures Partition(WithNewTask(d, v))
  {
    var d' := WithNewTask(d, v);
    Rows.AppendDistinct(d.statuses[v.statusId].taskIds, v.id);
    forall t | t in d'.tasks ensures exists k :: k in d'.statuses && t in d'.statuses[k].taskIds {
      if t == v.id {
        assert t in d'.statuses[v.statusId].taskIds;
      } else {
        var k :| k in d.statuses && t in d.statuses[k].taskIds;
        assert t in d'.statuses[k].taskIds;
      }
    }
  }

  lemma NewTaskLinks(d: Data, v: TaskView)
    requires Coherent(d) && v.id !in d.tasks && v.statusId in d.statuses && v.milestoneId.None?
    ensures WellKeyed(WithNewTask(d, v)) && StatusCoherence(WithNewTask(d, v)) && MilestoneCoherence(WithNewTask(d, v))
  {
  }

  // ---------------------------------------------------------------------
  // Field updates
  // ---------------------------------------------------------------------

  /** rename_status, ending normally, keeps the projection coherent and in step with the store. */
  lemma RenameStatusPreserves(s: Store, d: Data, statusId: int, newName: string)
    requires Valid(s) && Coherent(d) && Mirrors(s, d)
    ensures var r := RenameStatus(s, Some(d), statusId, newName);
            r.outcome == Done ==> r.data.Some? && Coherent(r.data.value) && Mirrors(r.store, r.data.value)
  {
    var r := RenameStatus(s, Some(d), statusId, newName);
    if r.outcome == Done {
      StatusRenamePreserves(s, d, statusId, newName);
    }
  }

  /** Renaming a status in the store and in the projection together keeps both invariants. */
  lemma StatusRenamePreserves(s: Store, d: Data, k: int, name: string)
    requires Coherent(d) && Mirrors(s, d) && k in d.statuses && k in s.statuses
    ensures Coherent(d.(statuses := d.statuses[k := d.statuses[k].(name := name)]))
    ensures Mirrors(s.(statuses := s.statuses[k := s.statuses[k].(name := name)]),
                    d.(statuses := d.statuses[k := d.statuses[k].(name := name)]))
  {
    SameStatusListCoherent(d, k, d.statuses[k].(name := name));
    StatusRenameMirrored(s, d, k, name);
  }

  /** Replacing a status entry by one with the same id and list keeps the projection coherent. */
  lemma SameStatusListCoherent(d: Data, k: int, v: StatusView)
    requires Coherent(d) && k in d.statuses && v.id == k && v.taskIds == d.statuses[k].taskIds
    ensures Coherent(d.(statuses := d.statuses[k := v]))
  {
    var d' := d.(statuses := d.statuses[k := v]);
    forall t | t in d'.tasks ensures exists j :: j in d'.statuses && t in d'.statuses[j].taskIds {
      var j :| j in d.statuses && t in d.statuses[j].taskIds;
      assert t in d'.statuses[j].taskIds;
    }
  }

  /** Renaming the same status in the store and in the projection keeps them in step. */
  lemma StatusRenameMirrored(s: Store, d: Data, k: int, name: string)
    requires Mirrors(s, d) && k in s.statuses && k in d.statuses
    ensures Mirrors(s.(statuses := s.statuses[k := s.statuses[k].(name := name)]),
                    d.(statuses := d.statuses[k := d.statuses[k].(name := name)]))
  {
  }

  /** rename_task, ending normally, keeps the projection coherent and in step with the store. */
  lemma RenameTaskPreserves(s: Store, d: Data, taskId: int, newName: string)
    requires Coherent(d) && Mirrors(s, d)
    ensures var r := RenameTask(s, Some(d), taskId, newName);
            r.outcome == Done ==> r.data.Some? && Coherent(r.data.value) && Mirrors(r.store, r.data.value)
  {
    var r := RenameTask(s, Some(d), taskId, newName);
    if r.outcome == Done {
      RowEditPreserves(s, d, taskId, s.tasks[taskId].(name := newName), d.tasks[taskId].(name := newName));
    }
  }

  /** set_task_description, ending normally, keeps the projection coherent and in step with the store. */
  lemma SetTaskDescriptionPreserves(s: Store, d: Data, taskId: int, newDescription: string)
    requires Coherent(d) && Mirrors(s, d)
    ensures var r := SetTaskDescription(s, Some(d), taskId, newDescription);
            r.outcome == Done ==> r.data.Some? && Coherent(r.data.value) && Mirrors(r.store, r.data.value)
  {
    var r := SetTaskDescription(s, Some(d), taskId, newDescription);
    if r.outcome == Done {
      RowEditPreserves(s, d, taskId, s.tasks[taskId].(description := newDescription),
                       d.tasks[taskId].(description := newDescription));
    }
  }

  /** The date update writes the two dates of the one row and nothing else, or fails without writing. */
  ghost predicate SetsDates(update: DateUpdate) {
    forall s, id, a, b :: update(s, id, a, b).Success? ==>
      id in s.tasks && update(s, id, a, b).value == s.(tasks := s.tasks[id := s.tasks[id].(startDate := a, endDate := b)])
  }

  /** change_task_dates, ending normally, keeps the projection coherent, and in step with the store when the update writes only the dates. */
  lemma ChangeTaskDatesPreserves(s: Store, d: Data, taskId: int, startDate: Option<int>, endDate: Option<int>, update: DateUpdate)
    requires Coherent(d) && Mirrors(s, d)
    ensures var r := ChangeTaskDates(s, Some(d), taskId, startDate, endDate, update);
            r.outcome == Done ==> r.data.Some? && Coherent(r.data.value) && (SetsDates(update) ==> Mirrors(r.store, r.data.value))
  {
    var r := ChangeTaskDates(s, Some(d), taskId, startDate, endDate, update);
    if r.outcome == Done {
      var v := d.tasks[taskId].(startDate := startDate, endDate := endDate);
      assert r.data.value == d.(tasks := d.tasks[taskId := v]);
      SameListsCoherent(d, taskId, v);
      if SetsDates(update) {
        var s' := update(s, taskId, startDate, endDate).value;
        assert s' == s.(tasks := s.tasks[taskId := s.tasks[taskId].(startDate := startDate, endDate := endDate)]);
        RowEditPreserves(s, d, taskId, s.tasks[taskId].(startDate := startDate, endDate := endDate), v);
      }
    }
  }

  /** Replacing an entry by one with the same id, status and milestone keeps the projection coherent. */
  lemma SameListsCoherent(d: Data, taskId: int, v: TaskView)
    requires Coherent(d) && taskId in d.tasks
    requires v.id == d.tasks[taskId].id && v.statusId == d.tasks[taskId].statusId && v.milestoneId == d.tasks[taskId].milestoneId
    ensures Coherent(d.(tasks := d.tasks[taskId := v]))
  {
  }

  /** Replacing one row and its entry together keeps the projection in step with the store. */
  lemma RowUpdateMirrored(s: Store, d: Data, s': Store, t: Task, v: TaskView)
    requires Mirrors(s, d)
    requires s'.tasks == s.tasks[t.id := t] && s'.statuses == s.statuses && s'.milestones == s.milestones
    requires v == ViewOf(t)
    ensures Mirrors(s', d.(tasks := d.tasks[t.id := v]))
  {
  }

  /**
   * Editing one row and its entry together, without touching the entry's
   * status or milestone, keeps the projection coherent and in step.
   */
  lemma RowEditPreserves(s: Store, d: Data, k: int, t: Task, v: TaskView)
    requires Coherent(d) && Mirrors(s, d) && k in d.tasks
    requires v == ViewOf(t) && v.id == d.tasks[k].id
    requires v.statusId == d.tasks[k].statusId && v.milestoneId == d.tasks[k].milestoneId
    ensures Coherent(d.(tasks := d.tasks[k := v]))
    ensures Mirrors(s.(tasks := s.tasks[k := t]), d.(tasks := d.tasks[k := v]))
  {
    assert t.id == k;
    SameListsCoherent(d, k, v);
    RowUpdateMirrored(s, d, s.(tasks := s.tasks[k := t]), t, v);
  }

  // ---------------------------------------------------------------------
  // Moves between lists
  // ---------------------------------------------------------------------

  /** The projection after moving entry `t` from the list of its status to the end of the list of `to`. */
  function MoveToStatus(d: Data, t: int, to: int): (d': Data)
    requires t in d.tasks && d.tasks[t].statusId in d.statuses && to in d.statuses
    ensures d'.tasks.Keys == d.tasks.Keys && d'.statuses.Keys == d.statuses.Keys && d'.milestones == d.milestones
    ensures d'.tasks[t].statusId == to
  {
    var from := d.tasks[t].statusId;
    var removed := d.statuses[from := d.statuses[from].(taskIds := Rows.RemoveFirst(d.statuses[from].taskIds, t))];
    d.(statuses := removed[to := removed[to].(taskIds := removed[to].taskIds + [t])],
       tasks := d.tasks[t := d.tasks[t].(statusId := to)])
  }

  /** Membership in the lists after a move: `t` is in the list of `to` only, everything else stays where it was. */
  lemma MoveToStatusLists(d: Data, t: int, to: int)
    requires Coherent(d) && t in d.tasks && to in d.statuses
    ensures var d' := MoveToStatus(d, t, to);
            && (forall k, u :: k in d.statuses && u != t ==> (u in d'.statuses[k].taskIds <==> u in d.statuses[k].taskIds))
            && (forall k :: k in d.statuses ==> (t in d'.statuses[k].taskIds <==> k == to))
            && (forall k :: k in d.statuses ==> Rows.Distinct(d'.statuses[k].taskIds))
  {
    var from := d.tasks[t].statusId;
    var d' := MoveToStatus(d, t, to);
    var removed := Rows.RemoveFirst(d.statuses[from].taskIds, t);
    Rows.RemoveFirstDistinct(d.statuses[from].taskIds, t);
    forall k | k in d.statuses && k != from ensures t !in d.statuses[k].taskIds {
      HoldingStatusNotOther(d, t, k);
    }
    if to == from {
      Rows.AppendDistinct(removed, t);
    } else {
      Rows.AppendDistinct(d.statuses[to].taskIds, t);
    }
  }

  /** With a partition, a task's id is in no list but its status's. */
  lemma HoldingStatusNotOther(d: Data, t: int, k: int)
    requires Coherent(d) && t in d.tasks && k in d.statuses && k != d.tasks[t].statusId
    ensures t !in d.statuses[k].taskIds
  {
    if t in d.statuses[k].taskIds {
      HoldingStatusIsUnique(d, t, k);
    }
  }

  /** Moving an entry between status lists keeps the projection coherent. */
  lemma MoveToStatusCoherent(d: Data, t: int, to: int)
    requires Coherent(d) && t in d.tasks && to in d.statuses
    ensures Coherent(MoveToStatus(d, t, to))
  {
    MoveToStatusLists(d, t, to);
    MoveToStatusPartition(d, t, to);
    MoveToStatusStatusCoherence(d, t, to);
    MoveToStatusKeepsMilestones(d, t, to);
  }

  lemma MoveToStatusKeepsMilestones(d: Data, t: int, to: int)
    requires Coherent(d) && t in d.tasks && to in d.statuses
    ensures WellKeyed(MoveToStatus(d, t, to)) && MilestoneCoherence(MoveToStatus(d, t, to))
  {
    var d' := MoveToStatus(d, t, to);
    assert d'.tasks == d.tasks[t := d.tasks[t].(statusId := to)];
    MilestoneSideUnchanged(d, d');
  }

  /** A change that leaves the milestones, the task keys and every entry's id and milestone alone keeps the milestone half of coherence. */
  lemma MilestoneSideUnchanged(d: Data, d': Data)
    requires WellKeyed(d) && MilestoneCoherence(d)
    requires d'.milestones == d.milestones && d'.tasks.Keys == d.tasks.Keys && d'.statuses.Keys == d.statuses.Keys
    requires forall k :: k in d.tasks ==> d'.tasks[k].id == d.tasks[k].id && d'.tasks[k].milestoneId == d.tasks[k].milestoneId
    requires forall k :: k in d.statuses ==> d'.statuses[k].id == d.statuses[k].id
    ensures WellKeyed(d') && MilestoneCoherence(d')
  {
    forall m, i | m in d'.milestones && 0 <= i < |d'.milestones[m].taskIds|
      ensures d'.milestones[m].taskIds[i] in d'.tasks && d'.tasks[d'.milestones[m].taskIds[i]].milestoneId == Some(m)
    {
      var u := d.milestones[m].taskIds[i];
      assert u in d.tasks && d.tasks[u].milestoneId == Some(m);
    }
  }

  lemma MoveToStatusPartition(d: Data, t: int, to: int)
    requires Coherent(d) && t in d.tasks && to in d.statuses
    requires var d' := MoveToStatus(d, t, to);
             && (forall k, u :: k in d.statuses && u != t ==> (u in d'.statuses[k].taskIds <==> u in d.statuses[k].taskIds))
             && (forall k :: k in d.statuses ==> (t in d'.statuses[k].taskIds <==> k == to))
             && (forall k :: k in d.statuses ==> Rows.Distinct(d'.statuses[k].taskIds))
    ensures Partition(MoveToStatus(d, t, to))
  {
    var d' := MoveToStatus(d, t, to);
    forall k, i | k in d'.statuses && 0 <= i < |d'.statuses[k].taskIds| ensures d'.statuses[k].taskIds[i] in d'.tasks {
      var u := d'.statuses[k].taskIds[i];
      if u != t {
        assert u in d.statuses[k].taskIds;
      }
    }
    forall u | u in d'.tasks ensures exists k :: k in d'.statuses && u in d'.statuses[k].taskIds {
      if u == t {
        assert t in d'.statuses[to].taskIds;
      } else {
        var k :| k in d.statuses && u in d.statuses[k].taskIds;
        assert u in d'.statuses[k].taskIds;
      }
    }
  }

  lemma MoveToStatusStatusCoherence(d: Data, t: int, to: int)
    requires Coherent(d) && t in d.tasks && to in d.statuses
    requires var d' := MoveToStatus(d, t, to);
             && (forall k, u :: k in d.statuses && u != t ==> (u in d'.statuses[k].taskIds <==> u in d.statuses[k].taskIds))
             && (forall k :: k in d.statuses ==> (t in d'.statuses[k].taskIds <==> k == to))
    ensures StatusCoherence(MoveToStatus(d, t, to))
  {
  }

  /** set_task_status, ending normally, keeps the projection coherent and in step with the store. */
  lemma SetTaskStatusPreserves(s: Store, d: Data, taskId: int, statusId: int)
    requires Coherent(d) && Mirrors(s, d)
    ensures var r := SetTaskStatus(s, Some(d), taskId, statusId);
            r.outcome == Done ==> r.data.Some? && Coherent(r.data.value) && Mirrors(r.store, r.data.value)
  {
    var r := SetTaskStatus(s, Some(d), taskId, statusId);
    if r.outcome == Done {
      assert d.tasks[taskId] == ViewOf(s.tasks[taskId]);
      assert r.data.value == MoveToStatus(d, taskId, statusId);
      MoveToStatusCoherent(d, taskId, statusId);
      MoveToStatusMirrored(s, d, taskId, statusId);
    }
  }

  /** Moving a row to another status and its entry to that status's list keeps the projection in step. */
  lemma MoveToStatusMirrored(s: Store, d: Data, t: int, to: int)
    requires Coherent(d) && Mirrors(s, d) && t in d.tasks && to in d.statuses
    ensures Mirrors(s.(tasks := s.tasks[t := s.tasks[t].(statusId := to)]), MoveToStatus(d, t, to))
  {
    var d' := MoveToStatus(d, t, to);
    assert s.tasks[t].id == t;
    RowUpdateMirrored(s, d.(statuses := d'.statuses), s.(tasks := s.tasks[t := s.tasks[t].(statusId := to)]),
                      s.tasks[t].(statusId := to), d'.tasks[t]);
    assert d' == d.(statuses := d'.statuses).(tasks := d.tasks[t := d'.tasks[t]]);
  }

  /** A change that leaves the status lists, the task keys and every entry's id and status alone keeps the status half of coherence. */
  lemma StatusSideUnchanged(d: Data, d': Data)
    requires WellKeyed(d) && Partition(d) && StatusCoherence(d)
    requires d'.statuses == d.statuses && d'.tasks.Keys == d.tasks.Keys && d'.milestones.Keys == d.milestones.Keys
    requires forall k :: k in d.tasks ==> d'.tasks[k].id == d.tasks[k].id && d'.tasks[k].statusId == d.tasks[k].statusId
    requires forall m :: m in d.milestones ==> d'.milestones[m].id == d.milestones[m].id
    ensures WellKeyed(d') && Partition(d') && StatusCoherence(d')
  {
  }

  /** Taking an entry off its milestone keeps the projection coherent. */
  lemma ClearMilestoneCoherent(d: Data, t: int)
    requires Coherent(d) && t in d.tasks
    ensures d.tasks[t].milestoneId.Some? ==> d.tasks[t].milestoneId.value in d.milestones
    ensures Coherent(ClearMilestone(d, t))
  {
    var d' := ClearMilestone(d, t);
    StatusSideUnchanged(d, d');
    ClearMilestoneLists(d, t);
  }

  lemma ClearMilestoneLists(d: Data, t: int)
    requires Coherent(d) && t in d.tasks
    requires d.tasks[t].milestoneId.Some? ==> d.tasks[t].milestoneId.value in d.milestones
    ensures MilestoneCoherence(ClearMilestone(d, t))
  {
    var from := d.tasks[t].milestoneId;
    var d' := ClearMilestone(d, t);
    if from.Some? {
      var m0 := from.value;
      Rows.RemoveFirstDistinct(d.milestones[m0].taskIds, t);
      forall m, i | m in d'.milestones && 0 <= i < |d'.milestones[m].taskIds|
        ensures d'.milestones[m].taskIds[i] in d'.tasks && d'.tasks[d'.milestones[m].taskIds[i]].milestoneId == Some(m)
      {
        var u := d'.milestones[m].taskIds[i];
        assert u in d.milestones[m].taskIds && u != t;
        var j :| 0 <= j < |d.milestones[m].taskIds| && d.milestones[m].taskIds[j] == u;
      }
      forall u | u in d'.tasks && d'.tasks[u].milestoneId.Some?
        ensures d'.tasks[u].milestoneId.value in d'.milestones && u in d'.milestones[d'.tasks[u].milestoneId.value].taskIds
      {
        assert u != t;
      }
    }
  }

  /** Giving an entry without a milestone a milestone keeps the projection coherent. */
  lemma JoinMilestoneCoherent(d: Data, t: int, to: Option<int>)
    requires Coherent(d) && t in d.tasks && d.tasks[t].milestoneId.None? && (to.Some? ==> to.value in d.milestones)
    ensures Coherent(JoinMilestone(d, t, to))
  {
    var d' := JoinMilestone(d, t, to);
    StatusSideUnchanged(d, d');
    JoinMilestoneLists(d, t, to);
  }

  lemma JoinMilestoneLists(d: Data, t: int, to: Option<int>)
    requires Coherent(d) && t in d.tasks && d.tasks[t].milestoneId.None? && (to.Some? ==> to.value in d.milestones)
    ensures MilestoneCoherence(JoinMilestone(d, t, to))
  {
    var d' := JoinMilestone(d, t, to);
    if to.Some? {
      var m0 := to.value;
      assert t !in d.milestones[m0].taskIds by {
        forall i | 0 <= i < |d.milestones[m0].taskIds| ensures d.milestones[m0].taskIds[i] != t {
          assert d.tasks[d.milestones[m0].taskIds[i]].milestoneId == Some(m0);
        }
      }
      Rows.AppendDistinct(d.milestones[m0].taskIds, t);
      forall m, i | m in d'.milestones && 0 <= i < |d'.milestones[m].taskIds|
        ensures d'.milestones[m].taskIds[i] in d'.tasks && d'.tasks[d'.milestones[m].taskIds[i]].milestoneId == Some(m)
      {
        var u := d'.milestones[m].taskIds[i];
        if u != t {
          var j :| 0 <= j < |d.milestones[m].taskIds| && d.milestones[m].taskIds[j] == u;
        }
      }
    }
  }

  /** assign_milestone, ending normally, keeps the projection coherent and in step with the store. */
  lemma AssignMilestonePreserves(s: Store, d: Data, taskId: int, milestoneId: Option<int>)
    requires Coherent(d) && Mirrors(s, d)
    ensures var r := AssignMilestone(s, Some(d), taskId, milestoneId);
            r.outcome == Done ==> r.data.Some? && Coherent(r.data.value) && Mirrors(r.store, r.data.value)
  {
    var r := AssignMilestone(s, Some(d), taskId, milestoneId);
    if r.outcome == Done {
      ClearMilestoneCoherent(d, taskId);
      JoinMilestoneCoherent(ClearMilestone(d, taskId), taskId, milestoneId);
      AssignMirrored(s, d, taskId, milestoneId);
    }
  }

  /** Moving a row to another milestone and its entry between milestone lists keeps the projection in step. */
  lemma AssignMirrored(s: Store, d: Data, t: int, m: Option<int>)
    requires Coherent(d) && Mirrors(s, d) && t in d.tasks
    requires d.tasks[t].milestoneId.Some? ==> d.tasks[t].milestoneId.value in d.milestones
    requires m.Some? ==> m.value in d.milestones
    ensures Mirrors(s.(tasks := s.tasks[t := s.tasks[t].(milestoneId := m)]), JoinMilestone(ClearMilestone(d, t), t, m))
  {
    var d2 := JoinMilestone(ClearMilestone(d, t), t, m);
    var row := s.tasks[t].(milestoneId := m);
    assert row.id == t;
    AssignedEntries(d, t, m);
    AssignedNames(d, t, m);
    RowAndListsMirrored(s, d, d2, row);
  }

  /** After an assignment only the entry's milestone differs. */
  lemma AssignedEntries(d: Data, t: int, m: Option<int>)
    requires t in d.tasks
    requires d.tasks[t].milestoneId.Some? ==> d.tasks[t].milestoneId.value in d.milestones
    requires m.Some? ==> m.value in d.milestones
    ensures var d2 := JoinMilestone(ClearMilestone(d, t), t, m);
            && d2.tasks == d.tasks[t := d.tasks[t].(milestoneId := m)]
            && d2.statuses == d.statuses && d2.milestones.Keys == d.milestones.Keys
  {
    UpdateTwice(d.tasks, t, d.tasks[t].(milestoneId := None), d.tasks[t].(milestoneId := m));
  }

  /** After an assignment the milestones keep their names and descriptions. */
  lemma AssignedNames(d: Data, t: int, m: Option<int>)
    requires t in d.tasks
    requires d.tasks[t].milestoneId.Some? ==> d.tasks[t].milestoneId.value in d.milestones
    requires m.Some? ==> m.value in d.milestones
    ensures var d2 := JoinMilestone(ClearMilestone(d, t), t, m);
            forall j :: j in d2.milestones ==>
              d2.milestones[j].name == d.milestones[j].name && d2.milestones[j].description == d.milestones[j].description
  {
    var d1 := ClearMilestone(d, t);
    var d2 := JoinMilestone(d1, t, m);
    forall j | j in d2.milestones
      ensures d2.milestones[j].name == d.milestones[j].name && d2.milestones[j].description == d.milestones[j].description
    {
      assert j in d1.milestones && j in d.milestones;
      assert d1.milestones[j].name == d.milestones[j].name && d1.milestones[j].description == d.milestones[j].description;
    }
  }

  /** A second update of the same key overrides the first. */
  lemma UpdateTwice<K, V>(m: map<K, V>, k: K, a: V, b: V)
    ensures m[k := a][k := b] == m[k := b]
  {
  }

  /** One row replaced, and the milestone lists changed without their names, keeps the projection in step. */
  lemma RowAndListsMirrored(s: Store, d: Data, d': Data, t: Task)
    requires Mirrors(s, d) && t.id in d.tasks
    requires d'.tasks == d.tasks[t.id := ViewOf(t)] && d'.statuses == d.statuses
    requires d'.milestones.Keys == d.milestones.Keys
    requires forall j :: j in d'.milestones ==>
               d'.milestones[j].name == d.milestones[j].name && d'.milestones[j].description == d.milestones[j].description
    ensures Mirrors(s.(tasks := s.tasks[t.id := t]), d')
  {
  }

  // ---------------------------------------------------------------------
  // edit_task
  // ---------------------------------------------------------------------

  /**
   * edit_task as written: on a normal end the stored description is the old
   * one while the entry shows the new one, so the projection stays in step
   * with the store exactly when the description did not change.
   */
  lemma {:induction false} EditTaskDropsDescription(s: Store, d: Data, taskId: int, name: string, description: string,
                                                    startDate: Option<int>, endDate: Option<int>, update: DateUpdate)
    requires Coherent(d) && Mirrors(s, d) && SetsDates(update)
    ensures var r := EditTask(s, Some(d), taskId, name, description, startDate, endDate, update);
            r.outcome == Done ==>
              && taskId in s.tasks && taskId in r.store.tasks && r.data.Some? && taskId in r.data.value.tasks
              && r.store.tasks[taskId].description == s.tasks[taskId].description
              && r.data.value.tasks[taskId].description == description
              && (Mirrors(r.store, r.data.value) <==> s.tasks[taskId].description == description)
  {
    var r := EditTask(s, Some(d), taskId, name, description, startDate, endDate, update);
    if r.outcome == Done {
      var renamed := s.(tasks := s.tasks[taskId := s.tasks[taskId].(name := name)]);
      var t := s.tasks[taskId].(name := name, startDate := startDate, endDate := endDate);
      assert r.store == renamed.(tasks := s.tasks[taskId := t]);
      var v := d.tasks[taskId].(name := name, description := description, startDate := startDate, endDate := endDate);
      assert r.data.value == d.(tasks := d.tasks[taskId := v]);
      if s.tasks[taskId].description == description {
        assert v == ViewOf(t);
        RowUpdateMirrored(s, d, r.store, t, v);
      }
    }
  }

  /** edit_task, corrected, keeps the projection coherent and in step with the store when it ends normally. */
  lemma EditTaskCorrectedPreserves(s: Store, d: Data, taskId: int, name: string, description: string,
                                   startDate: Option<int>, endDate: Option<int>, update: DateUpdate)
    requires Coherent(d) && Mirrors(s, d) && SetsDates(update)
    ensures var r := EditTaskCorrected(s, Some(d), taskId, name, description, startDate, endDate, update);
            r.outcome == Done ==> r.data.Some? && Coherent(r.data.value) && Mirrors(r.store, r.data.value)
  {
    var r := EditTaskCorrected(s, Some(d), taskId, name, description, startDate, endDate, update);
    if r.outcome == Done {
      var t := s.tasks[taskId].(name := name, description := description, startDate := startDate, endDate := endDate);
      assert r.store == s.(tasks := s.tasks[taskId := t]);
      var v := d.tasks[taskId].(name := name, description := description, startDate := startDate, endDate := endDate);
      assert r.data.value == d.(tasks := d.tasks[taskId := v]);
      RowEditPreserves(s, d, taskId, t, v);
    }
  }
}
