/**
 * `load_project` (state/project.py): after a reset, the milestones of the
 * project are recorded with empty lists, then every status of the project
 * in row order, and under each status its tasks in row order, each task id
 * appended to its status's list and, when it has one, to its milestone's
 * list. A task whose milestone the projection does not hold raises a
 * KeyError, which the handler turns into the invalid-project redirect.
 */
module ProjectLoad {
  import opened Wrappers
  import opened Model
  import Rows
  import CrudTasks
  import opened ProjectView

  /** What the page is told: no signed-in user, the not-authorized toast, the invalid-project redirect, or the data. */
  datatype LoadOutcome = Anonymous | Unauthorized | InvalidProject | Loaded

  /** The milestones of the project, each with an empty task list. */
  function EmptyMilestones(s: Store, projectId: int): (r: map<int, MilestoneView>)
    ensures forall k :: k in r <==> k in s.milestones && s.milestones[k].projectId == projectId
    ensures forall k :: k in r ==> r[k] == MilestoneView(k, s.milestones[k].name, s.milestones[k].description, [])
  {
    map k | k in s.milestones && s.milestones[k].projectId == projectId ::
      MilestoneView(k, s.milestones[k].name, s.milestones[k].description, [])
  }

  /** The statuses of the project in row order. */
  function StatusIds(s: Store, projectId: int): (r: seq<int>)
    ensures Rows.StrictlyAscending(r)
    ensures forall k :: k in r <==> k in s.statuses && s.statuses[k].projectId == projectId
    ensures forall i :: 0 <= i < |r| ==> r[i] in s.statuses
  {
    Rows.Ascending(set k | k in s.statuses && s.statuses[k].projectId == projectId)
  }

  /** The tasks of a status in row order. */
  function TaskIds(s: Store, statusId: int): (r: seq<int>)
    ensures Rows.StrictlyAscending(r)
    ensures forall k :: k in r <==> k in s.tasks && s.tasks[k].statusId == statusId
    ensures forall i :: 0 <= i < |r| ==> r[i] in s.tasks && s.tasks[r[i]].statusId == statusId
  {
    Rows.Ascending(CrudTasks.TasksInStatus(s, statusId))
  }

  /**
   * One pass of the inner loop. `None` is the KeyError of a milestone the
   * projection does not hold; the task and status entries written before
   * it are dropped with the rest of the local dictionaries.
   */
  function AddTask(d: Data, statusId: int, t: Task): (r: Option<Data>)
    requires statusId in d.statuses
    ensures r.None? <==> t.milestoneId.Some? && t.milestoneId.value !in d.milestones
    ensures r.Some? ==>
              && Added(d, statusId, t, r.value)
              && r.value.(tasks := d.tasks, statuses := d.statuses, milestones := d.milestones) == d
  {
    var st := d.statuses[statusId];
    var d1 := d.(tasks := d.tasks[t.id := ViewOf(t)],
                 statuses := d.statuses[statusId := st.(taskIds := st.taskIds + [t.id])]);
    match t.milestoneId
    case None => Some(d1)
    case Some(m) =>
      if m !in d1.milestones then None
      else
        var ms := d1.milestones[m];
        Some(d1.(milestones := d1.milestones[m := ms.(taskIds := ms.taskIds + [t.id])]))
  }

  /** The inner loop over the tasks of one status. */
  function LoadTasks(s: Store, statusId: int, ids: seq<int>, d: Data): (r: Option<Data>)
    requires forall i :: 0 <= i < |ids| ==> ids[i] in s.tasks
    requires statusId in d.statuses
    ensures r.Some? ==> r.value.statuses.Keys == d.statuses.Keys && r.value.milestones.Keys == d.milestones.Keys
    ensures r.Some? ==> r.value.projectId == d.projectId && r.value.projectName == d.projectName
    decreases |ids|
  {
    if ids == [] then Some(d)
    else
      match AddTask(d, statusId, s.tasks[ids[0]])
      case None => None
      case Some(d1) => LoadTasks(s, statusId, ids[1..], d1)
  }

  /** One pass of the outer loop: record the status with an empty list, then run the inner loop over its tasks. */
  function LoadStatus(s: Store, sid: int, d: Data): (r: Option<Data>)
    requires sid in s.statuses
    ensures r.Some? ==> r.value.milestones.Keys == d.milestones.Keys && r.value.statuses.Keys == d.statuses.Keys + {sid}
    ensures r.Some? ==> r.value.projectId == d.projectId && r.value.projectName == d.projectName
  {
    var st := s.statuses[sid];
    LoadTasks(s, sid, TaskIds(s, sid), d.(statuses := d.statuses[sid := StatusView(sid, st.name, st.description, [])]))
  }

  /** The outer loop over the statuses of the project. */
  function LoadStatuses(s: Store, ids: seq<int>, d: Data): (r: Option<Data>)
    requires forall i :: 0 <= i < |ids| ==> ids[i] in s.statuses
    ensures r.Some? ==> r.value.milestones.Keys == d.milestones.Keys
    ensures r.Some? ==> r.value.projectId == d.projectId && r.value.projectName == d.projectName
    decreases |ids|
  {
    if ids == [] then Some(d)
    else
      match LoadStatus(s, ids[0], d)
      case None => None
      case Some(d2) => LoadStatuses(s, ids[1..], d2)
  }

  /** A task of the project whose milestone is not one of the project's milestones: the load's KeyError. */
  predicate DanglingMilestone(s: Store, projectId: int) {
    exists k :: k in s.tasks && CrudTasks.TaskInProject(s, s.tasks[k], projectId) && s.tasks[k].milestoneId.Some?
                && s.tasks[k].milestoneId.value !in EmptyMilestones(s, projectId)
  }

  /**
   * load_project. `userId` is the signed-in user, if any; `projectId` the
   * page parameter parsed as an integer, `None` when it is absent or not a
   * number. get_project and is_in_project are not part of this model: they
   * are taken as the lookup of the project row and of the membership row.
   */
  function LoadProject(s: Store, userId: Option<UserId>, projectId: Option<int>): (r: (Option<Data>, LoadOutcome))
    requires Valid(s)
    ensures r.0.Some? <==> r.1 == Loaded
    ensures r.1 == Anonymous <==> userId.None?
    ensures r.1 == Unauthorized <==>
              userId.Some? && projectId.Some? && projectId.value in s.projects && (projectId.value, userId.value) !in s.members
    ensures r.1 == InvalidProject <==>
              && userId.Some?
              && (|| projectId.None?
                  || projectId.value !in s.projects
                  || ((projectId.value, userId.value) in s.members && DanglingMilestone(s, projectId.value)))
  {
    if userId.None? then (None, Anonymous)
    else if projectId.None? || projectId.value !in s.projects then (None, InvalidProject)
    else
      var pid := projectId.value;
      if (pid, userId.value) !in s.members then (None, Unauthorized)
      else
        var empty := Data(pid, s.projects[pid].name, EmptyMilestones(s, pid), map[], map[]);
        var ids := StatusIds(s, pid);
        LoadStatusesFails(s, ids, empty);
        match LoadStatuses(s, ids, empty)
        case None =>
          assert DanglingMilestone(s, pid) by {
            var k :| k in s.tasks && s.tasks[k].statusId in ids && s.tasks[k].milestoneId.Some?
                     && s.tasks[k].milestoneId.value !in empty.milestones;
            assert CrudTasks.TaskInProject(s, s.tasks[k], pid);
          }
          (None, InvalidProject)
        case Some(d) =>
          assert !DanglingMilestone(s, pid) by {
            forall k | k in s.tasks && CrudTasks.TaskInProject(s, s.tasks[k], pid) && s.tasks[k].milestoneId.Some?
              ensures s.tasks[k].milestoneId.value in EmptyMilestones(s, pid)
            {
              assert s.tasks[k].statusId in ids;
            }
          }
          (Some(d), Loaded)
  }

  /**
   * A successful load holds exactly the project's statuses, milestones and
   * tasks, agrees with the store, and satisfies the three invariants.
   */
  lemma LoadedDataCoherent(s: Store, userId: Option<UserId>, projectId: Option<int>)
    requires Valid(s)
    requires LoadProject(s, userId, projectId).1 == Loaded
    ensures var (d, pid) := (LoadProject(s, userId, projectId).0.value, projectId.value);
            && pid in s.projects
            && d.projectId == pid
            && d.projectName == s.projects[pid].name
            && Coherent(d)
            && Mirrors(s, d)
            && (forall k :: k in d.statuses <==> k in s.statuses && s.statuses[k].projectId == pid)
            && (forall k :: k in d.milestones <==> k in s.milestones && s.milestones[k].projectId == pid)
            && (forall k :: k in d.tasks <==> k in s.tasks && CrudTasks.TaskInProject(s, s.tasks[k], pid))
  {
    var pid := projectId.value;
    var empty := Data(pid, s.projects[pid].name, EmptyMilestones(s, pid), map[], map[]);
    var ids := StatusIds(s, pid);
    assert LoadProject(s, userId, projectId).0 == LoadStatuses(s, ids, empty);
    LoadedFromStore(s, pid, ids, empty, LoadStatuses(s, ids, empty).value);
  }

  /** What the outer loop builds from the empty projection of a project. */
  lemma LoadedFromStore(s: Store, pid: int, ids: seq<int>, empty: Data, d: Data)
    requires Valid(s) && pid in s.projects
    requires empty == Data(pid, s.projects[pid].name, EmptyMilestones(s, pid), map[], map[])
    requires ids == StatusIds(s, pid)
    requires LoadStatuses(s, ids, empty) == Some(d)
    ensures d.projectId == pid && d.projectName == s.projects[pid].name
    ensures Coherent(d) && Mirrors(s, d)
    ensures forall k :: k in d.statuses <==> k in s.statuses && s.statuses[k].projectId == pid
    ensures forall k :: k in d.milestones <==> k in s.milestones && s.milestones[k].projectId == pid
    ensures forall k :: k in d.tasks <==> k in s.tasks && CrudTasks.TaskInProject(s, s.tasks[k], pid)
  {
    EmptyCoherent(s, pid, empty);
    LoadStatusesCoherent(s, ids, empty);
    LoadStatusesKeys(s, ids, empty);
    forall k ensures k in d.tasks <==> k in s.tasks && CrudTasks.TaskInProject(s, s.tasks[k], pid) {
      if k in s.tasks && CrudTasks.TaskInProject(s, s.tasks[k], pid) {
        assert s.tasks[k].statusId in ids;
      }
    }
  }

  /** The projection the loops start from: the project's milestones with empty lists, and nothing else. */
  lemma EmptyCoherent(s: Store, pid: int, empty: Data)
    requires Valid(s)
    requires empty.milestones == EmptyMilestones(s, pid) && empty.tasks == map[] && empty.statuses == map[]
    ensures Coherent(empty) && Mirrors(s, empty)
  {
  }

  // ---------------------------------------------------------------------
  // The loops keep the projection coherent and in step with the store
  // ---------------------------------------------------------------------

  lemma AddTaskCoherent(d: Data, statusId: int, t: Task)
    requires Coherent(d)
    requires statusId in d.statuses && t.statusId == statusId && t.id !in d.tasks
    ensures AddTask(d, statusId, t).Some? ==> Coherent(AddTask(d, statusId, t).value)
  {
    if AddTask(d, statusId, t).Some? {
      var d' := AddTask(d, statusId, t).value;
      AddTaskPartition(d, statusId, t, d');
      AddTaskStatusCoherence(d, statusId, t, d');
      AddTaskMilestoneCoherence(d, statusId, t, d');
    }
  }

  /** What a successful pass of the inner loop writes, as AddTask states it. */
  predicate Added(d: Data, statusId: int, t: Task, d': Data)
    requires statusId in d.statuses
  {
    && d'.tasks == d.tasks[t.id := ViewOf(t)]
    && d'.statuses.Keys == d.statuses.Keys
    && d'.milestones.Keys == d.milestones.Keys
    && d'.statuses[statusId].taskIds == d.statuses[statusId].taskIds + [t.id]
    && (forall k :: k in d.statuses && k != statusId ==> d'.statuses[k] == d.statuses[k])
    && (forall k :: k in d.milestones && Some(k) != t.milestoneId ==> d'.milestones[k] == d.milestones[k])
    && (t.milestoneId.Some? ==>
          t.milestoneId.value in d.milestones
          && d'.milestones[t.milestoneId.value].taskIds == d.milestones[t.milestoneId.value].taskIds + [t.id])
  }

  lemma AddTaskPartition(d: Data, statusId: int, t: Task, d': Data)
    requires Partition(d)
    requires statusId in d.statuses && t.id !in d.tasks
    requires Added(d, statusId, t, d')
    ensures Partition(d')
  {
    var old_ := d.statuses[statusId].taskIds;
    assert t.id !in old_;
    Rows.AppendDistinct(old_, t.id);
    forall k, i | k in d'.statuses && 0 <= i < |d'.statuses[k].taskIds| ensures d'.statuses[k].taskIds[i] in d'.tasks {
      if k == statusId && i < |old_| {
        assert d'.statuses[k].taskIds[i] == old_[i];
      }
    }
    forall k1, k2, x | k1 in d'.statuses && k2 in d'.statuses && k1 != k2 && x in d'.statuses[k1].taskIds
      ensures x !in d'.statuses[k2].taskIds
    {
      if x == t.id {
        assert k1 == statusId;
      }
    }
    forall x | x in d'.tasks
      ensures exists k :: k in d'.statuses && x in d'.statuses[k].taskIds
    {
      if x == t.id {
        assert x in d'.statuses[statusId].taskIds;
      } else {
        var k :| k in d.statuses && x in d.statuses[k].taskIds;
        assert x in d'.statuses[k].taskIds;
      }
    }
  }

  lemma AddTaskStatusCoherence(d: Data, statusId: int, t: Task, d': Data)
    requires StatusCoherence(d)
    requires statusId in d.statuses && t.statusId == statusId
    requires Added(d, statusId, t, d')
    ensures StatusCoherence(d')
  {
    forall x | x in d'.tasks
      ensures d'.tasks[x].statusId in d'.statuses && x in d'.statuses[d'.tasks[x].statusId].taskIds
    {
      if x != t.id {
        var k := d.tasks[x].statusId;
        assert x in d.statuses[k].taskIds;
      }
    }
  }

  lemma AddTaskMilestoneCoherence(d: Data, statusId: int, t: Task, d': Data)
    requires MilestoneCoherence(d)
    requires statusId in d.statuses && t.id !in d.tasks
    requires Added(d, statusId, t, d')
    ensures MilestoneCoherence(d')
  {
    if t.milestoneId.Some? {
      var m := t.milestoneId.value;
      assert t.id !in d.milestones[m].taskIds;
      Rows.AppendDistinct(d.milestones[m].taskIds, t.id);
    }
    forall m, i | m in d'.milestones && 0 <= i < |d'.milestones[m].taskIds|
      ensures d'.milestones[m].taskIds[i] in d'.tasks && d'.tasks[d'.milestones[m].taskIds[i]].milestoneId == Some(m)
    {
      if i < |d.milestones[m].taskIds| {
        assert d'.milestones[m].taskIds[i] == d.milestones[m].taskIds[i];
      }
    }
    forall x | x in d'.tasks && d'.tasks[x].milestoneId.Some?
      ensures d'.tasks[x].milestoneId.value in d'.milestones && x in d'.milestones[d'.tasks[x].milestoneId.value].taskIds
    {
      var m := d'.tasks[x].milestoneId.value;
      if x == t.id {
        assert d'.milestones[m].taskIds == d.milestones[m].taskIds + [t.id];
      } else {
        assert x in d.milestones[m].taskIds;
      }
    }
  }

  /** The inner loop stops with the KeyError exactly when one of its tasks has a milestone the projection does not hold. */
  lemma {:induction false} LoadTasksFails(s: Store, statusId: int, ids: seq<int>, d: Data)
    requires forall i :: 0 <= i < |ids| ==> ids[i] in s.tasks
    requires statusId in d.statuses
    ensures LoadTasks(s, statusId, ids, d).None? <==>
              exists i :: 0 <= i < |ids| && s.tasks[ids[i]].milestoneId.Some? && s.tasks[ids[i]].milestoneId.value !in d.milestones
    decreases |ids|
  {
    if ids != [] {
      var r := AddTask(d, statusId, s.tasks[ids[0]]);
      if r.Some? {
        var d1 := r.value;
        LoadTasksFails(s, statusId, ids[1..], d1);
        if LoadTasks(s, statusId, ids[1..], d1).None? {
          var i :| 0 <= i < |ids[1..]| && s.tasks[ids[1..][i]].milestoneId.Some?
                   && s.tasks[ids[1..][i]].milestoneId.value !in d1.milestones;
          assert ids[1..][i] == ids[i + 1];
        } else {
          forall i | 0 <= i < |ids|
            ensures !(s.tasks[ids[i]].milestoneId.Some? && s.tasks[ids[i]].milestoneId.value !in d.milestones)
          {
            if i > 0 {
              assert ids[i] == ids[1..][i - 1];
            }
          }
        }
      }
    }
  }

  lemma AddTaskMirrored(s: Store, d: Data, statusId: int, k: int)
    requires Valid(s) && Mirrors(s, d)
    requires statusId in d.statuses && k in s.tasks
    requires AddTask(d, statusId, s.tasks[k]).Some?
    ensures Mirrors(s, AddTask(d, statusId, s.tasks[k]).value)
  {
    assert s.tasks[k].id == k;
  }

  /** The inner loop adds exactly its tasks. */
  lemma {:induction false} LoadTasksKeys(s: Store, statusId: int, ids: seq<int>, d: Data)
    requires Valid(s)
    requires forall i :: 0 <= i < |ids| ==> ids[i] in s.tasks
    requires statusId in d.statuses
    ensures LoadTasks(s, statusId, ids, d).Some? ==>
              forall k :: k in LoadTasks(s, statusId, ids, d).value.tasks <==> k in d.tasks || k in ids
    decreases |ids|
  {
    if ids != [] {
      var r := AddTask(d, statusId, s.tasks[ids[0]]);
      if r.Some? {
        assert s.tasks[ids[0]].id == ids[0];
        LoadTasksKeys(s, statusId, ids[1..], r.value);
        assert ids == [ids[0]] + ids[1..];
      }
    }
  }

  /** The inner loop keeps the projection coherent and built from the store, and adds exactly its tasks. */
  lemma {:induction false} LoadTasksCoherent(s: Store, statusId: int, ids: seq<int>, d: Data)
    requires Valid(s)
    requires Coherent(d) && Mirrors(s, d)
    requires statusId in d.statuses
    requires Rows.StrictlyAscending(ids)
    requires forall i :: 0 <= i < |ids| ==> ids[i] in s.tasks && s.tasks[ids[i]].statusId == statusId && ids[i] !in d.tasks
    ensures LoadTasks(s, statusId, ids, d).Some? ==>
              var d' := LoadTasks(s, statusId, ids, d).value;
              && Coherent(d')
              && Mirrors(s, d')
    decreases |ids|
  {
    if ids != [] {
      var t := s.tasks[ids[0]];
      var r := AddTask(d, statusId, t);
      if r.Some? {
        assert t.id == ids[0];
        AddTaskCoherent(d, statusId, t);
        AddTaskMirrored(s, d, statusId, ids[0]);
        var d1 := r.value;
        TaskTailFresh(s, statusId, ids, d, d1, ViewOf(t));
        Rows.StrictlyAscendingTail(ids);
        LoadTasksCoherent(s, statusId, ids[1..], d1);
        assert LoadTasks(s, statusId, ids, d) == LoadTasks(s, statusId, ids[1..], d1);
      }
    }
  }

  /** After the first task's pass, the remaining tasks of the status are still new to the projection. */
  lemma TaskTailFresh(s: Store, statusId: int, ids: seq<int>, d: Data, d1: Data, v: TaskView)
    requires Rows.StrictlyAscending(ids) && ids != []
    requires forall i :: 0 <= i < |ids| ==> ids[i] in s.tasks && s.tasks[ids[i]].statusId == statusId && ids[i] !in d.tasks
    requires d1.tasks == d.tasks[ids[0] := v]
    ensures forall i :: 0 <= i < |ids[1..]| ==>
              ids[1..][i] in s.tasks && s.tasks[ids[1..][i]].statusId == statusId && ids[1..][i] !in d1.tasks
  {
    forall i | 0 <= i < |ids[1..]|
      ensures ids[1..][i] in s.tasks && s.tasks[ids[1..][i]].statusId == statusId && ids[1..][i] !in d1.tasks
    {
      assert ids[1..][i] == ids[i + 1];
    }
  }

  /** One status's pass fails exactly when one of its tasks has a milestone the projection does not hold. */
  lemma LoadStatusFails(s: Store, sid: int, d: Data)
    requires sid in s.statuses
    ensures LoadStatus(s, sid, d).None? <==>
              exists k :: k in s.tasks && s.tasks[k].statusId == sid && s.tasks[k].milestoneId.Some?
                          && s.tasks[k].milestoneId.value !in d.milestones
  {
    var st := s.statuses[sid];
    var d1 := d.(statuses := d.statuses[sid := StatusView(sid, st.name, st.description, [])]);
    var tids := TaskIds(s, sid);
    LoadTasksFails(s, sid, tids, d1);
    if LoadStatus(s, sid, d).Some? {
      forall k | k in s.tasks && s.tasks[k].statusId == sid && s.tasks[k].milestoneId.Some?
        ensures s.tasks[k].milestoneId.value in d.milestones
      {
        var i := Rows.IndexOf(tids, k);
      }
    }
  }

  /** The outer loop stops with the KeyError exactly when a task of one of its statuses has a milestone the projection does not hold. */
  lemma {:induction false} LoadStatusesFails(s: Store, ids: seq<int>, d: Data)
    requires forall i :: 0 <= i < |ids| ==> ids[i] in s.statuses
    ensures LoadStatuses(s, ids, d).None? <==>
              exists k :: k in s.tasks && s.tasks[k].statusId in ids && s.tasks[k].milestoneId.Some?
                          && s.tasks[k].milestoneId.value !in d.milestones
    decreases |ids|
  {
    if ids != [] {
      LoadStatusFails(s, ids[0], d);
      var r := LoadStatus(s, ids[0], d);
      if r.Some? {
        var d2 := r.value;
        LoadStatusesFails(s, ids[1..], d2);
        assert forall k :: k in ids <==> k == ids[0] || k in ids[1..] by {
          assert ids == [ids[0]] + ids[1..];
        }
      }
    }
  }

  /** Recording a new status with an empty list keeps the projection coherent and built. */
  lemma AddStatusCoherent(s: Store, d: Data, sid: int)
    requires Coherent(d) && Mirrors(s, d)
    requires sid in s.statuses && sid !in d.statuses
    ensures var st := s.statuses[sid];
            var d1 := d.(statuses := d.statuses[sid := StatusView(sid, st.name, st.description, [])]);
            Coherent(d1) && Mirrors(s, d1)
  {
    var st := s.statuses[sid];
    var d1 := d.(statuses := d.statuses[sid := StatusView(sid, st.name, st.description, [])]);
    assert d1.tasks == d.tasks && d1.milestones == d.milestones;
    assert WellKeyed(d1);
    assert Partition(d1) by {
      forall x | x in d1.tasks
        ensures exists k :: k in d1.statuses && x in d1.statuses[k].taskIds
      {
        var k := d.tasks[x].statusId;
        assert x in d1.statuses[k].taskIds;
      }
    }
    assert StatusCoherence(d1);
    assert MilestoneCoherence(d1);
    forall k | k in d1.statuses
      ensures k in s.statuses && d1.statuses[k].name == s.statuses[k].name && d1.statuses[k].description == s.statuses[k].description
    {
      if k != sid {
        assert d1.statuses[k] == d.statuses[k];
      }
    }
  }

  /** One status's pass adds that status and exactly its tasks. */
  lemma LoadStatusKeys(s: Store, sid: int, d: Data)
    requires Valid(s) && sid in s.statuses
    ensures LoadStatus(s, sid, d).Some? ==>
              forall k :: k in LoadStatus(s, sid, d).value.tasks <==> k in d.tasks || (k in s.tasks && s.tasks[k].statusId == sid)
  {
    var st := s.statuses[sid];
    var d1 := d.(statuses := d.statuses[sid := StatusView(sid, st.name, st.description, [])]);
    LoadTasksKeys(s, sid, TaskIds(s, sid), d1);
  }

  /** The outer loop adds exactly its statuses and their tasks. */
  lemma {:induction false} LoadStatusesKeys(s: Store, ids: seq<int>, d: Data)
    requires Valid(s)
    requires forall i :: 0 <= i < |ids| ==> ids[i] in s.statuses
    ensures LoadStatuses(s, ids, d).Some? ==>
              var d' := LoadStatuses(s, ids, d).value;
              && (forall k :: k in d'.statuses <==> k in d.statuses || k in ids)
              && (forall k :: k in d'.tasks <==> k in d.tasks || (k in s.tasks && s.tasks[k].statusId in ids))
    decreases |ids|
  {
    if ids != [] {
      LoadStatusKeys(s, ids[0], d);
      var r := LoadStatus(s, ids[0], d);
      if r.Some? {
        LoadStatusesKeys(s, ids[1..], r.value);
        assert forall k :: k in ids <==> k == ids[0] || k in ids[1..] by {
          assert ids == [ids[0]] + ids[1..];
        }
      }
    }
  }

  /** One status's pass keeps the projection coherent and built from the store. */
  lemma LoadStatusCoherent(s: Store, sid: int, d: Data)
    requires Valid(s)
    requires Coherent(d) && Mirrors(s, d)
    requires sid in s.statuses && sid !in d.statuses
    requires forall k :: k in d.tasks ==> s.tasks[k].statusId != sid
    ensures LoadStatus(s, sid, d).Some? ==> Coherent(LoadStatus(s, sid, d).value) && Mirrors(s, LoadStatus(s, sid, d).value)
  {
    var st := s.statuses[sid];
    var d1 := d.(statuses := d.statuses[sid := StatusView(sid, st.name, st.description, [])]);
    AddStatusCoherent(s, d, sid);
    var tids := TaskIds(s, sid);
    LoadTasksCoherent(s, sid, tids, d1);
  }

  /** The outer loop keeps the projection coherent and built from the store. */
  lemma {:induction false} LoadStatusesCoherent(s: Store, ids: seq<int>, d: Data)
    requires Valid(s)
    requires Coherent(d) && Mirrors(s, d)
    requires Rows.StrictlyAscending(ids)
    requires forall i :: 0 <= i < |ids| ==> ids[i] in s.statuses && ids[i] !in d.statuses
    requires forall k, i :: k in d.tasks && 0 <= i < |ids| ==> s.tasks[k].statusId != ids[i]
    ensures LoadStatuses(s, ids, d).Some? ==> Coherent(LoadStatuses(s, ids, d).value) && Mirrors(s, LoadStatuses(s, ids, d).value)
    decreases |ids|
  {
    if ids != [] {
      LoadStatusCoherent(s, ids[0], d);
      LoadStatusKeys(s, ids[0], d);
      var r := LoadStatus(s, ids[0], d);
      if r.Some? {
        var d2 := r.value;
        TailStaysFresh(s, ids, d, d2);
        Rows.StrictlyAscendingTail(ids);
        LoadStatusesCoherent(s, ids[1..], d2);
        assert LoadStatuses(s, ids, d) == LoadStatuses(s, ids[1..], d2);
      }
    }
  }

  /** After the first status's pass, the remaining statuses and their tasks are still new to the projection. */
  lemma TailStaysFresh(s: Store, ids: seq<int>, d: Data, d2: Data)
    requires Rows.StrictlyAscending(ids) && ids != []
    requires forall i :: 0 <= i < |ids| ==> ids[i] in s.statuses && ids[i] !in d.statuses
    requires forall k, i :: k in d.tasks && 0 <= i < |ids| ==> k in s.tasks && s.tasks[k].statusId != ids[i]
    requires d2.statuses.Keys == d.statuses.Keys + {ids[0]}
    requires forall k :: k in d2.tasks <==> k in d.tasks || (k in s.tasks && s.tasks[k].statusId == ids[0])
    ensures forall i :: 0 <= i < |ids[1..]| ==> ids[1..][i] in s.statuses && ids[1..][i] !in d2.statuses
    ensures forall k, i :: k in d2.tasks && 0 <= i < |ids[1..]| ==> s.tasks[k].statusId != ids[1..][i]
  {
    forall k, i | k in d2.tasks && 0 <= i < |ids[1..]|
      ensures s.tasks[k].statusId != ids[1..][i]
    {
      assert ids[1..][i] == ids[i + 1];
    }
    forall i | 0 <= i < |ids[1..]| ensures ids[1..][i] in s.statuses && ids[1..][i] !in d2.statuses {
      assert ids[1..][i] == ids[i + 1];
    }
  }
}
