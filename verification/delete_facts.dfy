/**
 * What the two deleting handlers of the project page do to the
 * invariants of the projection, as written and with the evidently intended
 * patch.
 */
module DeleteFacts {
  import opened Wrappers
  import opened Model
  import Rows
  import CrudTasks
  import opened ProjectView
  import opened ProjectHandlers

  // ---------------------------------------------------------------------
  // delete_task
  // ---------------------------------------------------------------------

  /** Dropping an entry and its id from its status's list, whatever happens to the milestone lists, keeps the status half of coherence. */
  lemma DropTaskKeepsStatusSide(d: Data, t: int, d': Data)
    requires Coherent(d) && t in d.tasks
    requires var from := d.tasks[t].statusId;
             && d'.tasks == d.tasks - {t}
             && d'.statuses == d.statuses[from := d.statuses[from].(taskIds := Rows.RemoveFirst(d.statuses[from].taskIds, t))]
             && d'.milestones.Keys == d.milestones.Keys
             && forall m :: m in d.milestones ==> d'.milestones[m].id == d.milestones[m].id
    ensures WellKeyed(d') && Partition(d') && StatusCoherence(d')
  {
    DropTaskLists(d, t, d');
    DropTaskPartition(d, t, d');
    DropTaskLinks(d, t, d');
  }

  /** Membership in the status lists after the drop: `t` is in none, everything else stays where it was. */
  lemma DropTaskLists(d: Data, t: int, d': Data)
    requires Coherent(d) && t in d.tasks
    requires var from := d.tasks[t].statusId;
             && d'.tasks == d.tasks - {t}
             && d'.statuses == d.statuses[from := d.statuses[from].(taskIds := Rows.RemoveFirst(d.statuses[from].taskIds, t))]
             && d'.milestones.Keys == d.milestones.Keys
             && forall m :: m in d.milestones ==> d'.milestones[m].id == d.milestones[m].id
    ensures && (forall k, u :: k in d.statuses && u != t ==> (u in d'.statuses[k].taskIds <==> u in d.statuses[k].taskIds))
            && (forall k :: k in d.statuses ==> t !in d'.statuses[k].taskIds)
            && (forall k :: k in d.statuses ==> Rows.Distinct(d'.statuses[k].taskIds))
  {
    var from := d.tasks[t].statusId;
    Rows.RemoveFirstDistinct(d.statuses[from].taskIds, t);
    forall k | k in d.statuses ensures t !in d'.statuses[k].taskIds {
      if k != from && t in d.statuses[k].taskIds {
        HoldingStatusIsUnique(d, t, k);
      }
    }
  }

  lemma DropTaskPartition(d: Data, t: int, d': Data)
    requires Coherent(d) && t in d.tasks
    requires var from := d.tasks[t].statusId;
             && d'.tasks == d.tasks - {t}
             && d'.statuses == d.statuses[from := d.statuses[from].(taskIds := Rows.RemoveFirst(d.statuses[from].taskIds, t))]
             && d'.milestones.Keys == d.milestones.Keys
             && forall m :: m in d.milestones ==> d'.milestones[m].id == d.milestones[m].id
    requires && (forall k, u :: k in d.statuses && u != t ==> (u in d'.statuses[k].taskIds <==> u in d.statuses[k].taskIds))
             && (forall k :: k in d.statuses ==> t !in d'.statuses[k].taskIds)
             && (forall k :: k in d.statuses ==> Rows.Distinct(d'.statuses[k].taskIds))
    ensures Partition(d')
  {
    forall k, i | k in d'.statuses && 0 <= i < |d'.statuses[k].taskIds| ensures d'.statuses[k].taskIds[i] in d'.tasks {
      var u := d'.statuses[k].taskIds[i];
      assert u in d'.statuses[k].taskIds;
      assert u in d.statuses[k].taskIds;
    }
    forall u | u in d'.tasks ensures exists k :: k in d'.statuses && u in d'.statuses[k].taskIds {
      var k :| k in d.statuses && u in d.statuses[k].taskIds;
      assert u in d'.statuses[k].taskIds;
    }
  }

  lemma DropTaskLinks(d: Data, t: int, d': Data)
    requires Coherent(d) && t in d.tasks
    requires var from := d.tasks[t].statusId;
             && d'.tasks == d.tasks - {t}
             && d'.statuses == d.statuses[from := d.statuses[from].(taskIds := Rows.RemoveFirst(d.statuses[from].taskIds, t))]
             && d'.milestones.Keys == d.milestones.Keys
             && forall m :: m in d.milestones ==> d'.milestones[m].id == d.milestones[m].id
    requires forall k, u :: k in d.statuses && u != t ==> (u in d'.statuses[k].taskIds <==> u in d.statuses[k].taskIds)
    ensures WellKeyed(d') && StatusCoherence(d')
  {
  }

  /**
   * delete_task as written keeps the status lists coherent, but the
   * milestone lists stay coherent exactly when the deleted entry had no
   * milestone: otherwise its milestone's list still names it.
   */
  lemma DeleteTaskLeavesMilestoneList(s: Store, d: Data, taskId: int)
    requires Coherent(d)
    ensures var r := DeleteTask(s, Some(d), taskId);
            (r.outcome == Done <==> taskId in d.tasks)
            && (r.outcome == Done ==>
                  && r.data.Some?
                  && WellKeyed(r.data.value) && Partition(r.data.value) && StatusCoherence(r.data.value)
                  && (MilestoneCoherence(r.data.value) <==> d.tasks[taskId].milestoneId.None?))
  {
    var r := DeleteTask(s, Some(d), taskId);
    if taskId in d.tasks {
      assert d.tasks[taskId].id == taskId;
      var d' := r.data.value;
      DropTaskKeepsStatusSide(d, taskId, d');
      if d.tasks[taskId].milestoneId.Some? {
        var m := d.tasks[taskId].milestoneId.value;
        assert taskId in d'.milestones[m].taskIds;
        var i :| 0 <= i < |d'.milestones[m].taskIds| && d'.milestones[m].taskIds[i] == taskId;
        assert taskId !in d'.tasks;
      } else {
        forall m, i | m in d'.milestones && 0 <= i < |d'.milestones[m].taskIds|
          ensures d'.milestones[m].taskIds[i] in d'.tasks && d'.tasks[d'.milestones[m].taskIds[i]].milestoneId == Some(m)
        {
          assert d.tasks[d.milestones[m].taskIds[i]].milestoneId == Some(m);
        }
      }
    }
  }

  /** delete_task taking the id off its milestone's list too, ending normally, keeps the projection coherent and in step with the store. */
  lemma DeleteTaskCorrectedPreserves(s: Store, d: Data, taskId: int)
    requires Coherent(d) && Mirrors(s, d)
    ensures var r := DeleteTaskCorrected(s, Some(d), taskId);
            (r.outcome == Done <==> taskId in d.tasks)
            && (r.outcome == Done ==> r.data.Some? && Coherent(r.data.value) && Mirrors(r.store, r.data.value))
  {
    var r := DeleteTaskCorrected(s, Some(d), taskId);
    if taskId in d.tasks {
      assert d.tasks[taskId].id == taskId;
      DropTaskCoherentInStatus(d, taskId);
      if r.outcome == Done {
        var d' := r.data.value;
        DropTaskKeepsStatusSide(d, taskId, d');
        DropTaskKeepsMilestoneSide(d, taskId, d');
        DropTaskMirrored(s, d, taskId, d');
      }
    }
  }

  /** In a coherent projection an entry is in its status's list, and in its milestone's list when it has one. */
  lemma DropTaskCoherentInStatus(d: Data, t: int)
    requires Coherent(d) && t in d.tasks
    ensures d.tasks[t].id == t && d.tasks[t].statusId in d.statuses && t in d.statuses[d.tasks[t].statusId].taskIds
    ensures d.tasks[t].milestoneId.Some? ==>
              d.tasks[t].milestoneId.value in d.milestones && t in d.milestones[d.tasks[t].milestoneId.value].taskIds
  {
  }

  /** Dropping an entry, and its id from its lists, while the store drops its row keeps the projection in step. */
  lemma DropTaskMirrored(s: Store, d: Data, t: int, d': Data)
    requires Mirrors(s, d) && t in d.tasks && d.tasks[t].statusId in d.statuses
    requires d.tasks[t].milestoneId.Some? ==> d.tasks[t].milestoneId.value in d.milestones
    requires var (from, m) := (d.tasks[t].statusId, d.tasks[t].milestoneId);
             && d'.tasks == d.tasks - {t}
             && d'.statuses == d.statuses[from := d.statuses[from].(taskIds := Rows.RemoveFirst(d.statuses[from].taskIds, t))]
             && d'.milestones == if m.None? then d.milestones
                                 else d.milestones[m.value := d.milestones[m.value].(taskIds := Rows.RemoveFirst(d.milestones[m.value].taskIds, t))]
    ensures Mirrors(CrudTasks.DeleteTask(s, t), d')
  {
    var s' := CrudTasks.DeleteTask(s, t);
    assert t in s.tasks;
    assert s'.statuses == s.statuses && s'.milestones == s.milestones && s'.tasks == s.tasks - {t};
    forall k | k in d'.statuses
      ensures k in s'.statuses && d'.statuses[k].name == s'.statuses[k].name && d'.statuses[k].description == s'.statuses[k].description
    {
      assert d'.statuses[k].name == d.statuses[k].name && d'.statuses[k].description == d.statuses[k].description;
    }
    forall k | k in d'.milestones
      ensures k in s'.milestones && d'.milestones[k].name == s'.milestones[k].name
              && d'.milestones[k].description == s'.milestones[k].description
    {
      assert d'.milestones[k].name == d.milestones[k].name && d'.milestones[k].description == d.milestones[k].description;
    }
  }

  /** Dropping an entry and its id from its milestone's list keeps the milestone half of coherence. */
  lemma DropTaskKeepsMilestoneSide(d: Data, t: int, d': Data)
    requires Coherent(d) && t in d.tasks
    requires var m := d.tasks[t].milestoneId;
             && d'.tasks == d.tasks - {t}
             && d'.milestones == if m.None? then d.milestones
                                 else d.milestones[m.value := d.milestones[m.value].(taskIds := Rows.RemoveFirst(d.milestones[m.value].taskIds, t))]
    ensures MilestoneCoherence(d')
  {
    var m := d.tasks[t].milestoneId;
    if m.Some? {
      var m0 := m.value;
      assert m0 in d.milestones;
      assert Rows.Distinct(d.milestones[m0].taskIds);
      Rows.RemoveFirstDistinct(d.milestones[m0].taskIds, t);
    }
    forall n, i | n in d'.milestones && 0 <= i < |d'.milestones[n].taskIds|
      ensures d'.milestones[n].taskIds[i] in d'.tasks && d'.tasks[d'.milestones[n].taskIds[i]].milestoneId == Some(n)
    {
      var u := d'.milestones[n].taskIds[i];
      assert u in d'.milestones[n].taskIds;
      assert u in d.milestones[n].taskIds;
      var j :| 0 <= j < |d.milestones[n].taskIds| && d.milestones[n].taskIds[j] == u;
    }
  }

  // ---------------------------------------------------------------------
  // delete_status
  // ---------------------------------------------------------------------

  /** The rows delete_status moves are, among the entries of a projection in step with the store, exactly those of the deleted status. */
  lemma MovedAreTheStatusTasks(s: Store, d: Data, statusId: int, migrationStatusId: int)
    requires Valid(s) && Mirrors(s, d) && statusId in s.statuses
    ensures var moved := CrudTasks.DeleteStatus(s, statusId, migrationStatusId).value.1;
            forall u :: u in d.tasks ==> (u in CrudTasks.IdsOf(moved) <==> d.tasks[u].statusId == statusId)
  {
  }

  /**
   * delete_status as written: the moved entries keep the id of the status
   * that is gone, so the projection's status references hold afterwards
   * exactly when no task moved.
   */
  lemma DeleteStatusLeavesStaleStatus(s: Store, d: Data, statusId: int, migrationStatusId: int)
    requires Valid(s) && Coherent(d) && Mirrors(s, d)
    ensures var r := DeleteStatus(s, Some(d), statusId, migrationStatusId);
            r.outcome == Done ==>
              && statusId in s.statuses
              && r.data.Some?
              && (StatusCoherence(r.data.value) <==> CrudTasks.DeleteStatus(s, statusId, migrationStatusId).value.1 == [])
  {
    var r := DeleteStatus(s, Some(d), statusId, migrationStatusId);
    if r.outcome == Done {
      var moved := CrudTasks.DeleteStatus(s, statusId, migrationStatusId).value.1;
      var d' := r.data.value;
      MovedAreTheStatusTasks(s, d, statusId, migrationStatusId);
      if moved != [] {
        var u := moved[0].id;
        assert u in CrudTasks.IdsOf(moved);
        assert d'.tasks[u].statusId == statusId && statusId !in d'.statuses;
      } else {
        assert d'.statuses == d.statuses - {statusId};
        forall u | u in d'.tasks ensures d'.tasks[u].statusId in d'.statuses && u in d'.statuses[d'.tasks[u].statusId].taskIds {
          assert d.tasks[u].statusId != statusId;
        }
      }
    }
  }

  /** With every stored task of a loaded status loaded, the moved ids are exactly the ids in the deleted status's list. */
  lemma MovedAreTheStatusList(s: Store, d: Data, statusId: int, migrationStatusId: int)
    requires Valid(s) && Coherent(d) && Mirrors(s, d) && Covers(s, d) && statusId in s.statuses && statusId in d.statuses
    ensures var moved := CrudTasks.DeleteStatus(s, statusId, migrationStatusId).value.1;
            forall u :: u in CrudTasks.IdsOf(moved) <==> u in d.statuses[statusId].taskIds
  {
    var moved := CrudTasks.DeleteStatus(s, statusId, migrationStatusId).value.1;
    MovedAreTheStatusTasks(s, d, statusId, migrationStatusId);
    forall u ensures u in CrudTasks.IdsOf(moved) <==> u in d.statuses[statusId].taskIds {
      if u in d.statuses[statusId].taskIds {
        var i :| 0 <= i < |d.statuses[statusId].taskIds| && d.statuses[statusId].taskIds[i] == u;
        assert u in d.tasks;
        HoldingStatusIsUnique(d, u, statusId);
      }
      if u in CrudTasks.IdsOf(moved) {
        assert u in CrudTasks.TasksInStatus(s, statusId);
        assert u in d.tasks;
      }
    }
  }

  /** The ids of rows in ascending id order are the members of their id set, without repetition. */
  lemma IdSeqFacts(moved: seq<Task>)
    requires forall i, j :: 0 <= i < j < |moved| ==> moved[i].id < moved[j].id
    ensures Rows.Distinct(IdSeq(moved))
    ensures forall u :: u in IdSeq(moved) <==> u in CrudTasks.IdsOf(moved)
  {
    forall u | u in CrudTasks.IdsOf(moved) ensures u in IdSeq(moved) {
      var i :| 0 <= i < |moved| && moved[i].id == u;
      assert IdSeq(moved)[i] == u;
    }
  }

  /** Two lists without repetition and without a common element concatenate to one without repetition. */
  lemma DistinctConcat(a: seq<int>, b: seq<int>)
    requires Rows.Distinct(a) && Rows.Distinct(b)
    requires forall u :: u in a ==> u !in b
    ensures Rows.Distinct(a + b)
  {
    forall i, j | 0 <= i < j < |a + b| ensures (a + b)[i] != (a + b)[j] {
      if j < |a| {
        assert (a + b)[i] == a[i] && (a + b)[j] == a[j];
      } else if i < |a| {
        assert (a + b)[i] == a[i] && (a + b)[j] == b[j - |a|];
        assert a[i] in a && b[j - |a|] in b;
      } else {
        assert (a + b)[i] == b[i - |a|] && (a + b)[j] == b[j - |a|];
      }
    }
  }

  /**
   * The shape of the projection after the refreshing migration, at the
   * level of membership: the migration list gains the moved ids, the other
   * lists keep theirs, and a moved entry changes only its status.
   */
  ghost predicate RefreshedShape(d: Data, d': Data, statusId: int, ids: set<int>, migrationStatusId: int) {
    && d'.tasks.Keys == d.tasks.Keys
    && d'.milestones == d.milestones
    && d'.statuses.Keys == d.statuses.Keys - {statusId}
    && (forall u :: u in d.tasks ==> d'.tasks[u] == if u in ids then d.tasks[u].(statusId := migrationStatusId) else d.tasks[u])
    && (forall k :: k in d'.statuses ==> d'.statuses[k].id == d.statuses[k].id && Rows.Distinct(d'.statuses[k].taskIds))
    && (forall k, u :: k in d'.statuses ==>
          (u in d'.statuses[k].taskIds <==> u in d.statuses[k].taskIds || (k == migrationStatusId && u in ids)))
    && (ids != {} ==> migrationStatusId in d'.statuses)
  }

  /** The refreshing migration has the shape above, with the moved ids as the ids of the deleted status's list. */
  lemma RefreshedMigrationShape(d: Data, d': Data, statusId: int, moved: seq<Task>, migrationStatusId: int)
    requires Coherent(d) && statusId in d.statuses
    requires forall u :: u in CrudTasks.IdsOf(moved) <==> u in d.statuses[statusId].taskIds
    requires forall i, j :: 0 <= i < j < |moved| ==> moved[i].id < moved[j].id
    requires forall i :: 0 <= i < |moved| ==> moved[i].id in d.tasks && ViewOf(moved[i]) == d.tasks[moved[i].id].(statusId := migrationStatusId)
    requires moved != [] ==> migrationStatusId != statusId
    requires Migrated(d, d', statusId, moved, migrationStatusId, true)
    ensures RefreshedShape(d, d', statusId, CrudTasks.IdsOf(moved), migrationStatusId)
  {
    var ids := CrudTasks.IdsOf(moved);
    IdSeqFacts(moved);
    forall u | u in d.tasks ensures d'.tasks[u] == if u in ids then d.tasks[u].(statusId := migrationStatusId) else d.tasks[u] {
      if u in ids {
        var i :| 0 <= i < |moved| && moved[i].id == u;
      }
    }
    if moved != [] {
      var ml := d.statuses[migrationStatusId].taskIds;
      assert forall u :: u in ml ==> u !in IdSeq(moved);
      DistinctConcat(ml, IdSeq(moved));
    }
  }

  /** A projection of that shape, built from a coherent one, is coherent. */
  lemma RefreshedShapeCoherent(d: Data, d': Data, statusId: int, ids: set<int>, migrationStatusId: int)
    requires Coherent(d) && statusId in d.statuses
    requires forall u :: u in ids <==> u in d.statuses[statusId].taskIds
    requires RefreshedShape(d, d', statusId, ids, migrationStatusId)
    ensures Coherent(d')
  {
    RefreshedShapePartition(d, d', statusId, ids, migrationStatusId);
    RefreshedShapeStatusCoherence(d, d', statusId, ids, migrationStatusId);
    RefreshedShapeRest(d, d', statusId, ids, migrationStatusId);
  }

  lemma RefreshedShapePartition(d: Data, d': Data, statusId: int, ids: set<int>, migrationStatusId: int)
    requires Coherent(d) && statusId in d.statuses
    requires forall u :: u in ids <==> u in d.statuses[statusId].taskIds
    requires RefreshedShape(d, d', statusId, ids, migrationStatusId)
    ensures Partition(d')
  {
    forall u | u in ids ensures u in d.tasks && d.tasks[u].statusId == statusId {
      var i :| 0 <= i < |d.statuses[statusId].taskIds| && d.statuses[statusId].taskIds[i] == u;
      HoldingStatusIsUnique(d, u, statusId);
    }
    forall k, i | k in d'.statuses && 0 <= i < |d'.statuses[k].taskIds| ensures d'.statuses[k].taskIds[i] in d'.tasks {
      var u := d'.statuses[k].taskIds[i];
      assert u in d'.statuses[k].taskIds;
      if u !in ids {
        var j :| 0 <= j < |d.statuses[k].taskIds| && d.statuses[k].taskIds[j] == u;
      }
    }
    forall u | u in d'.tasks ensures exists k :: k in d'.statuses && u in d'.statuses[k].taskIds {
      if u in ids {
        assert u in d'.statuses[migrationStatusId].taskIds;
      } else {
        var k := d.tasks[u].statusId;
        assert k != statusId && k in d'.statuses;
        assert u in d'.statuses[k].taskIds;
      }
    }
    forall k1, k2, u | k1 in d'.statuses && k2 in d'.statuses && k1 != k2 && u in d'.statuses[k1].taskIds
      ensures u !in d'.statuses[k2].taskIds
    {
      if u in ids {
        assert u !in d.statuses[k1].taskIds && u !in d.statuses[k2].taskIds;
      }
    }
  }

  lemma RefreshedShapeStatusCoherence(d: Data, d': Data, statusId: int, ids: set<int>, migrationStatusId: int)
    requires Coherent(d) && statusId in d.statuses
    requires forall u :: u in ids <==> u in d.statuses[statusId].taskIds
    requires RefreshedShape(d, d', statusId, ids, migrationStatusId)
    ensures StatusCoherence(d')
  {
    forall u | u in d'.tasks ensures d'.tasks[u].statusId in d'.statuses && u in d'.statuses[d'.tasks[u].statusId].taskIds {
      if u in ids {
        assert d'.tasks[u].statusId == migrationStatusId;
      } else {
        assert d.tasks[u].statusId != statusId;
        assert u in d.statuses[d.tasks[u].statusId].taskIds;
      }
    }
  }

  lemma RefreshedShapeRest(d: Data, d': Data, statusId: int, ids: set<int>, migrationStatusId: int)
    requires Coherent(d) && statusId in d.statuses
    requires RefreshedShape(d, d', statusId, ids, migrationStatusId)
    ensures WellKeyed(d') && MilestoneCoherence(d')
  {
    forall m, i | m in d'.milestones && 0 <= i < |d'.milestones[m].taskIds|
      ensures d'.milestones[m].taskIds[i] in d'.tasks && d'.tasks[d'.milestones[m].taskIds[i]].milestoneId == Some(m)
    {
      var u := d.milestones[m].taskIds[i];
      assert u in d.tasks && d.tasks[u].milestoneId == Some(m);
      assert d'.tasks[u].milestoneId == d.tasks[u].milestoneId;
    }
    forall u | u in d'.tasks && d'.tasks[u].milestoneId.Some?
      ensures d'.tasks[u].milestoneId.value in d'.milestones && u in d'.milestones[d'.tasks[u].milestoneId.value].taskIds
    {
      assert d'.tasks[u].milestoneId == d.tasks[u].milestoneId;
    }
  }

  /**
   * delete_status with the moved entries refreshed keeps the projection
   * coherent and in agreement with the store.
   */
  lemma DeleteStatusCorrectedPreserves(s: Store, d: Data, statusId: int, migrationStatusId: int)
    requires Valid(s) && Coherent(d) && Mirrors(s, d) && Covers(s, d)
    ensures var r := DeleteStatusCorrected(s, Some(d), statusId, migrationStatusId);
            r.outcome == Done ==> r.data.Some? && Coherent(r.data.value) && Mirrors(r.store, r.data.value)
  {
    var r := DeleteStatusCorrected(s, Some(d), statusId, migrationStatusId);
    if r.outcome == Done {
      var res := CrudTasks.DeleteStatus(s, statusId, migrationStatusId);
      RefreshedDeletePreserves(s, res.value.0, d, r.data.value, statusId, res.value.1, migrationStatusId);
    }
  }

  /** The proof of the lemma above once the outcome has been unfolded into its parts. */
  lemma RefreshedDeletePreserves(s: Store, s': Store, d: Data, d': Data, statusId: int, moved: seq<Task>, migrationStatusId: int)
    requires Valid(s) && Coherent(d) && Mirrors(s, d) && Covers(s, d)
    requires statusId in s.statuses && statusId in d.statuses
    requires CrudTasks.DeleteStatus(s, statusId, migrationStatusId) == Success((s', moved))
    requires moved != [] ==> migrationStatusId != statusId
    requires Migrated(d, d', statusId, moved, migrationStatusId, true)
    ensures Coherent(d') && Mirrors(s', d')
  {
    MovedAreTheStatusTasks(s, d, statusId, migrationStatusId);
    MovedAreTheStatusList(s, d, statusId, migrationStatusId);
    RefreshedPreservesFromParts(s, s', d, d', statusId, moved, migrationStatusId);
  }

  lemma {:induction false} RefreshedPreservesFromParts(s: Store, s': Store, d: Data, d': Data, statusId: int, moved: seq<Task>, migrationStatusId: int)
    requires Coherent(d) && Mirrors(s, d) && statusId in d.statuses
    requires s'.statuses == s.statuses - {statusId} && s'.milestones == s.milestones && s'.tasks.Keys == s.tasks.Keys
    requires forall k :: k in s.tasks ==>
               s'.tasks[k] == if s.tasks[k].statusId == statusId then s.tasks[k].(statusId := migrationStatusId) else s.tasks[k]
    requires forall i :: 0 <= i < |moved| ==> moved[i].id in s'.tasks && moved[i] == s'.tasks[moved[i].id]
    requires forall i, j :: 0 <= i < j < |moved| ==> moved[i].id < moved[j].id
    requires forall u :: u in d.tasks ==> (u in CrudTasks.IdsOf(moved) <==> d.tasks[u].statusId == statusId)
    requires forall u :: u in CrudTasks.IdsOf(moved) <==> u in d.statuses[statusId].taskIds
    requires moved != [] ==> migrationStatusId != statusId
    requires Migrated(d, d', statusId, moved, migrationStatusId, true)
    ensures Coherent(d') && Mirrors(s', d')
  {
    forall i | 0 <= i < |moved|
      ensures moved[i].id in d.tasks && ViewOf(moved[i]) == d.tasks[moved[i].id].(statusId := migrationStatusId)
    {
      var u := moved[i].id;
      assert u in CrudTasks.IdsOf(moved);
      assert u in d.tasks;
      assert d.tasks[u] == ViewOf(s.tasks[u]);
      assert s'.tasks[u] == s.tasks[u].(statusId := migrationStatusId);
    }
    RefreshedMigrationShape(d, d', statusId, moved, migrationStatusId);
    RefreshedShapeCoherent(d, d', statusId, CrudTasks.IdsOf(moved), migrationStatusId);
    StatusesAppendedKeepsNames(d.statuses - {statusId}, d'.statuses, moved, migrationStatusId);
    RefreshedMirrors(s, s', d, d', statusId, CrudTasks.IdsOf(moved), migrationStatusId);
  }

  /** Appending ids to a status list leaves every status's name and description as they were. */
  lemma StatusesAppendedKeepsNames(st: map<int, StatusView>, st': map<int, StatusView>, moved: seq<Task>, k: int)
    requires StatusesAppended(st, st', moved, k)
    ensures forall j :: j in st' ==> j in st && st'[j].name == st[j].name && st'[j].description == st[j].description
  {
  }

  /** The store's half of delete_status, with the refreshed projection, still mirrored. */
  lemma RefreshedMirrors(s: Store, s': Store, d: Data, d': Data, statusId: int, ids: set<int>, migrationStatusId: int)
    requires Mirrors(s, d)
    requires s'.statuses == s.statuses - {statusId} && s'.milestones == s.milestones && s'.tasks.Keys == s.tasks.Keys
    requires forall k :: k in s.tasks ==>
               s'.tasks[k] == if s.tasks[k].statusId == statusId then s.tasks[k].(statusId := migrationStatusId) else s.tasks[k]
    requires forall u :: u in d.tasks ==> (u in ids <==> d.tasks[u].statusId == statusId)
    requires RefreshedShape(d, d', statusId, ids, migrationStatusId)
    requires forall k :: k in d'.statuses ==> d'.statuses[k].name == d.statuses[k].name && d'.statuses[k].description == d.statuses[k].description
    ensures Mirrors(s', d')
  {
    forall k | k in d'.tasks ensures k in s'.tasks && d'.tasks[k] == ViewOf(s'.tasks[k]) {
      assert d.tasks[k] == ViewOf(s.tasks[k]);
    }
  }
}
