/**
 * The per-session projection of one project (state/project.py): three
 * dictionaries keyed by id, a status and a milestone each holding the ids
 * of their tasks as an ordered list. This module holds the records, the
 * invariants the projection is meant to keep, and the derived values the
 * pages read.
 */
module ProjectView {
  import opened Wrappers
  import opened Model
  import Rows

  datatype TaskView = TaskView(
    id: int, name: string, description: string, statusId: int,
    milestoneId: Option<int>, startDate: Option<int>, endDate: Option<int>)

  datatype StatusView = StatusView(id: int, name: string, description: string, taskIds: seq<int>)

  datatype MilestoneView = MilestoneView(id: int, name: string, description: string, taskIds: seq<int>)

  datatype Data = Data(
    projectId: int, projectName: string,
    milestones: map<int, MilestoneView>,
    tasks: map<int, TaskView>,
    statuses: map<int, StatusView>)

  /** The projection of a stored task row. */
  function ViewOf(t: Task): (v: TaskView)
    ensures v.id == t.id && v.name == t.name && v.description == t.description
    ensures v.statusId == t.statusId && v.milestoneId == t.milestoneId
    ensures v.startDate == t.startDate && v.endDate == t.endDate
  {
    TaskView(t.id, t.name, t.description, t.statusId, t.milestoneId, t.startDate, t.endDate)
  }

  // ---------------------------------------------------------------------
  // Invariants
  // ---------------------------------------------------------------------

  /** Every entry is stored under its own id. */
  predicate WellKeyed(d: Data) {
    && (forall k :: k in d.tasks ==> d.tasks[k].id == k)
    && (forall k :: k in d.statuses ==> d.statuses[k].id == k)
    && (forall k :: k in d.milestones ==> d.milestones[k].id == k)
  }

  /** Every task id is in exactly one status list, once, and the lists hold nothing else. */
  predicate Partition(d: Data) {
    && (forall k :: k in d.statuses ==> Rows.Distinct(d.statuses[k].taskIds))
    && (forall k, i :: k in d.statuses && 0 <= i < |d.statuses[k].taskIds| ==> d.statuses[k].taskIds[i] in d.tasks)
    && (forall t :: t in d.tasks ==> exists k :: k in d.statuses && t in d.statuses[k].taskIds)
    && (forall k1, k2, t :: (k1 in d.statuses && k2 in d.statuses && k1 != k2 && t in d.statuses[k1].taskIds)
                            ==> t !in d.statuses[k2].taskIds)
  }

  /** A task's status id names a status whose list holds it. */
  predicate StatusCoherence(d: Data) {
    forall t :: t in d.tasks ==> d.tasks[t].statusId in d.statuses && t in d.statuses[d.tasks[t].statusId].taskIds
  }

  /** A milestone's list holds, once each, exactly the tasks whose milestone id is that milestone. */
  predicate MilestoneCoherence(d: Data) {
    && (forall m :: m in d.milestones ==> Rows.Distinct(d.milestones[m].taskIds))
    && (forall m, i :: m in d.milestones && 0 <= i < |d.milestones[m].taskIds| ==>
          d.milestones[m].taskIds[i] in d.tasks && d.tasks[d.milestones[m].taskIds[i]].milestoneId == Some(m))
    && (forall t :: t in d.tasks && d.tasks[t].milestoneId.Some? ==>
          d.tasks[t].milestoneId.value in d.milestones && t in d.milestones[d.tasks[t].milestoneId.value].taskIds)
  }

  predicate Coherent(d: Data) {
    WellKeyed(d) && Partition(d) && StatusCoherence(d) && MilestoneCoherence(d)
  }

  /** With a partition, the status a task's id names is the only one whose list holds it. */
  lemma HoldingStatusIsUnique(d: Data, t: int, k: int)
    requires Partition(d) && StatusCoherence(d)
    requires t in d.tasks && k in d.statuses && t in d.statuses[k].taskIds
    ensures k == d.tasks[t].statusId
  {
  }

  /**
   * The projection agrees with the store: every task entry is the view of
   * the stored row, and every status and milestone entry carries the name
   * and description of its stored row.
   */
  predicate Mirrors(s: Store, d: Data) {
    && (forall k :: k in d.tasks ==> k in s.tasks && d.tasks[k] == ViewOf(s.tasks[k]))
    && (forall k :: k in d.statuses ==> k in s.statuses && d.statuses[k].name == s.statuses[k].name
                                        && d.statuses[k].description == s.statuses[k].description)
    && (forall k :: k in d.milestones ==> k in s.milestones && d.milestones[k].name == s.milestones[k].name
                                          && d.milestones[k].description == s.milestones[k].description)
  }

  /** Every stored task of a status the projection holds is in the projection. */
  predicate Covers(s: Store, d: Data) {
    forall k :: k in s.tasks && s.tasks[k].statusId in d.statuses ==> k in d.tasks
  }

  // ---------------------------------------------------------------------
  // Derived values
  // ---------------------------------------------------------------------

  /** `loaded`. */
  predicate Loaded(data: Option<Data>) {
    data.Some?
  }

  /** `milestone_name_by_ids`: the name of every milestone, or an empty map before loading. */
  function MilestoneNameByIds(data: Option<Data>): (r: map<int, string>)
    ensures data.None? ==> r == map[]
    ensures data.Some? ==> r.Keys == data.value.milestones.Keys
    ensures data.Some? ==> forall k :: k in r ==> r[k] == data.value.milestones[k].name
  {
    if data.None? then map[]
    else map k | k in data.value.milestones :: data.value.milestones[k].name
  }

  /** `milestones`: the dictionary's values in insertion order, which is ascending id order. */
  function Milestones(data: Option<Data>): (r: seq<MilestoneView>)
    ensures data.None? ==> r == []
    ensures data.Some? ==> |r| == |data.value.milestones|
    ensures data.Some? ==> forall m :: m in r <==> m in data.value.milestones.Values
    ensures data.Some? && WellKeyed(data.value) ==> forall i, j :: 0 <= i < j < |r| ==> r[i].id < r[j].id
  {
    if data.None? then []
    else
      var rows := data.value.milestones;
      var ids := Rows.Ascending(rows.Keys);
      var r := Rows.Select(rows, rows.Keys);
      assert WellKeyed(data.value) ==> forall i, j :: 0 <= i < j < |r| ==> r[i].id < r[j].id by {
        if WellKeyed(data.value) {
          forall i, j | 0 <= i < j < |r| ensures r[i].id < r[j].id {
            assert ids[i] in rows && ids[j] in rows;
            assert r[i] == rows[ids[i]] && r[j] == rows[ids[j]];
          }
        }
      }
      r
  }

  /** `statuses`: the dictionary's values in insertion order, which is ascending id order. */
  function Statuses(data: Option<Data>): (r: seq<StatusView>)
    ensures data.None? ==> r == []
    ensures data.Some? ==> |r| == |data.value.statuses|
    ensures data.Some? ==> forall v :: v in r <==> v in data.value.statuses.Values
    ensures data.Some? && WellKeyed(data.value) ==> forall i, j :: 0 <= i < j < |r| ==> r[i].id < r[j].id
  {
    if data.None? then []
    else
      var rows := data.value.statuses;
      var ids := Rows.Ascending(rows.Keys);
      var r := Rows.Select(rows, rows.Keys);
      assert WellKeyed(data.value) ==> forall i, j :: 0 <= i < j < |r| ==> r[i].id < r[j].id by {
        if WellKeyed(data.value) {
          forall i, j | 0 <= i < j < |r| ensures r[i].id < r[j].id {
            assert ids[i] in rows && ids[j] in rows;
            assert r[i] == rows[ids[i]] && r[j] == rows[ids[j]];
          }
        }
      }
      r
  }

  /** `tasks`: the task dictionary, or an empty one before loading. */
  function TasksById(data: Option<Data>): (r: map<int, TaskView>)
    ensures data.None? ==> r == map[]
    ensures data.Some? ==> r == data.value.tasks
  {
    if data.None? then map[] else data.value.tasks
  }

  /** With a projection in step with the store, every task the page shows is the view of its stored row. */
  lemma ShownTasksAreStored(s: Store, data: Option<Data>)
    requires data.Some? ==> Mirrors(s, data.value)
    ensures forall k :: k in TasksById(data) ==> k in s.tasks && TasksById(data)[k] == ViewOf(s.tasks[k])
  {
  }

  /** Before loading the page shows nothing; once loaded, every milestone, status and task of the projection is shown. */
  lemma NothingShownBeforeLoading(data: Option<Data>)
    ensures !Loaded(data) <==> data.None?
    ensures !Loaded(data) ==>
              && Milestones(data) == [] && Statuses(data) == []
              && TasksById(data) == map[] && MilestoneNameByIds(data) == map[]
    ensures Loaded(data) ==>
              && |Milestones(data)| == |data.value.milestones| && |Statuses(data)| == |data.value.statuses|
              && TasksById(data).Keys == data.value.tasks.Keys
              && MilestoneNameByIds(data).Keys == data.value.milestones.Keys
  {
  }

  /** With a projection in step with the store, every milestone name the page shows is the stored name. */
  lemma ShownMilestoneNamesAreStored(s: Store, data: Option<Data>)
    requires data.Some? ==> Mirrors(s, data.value)
    ensures forall k :: k in MilestoneNameByIds(data) ==> k in s.milestones && MilestoneNameByIds(data)[k] == s.milestones[k].name
  {
  }
}
