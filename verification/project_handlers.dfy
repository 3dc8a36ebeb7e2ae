/**
 * The patch handlers of the project page (state/project.py). Each one calls
 * a domain operation, whose changes are committed, and then patches the
 * projection in place. An exception the handler does not catch stops it
 * where it is raised: the store keeps what was committed and the
 * projection keeps the patches made before the failing line.
 */
module ProjectHandlers {
  import opened Wrappers
  import opened Model
  import Rows
  import CrudTasks
  import opened ProjectView

  /** An exception that escapes a handler. */
  datatype Exc =
    | CrudError(error: Error)
      /** A dictionary lookup or `del` of a missing key. */
    | KeyError
      /** `list.remove` of a value the list does not hold. */
    | ValueError
      /** A call with more arguments than the callee takes, or without a required one. */
    | TypeError
      /** An `assert` statement whose condition is false. */
    | AssertionError

  /** How a handler ends: normally (with a success toast, or silently), with an error toast, or with an exception. */
  datatype Outcome = Done | Caught(error: Error) | Raised(exc: Exc)

  datatype Step = Step(store: Store, data: Option<Data>, outcome: Outcome)

  /** update_task_dates is not part of this model: it is a parameter, returning the committed store or the error it raises. */
  type DateUpdate = (Store, int, Option<int>, Option<int>) -> Result<Store, Error>

  // ---------------------------------------------------------------------
  // List patches
  // ---------------------------------------------------------------------

  /** `statuses_by_id[k].task_ids.append(t)`. */
  function AppendToStatus(d: Data, k: int, t: int): (r: Result<Data, Exc>)
    ensures r.Failure? <==> k !in d.statuses
    ensures r.Failure? ==> r.error == KeyError
    ensures r.Success? ==>
              && r.value.statuses.Keys == d.statuses.Keys
              && r.value.statuses[k] == d.statuses[k].(taskIds := d.statuses[k].taskIds + [t])
              && (forall j :: j in d.statuses && j != k ==> r.value.statuses[j] == d.statuses[j])
              && r.value.(statuses := d.statuses) == d
  {
    if k !in d.statuses then Failure(KeyError)
    else Success(d.(statuses := d.statuses[k := d.statuses[k].(taskIds := d.statuses[k].taskIds + [t])]))
  }

  /** `statuses_by_id[k].task_ids.remove(t)`. */
  function RemoveFromStatus(d: Data, k: int, t: int): (r: Result<Data, Exc>)
    ensures k !in d.statuses ==> r == Failure(KeyError)
    ensures k in d.statuses ==> (r.Failure? <==> t !in d.statuses[k].taskIds)
    ensures k in d.statuses && r.Failure? ==> r.error == ValueError
    ensures r.Success? ==>
              && r.value.statuses.Keys == d.statuses.Keys
              && r.value.statuses[k] == d.statuses[k].(taskIds := Rows.RemoveFirst(d.statuses[k].taskIds, t))
              && (forall j :: j in d.statuses && j != k ==> r.value.statuses[j] == d.statuses[j])
              && r.value.(statuses := d.statuses) == d
  {
    if k !in d.statuses then Failure(KeyError)
    else if t !in d.statuses[k].taskIds then Failure(ValueError)
    else Success(d.(statuses := d.statuses[k := d.statuses[k].(taskIds := Rows.RemoveFirst(d.statuses[k].taskIds, t))]))
  }

  // ---------------------------------------------------------------------
  // Creation
  // ---------------------------------------------------------------------

  /** create_status: a new status with an empty description and an empty task list. */
  function CreateStatus(s: Store, data: Option<Data>, name: string): (r: Step)
    requires Valid(s)
    ensures data.None? ==> r == Step(s, data, Done)
    ensures data.Some? ==> (r.outcome.Caught? <==> CrudTasks.StatusNameTaken(s, data.value.projectId, name))
    ensures r.outcome.Caught? ==> r == Step(s, data, Caught(ExistingStatusNameError))
    ensures !r.outcome.Raised?
    ensures data.Some? && r.outcome == Done ==>
              && r.data.Some?
              && exists id ::
                   && id !in s.statuses
                   && r.store.statuses.Keys == s.statuses.Keys + {id}
                   && r.store.statuses[id] == Status(id, data.value.projectId, name, "")
                   && r.data.value == data.value.(statuses := data.value.statuses[id := StatusView(id, name, "", [])])
  {
    if data.None? then Step(s, data, Done)
    else
      var d := data.value;
      match CrudTasks.CreateStatus(s, name, "", d.projectId)
      case Failure(e) => Step(s, data, Caught(e))
      case Success((s', st)) =>
        Step(s', Some(d.(statuses := d.statuses[st.id := StatusView(st.id, st.name, st.description, [])])), Done)
  }

  /**
   * create_task as written: it passes seven arguments to the domain
   * create_task, which takes four, so the call itself raises a TypeError
   * before anything is read or written.
   */
  function CreateTaskAsWritten(s: Store, data: Option<Data>, name: string, description: string, priority: Priority,
                               statusId: int, milestoneId: Option<int>, startDate: Option<int>, endDate: Option<int>)
    : (r: Step)
    ensures data.None? ==> r == Step(s, data, Done)
    ensures data.Some? ==> r.outcome == Raised(TypeError)
    ensures r.store == s && r.data == data
  {
    if data.None? then Step(s, data, Done)
    else Step(s, data, Raised(TypeError))
  }

  /**
   * create_task with the seven-argument domain call it makes: the milestone
   * and the dates go to the store, ExistingTaskNameError and DateError are
   * caught, and the new entry shows the dates but no milestone, and joins
   * its status's list only.
   */
  function CreateTask(s: Store, data: Option<Data>, name: string, description: string, priority: Priority,
                      statusId: int, milestoneId: Option<int>, startDate: Option<int>, endDate: Option<int>)
    : (r: Step)
    requires Valid(s)
    ensures data.None? ==> r == Step(s, data, Done)
    ensures data.Some? && statusId !in s.statuses ==> r == Step(s, data, Raised(CrudError(InvalidStatusIDError)))
    ensures data.Some? && statusId in s.statuses && CrudTasks.TaskNameTaken(s, s.statuses[statusId].projectId, name) ==>
              r == Step(s, data, Caught(ExistingTaskNameError))
    ensures data.Some? ==>
              (r.outcome.Caught? <==>
                 var c := CrudTasks.CreateTaskWith(s, name, description, priority, statusId, milestoneId, startDate, endDate);
                 c.Failure? && c.error in {ExistingTaskNameError, DateError})
    ensures r.outcome.Caught? ==> r.store == s && r.data == data && r.outcome.error in {ExistingTaskNameError, DateError}
    ensures r.outcome == Caught(DateError) ==> CrudTasks.BadDateRange(startDate, endDate)
    ensures r.outcome.Raised? ==>
              r.outcome.exc in {CrudError(InvalidStatusIDError), CrudError(InvalidMilestoneIDError), KeyError}
    ensures data.Some? && r.outcome == Raised(KeyError) ==> statusId !in data.value.statuses
    ensures data.Some? ==>
              (r.outcome == Done <==>
                 CrudTasks.CreateTaskWith(s, name, description, priority, statusId, milestoneId, startDate, endDate).Success?
                 && statusId in data.value.statuses)
    ensures data.Some? && r.outcome == Done ==>
              && r.data.Some?
              && exists id ::
                   && id !in s.tasks
                   && r.store.tasks == s.tasks[id := Task(id, name, description, priority, statusId, milestoneId, startDate, endDate)]
                   && r.store.(tasks := s.tasks, nextId := s.nextId) == s
                   && r.data.value == WithNewTask(data.value, TaskView(id, name, description, statusId, None, startDate, endDate))
  {
    if data.None? then Step(s, data, Done)
    else
      var d := data.value;
      match CrudTasks.CreateTaskWith(s, name, description, priority, statusId, milestoneId, startDate, endDate)
      case Failure(e) =>
        if e == ExistingTaskNameError || e == DateError then Step(s, data, Caught(e)) else Step(s, data, Raised(CrudError(e)))
      case Success((s', t)) =>
        var d1 := d.(tasks := d.tasks[t.id := TaskView(t.id, t.name, t.description, t.statusId, None, t.startDate, t.endDate)]);
        match AppendToStatus(d1, statusId, t.id)
        case Failure(x) => Step(s', Some(d1), Raised(x))
        case Success(d2) => Step(s', Some(d2), Done)
  }

  /**
   * create_task as the loader would build the entry: the view shows the
   * stored row, milestone included, and the new id joins its status's list
   * and then, when it has one, its milestone's list (a milestone the
   * projection does not hold raises a KeyError there).
   */
  function CreateTaskCorrected(s: Store, data: Option<Data>, name: string, description: string, priority: Priority,
                               statusId: int, milestoneId: Option<int>, startDate: Option<int>, endDate: Option<int>)
    : (r: Step)
    requires Valid(s)
    ensures data.None? ==> r == Step(s, data, Done)
    ensures data.Some? && statusId !in s.statuses ==> r == Step(s, data, Raised(CrudError(InvalidStatusIDError)))
    ensures data.Some? && statusId in s.statuses && CrudTasks.TaskNameTaken(s, s.statuses[statusId].projectId, name) ==>
              r == Step(s, data, Caught(ExistingTaskNameError))
    ensures data.Some? ==>
              (r.outcome.Caught? <==>
                 var c := CrudTasks.CreateTaskWith(s, name, description, priority, statusId, milestoneId, startDate, endDate);
                 c.Failure? && c.error in {ExistingTaskNameError, DateError})
    ensures r.outcome.Caught? ==> r.store == s && r.data == data && r.outcome.error in {ExistingTaskNameError, DateError}
    ensures r.outcome.Raised? ==>
              r.outcome.exc in {CrudError(InvalidStatusIDError), CrudError(InvalidMilestoneIDError), KeyError}
    ensures data.Some? && r.outcome == Raised(KeyError) ==>
              statusId !in data.value.statuses || (milestoneId.Some? && milestoneId.value !in data.value.milestones)
    ensures data.Some? ==>
              (r.outcome == Done <==>
                 && CrudTasks.CreateTaskWith(s, name, description, priority, statusId, milestoneId, startDate, endDate).Success?
                 && statusId in data.value.statuses
                 && (milestoneId.Some? ==> milestoneId.value in data.value.milestones))
    ensures data.Some? && r.outcome == Done ==>
              && r.data.Some?
              && exists id ::
                   && id !in s.tasks
                   && r.store.tasks == s.tasks[id := Task(id, name, description, priority, statusId, milestoneId, startDate, endDate)]
                   && r.store.(tasks := s.tasks, nextId := s.nextId) == s
                   && r.data.value.tasks == data.value.tasks[id := ViewOf(r.store.tasks[id])]
                   && r.data.value.statuses == WithNewTask(data.value, ViewOf(r.store.tasks[id])).statuses
                   && r.data.value.milestones.Keys == data.value.milestones.Keys
                   && (forall m :: m in data.value.milestones ==>
                         r.data.value.milestones[m] == if milestoneId == Some(m)
                                                       then data.value.milestones[m].(taskIds := data.value.milestones[m].taskIds + [id])
                                                       else data.value.milestones[m])
                   && r.data.value.projectId == data.value.projectId && r.data.value.projectName == data.value.projectName
  {
    if data.None? then Step(s, data, Done)
    else
      var d := data.value;
      match CrudTasks.CreateTaskWith(s, name, description, priority, statusId, milestoneId, startDate, endDate)
      case Failure(e) =>
        if e == ExistingTaskNameError || e == DateError then Step(s, data, Caught(e)) else Step(s, data, Raised(CrudError(e)))
      case Success((s', t)) =>
        var d1 := d.(tasks := d.tasks[t.id := ViewOf(t)]);
        match AppendToStatus(d1, statusId, t.id)
        case Failure(x) => Step(s', Some(d1), Raised(x))
        case Success(d2) =>
          if milestoneId.Some? && milestoneId.value !in d2.milestones then Step(s', Some(d2), Raised(KeyError))
          else
            assert d2.tasks[t.id := d2.tasks[t.id].(milestoneId := milestoneId)] == d2.tasks;
            Step(s', Some(JoinMilestone(d2, t.id, milestoneId)), Done)
  }

  /** The projection with a new entry added and appended to its status's list. */
  function WithNewTask(d: Data, v: TaskView): (d': Data)
    requires v.statusId in d.statuses
    ensures d'.tasks == d.tasks[v.id := v] && v.id in d'.tasks
    ensures d'.statuses.Keys == d.statuses.Keys
    ensures d'.statuses[v.statusId].taskIds == d.statuses[v.statusId].taskIds + [v.id]
    ensures forall k :: k in d.statuses && k != v.statusId ==> d'.statuses[k] == d.statuses[k]
    ensures d'.(tasks := d.tasks, statuses := d.statuses) == d
  {
    d.(tasks := d.tasks[v.id := v],
       statuses := d.statuses[v.statusId := d.statuses[v.statusId].(taskIds := d.statuses[v.statusId].taskIds + [v.id])])
  }

  /** create_milestone: a new milestone due now, with an empty task list. */
  function CreateMilestone(s: Store, data: Option<Data>, name: string, description: string, now: int): (r: Step)
    requires Valid(s)
    ensures data.None? ==> r == Step(s, data, Done)
    ensures data.Some? ==> (r.outcome.Caught? <==> CrudTasks.MilestoneNameTaken(s, data.value.projectId, name))
    ensures r.outcome.Caught? ==> r == Step(s, data, Caught(ExistingMilestoneNameError))
    ensures !r.outcome.Raised?
    ensures data.Some? && r.outcome == Done ==>
              && r.data.Some?
              && exists id ::
                   && id !in s.milestones
                   && r.store.milestones.Keys == s.milestones.Keys + {id}
                   && r.store.milestones[id] == Milestone(id, data.value.projectId, name, description, now)
                   && r.data.value == data.value.(milestones := data.value.milestones[id := MilestoneView(id, name, description, [])])
  {
    if data.None? then Step(s, data, Done)
    else
      var d := data.value;
      match CrudTasks.CreateMilestone(s, name, description, d.projectId, now)
      case Failure(e) => Step(s, data, Caught(e))
      case Success((s', m)) =>
        Step(s', Some(d.(milestones := d.milestones[m.id := MilestoneView(m.id, m.name, m.description, [])])), Done)
  }

  // ---------------------------------------------------------------------
  // Field updates
  // ---------------------------------------------------------------------

  /** rename_status: only the name of the entry changes. */
  function RenameStatus(s: Store, data: Option<Data>, statusId: int, newName: string): (r: Step)
    requires Valid(s)
    ensures data.None? ==> r == Step(s, data, Done)
    ensures data.Some? && statusId !in s.statuses ==> r == Step(s, data, Raised(CrudError(InvalidStatusIDError)))
    ensures data.Some? && statusId in s.statuses ==>
              (r.outcome.Caught? <==> CrudTasks.StatusNameTaken(s, s.statuses[statusId].projectId, newName))
    ensures r.outcome.Caught? ==> r == Step(s, data, Caught(ExistingStatusNameError))
    ensures data.Some? && r.outcome == Done ==>
              && statusId in s.statuses && statusId in data.value.statuses
              && r.store == s.(statuses := s.statuses[statusId := s.statuses[statusId].(name := newName)])
              && r.data == Some(data.value.(statuses := data.value.statuses[statusId := data.value.statuses[statusId].(name := newName)]))
  {
    if data.None? then Step(s, data, Done)
    else
      var d := data.value;
      match CrudTasks.RenameStatus(s, statusId, newName)
      case Failure(e) =>
        if e == ExistingStatusNameError then Step(s, data, Caught(e)) else Step(s, data, Raised(CrudError(e)))
      case Success((s', st)) =>
        if st.id !in d.statuses then Step(s', data, Raised(KeyError))
        else Step(s', Some(d.(statuses := d.statuses[st.id := d.statuses[st.id].(name := st.name)])), Done)
  }

  /** rename_task: only the name of the entry changes. */
  function RenameTask(s: Store, data: Option<Data>, taskId: int, newName: string): (r: Step)
    ensures data.None? ==> r == Step(s, data, Done)
    ensures data.Some? && taskId !in s.tasks ==> r == Step(s, data, Raised(CrudError(InvalidTaskIDError)))
    ensures data.Some? && taskId in s.tasks && s.tasks[taskId].statusId in s.statuses ==>
              (r.outcome.Caught? <==> CrudTasks.TaskNameTaken(s, s.statuses[s.tasks[taskId].statusId].projectId, newName))
    ensures r.outcome.Caught? ==> r == Step(s, data, Caught(ExistingTaskNameError))
    ensures data.Some? && r.outcome == Done ==>
              && taskId in s.tasks && taskId in data.value.tasks
              && r.store == s.(tasks := s.tasks[taskId := s.tasks[taskId].(name := newName)])
              && r.data == Some(data.value.(tasks := data.value.tasks[taskId := data.value.tasks[taskId].(name := newName)]))
  {
    if data.None? then Step(s, data, Done)
    else
      var d := data.value;
      match CrudTasks.RenameTask(s, taskId, newName)
      case Failure(e) =>
        if e == ExistingTaskNameError then Step(s, data, Caught(e)) else Step(s, data, Raised(CrudError(e)))
      case Success((s', t)) =>
        if taskId !in d.tasks then Step(s', data, Raised(KeyError))
        else Step(s', Some(d.(tasks := d.tasks[taskId := d.tasks[taskId].(name := t.name)])), Done)
  }

  /** set_task_description: only the description of the entry changes; nothing is caught. */
  function SetTaskDescription(s: Store, data: Option<Data>, taskId: int, newDescription: string): (r: Step)
    ensures data.None? ==> r == Step(s, data, Done)
    ensures data.Some? && taskId !in s.tasks ==> r == Step(s, data, Raised(CrudError(InvalidTaskIDError)))
    ensures !r.outcome.Caught?
    ensures data.Some? ==> (r.outcome == Done <==> taskId in s.tasks && taskId in data.value.tasks)
    ensures data.Some? && r.outcome == Done ==>
              && r.store == s.(tasks := s.tasks[taskId := s.tasks[taskId].(description := newDescription)])
              && r.data == Some(data.value.(tasks := data.value.tasks[taskId := data.value.tasks[taskId].(description := newDescription)]))
  {
    if data.None? then Step(s, data, Done)
    else
      var d := data.value;
      match CrudTasks.SetTaskDescription(s, taskId, newDescription)
      case Failure(e) => Step(s, data, Raised(CrudError(e)))
      case Success((s', _)) =>
        if taskId !in d.tasks then Step(s', data, Raised(KeyError))
        else Step(s', Some(d.(tasks := d.tasks[taskId := d.tasks[taskId].(description := newDescription)])), Done)
  }

  /** change_task_dates: only the two dates of the entry change; a DateError is caught. */
  function ChangeTaskDates(s: Store, data: Option<Data>, taskId: int, startDate: Option<int>, endDate: Option<int>,
                           update: DateUpdate): (r: Step)
    ensures data.None? ==> r == Step(s, data, Done)
    ensures data.Some? && update(s, taskId, startDate, endDate) == Failure(DateError) ==>
              r == Step(s, data, Caught(DateError))
    ensures r.outcome.Caught? ==> r.outcome.error == DateError && r.store == s && r.data == data
    ensures data.Some? ==>
              (r.outcome == Done <==> update(s, taskId, startDate, endDate).Success? && taskId in data.value.tasks)
    ensures data.Some? && r.outcome == Done ==>
              && r.store == update(s, taskId, startDate, endDate).value
              && r.data == Some(data.value.(tasks := data.value.tasks[taskId :=
                   data.value.tasks[taskId].(startDate := startDate, endDate := endDate)]))
  {
    if data.None? then Step(s, data, Done)
    else
      var d := data.value;
      match update(s, taskId, startDate, endDate)
      case Failure(e) =>
        if e == DateError then Step(s, data, Caught(e)) else Step(s, data, Raised(CrudError(e)))
      case Success(s') =>
        if taskId !in d.tasks then Step(s', data, Raised(KeyError))
        else Step(s', Some(d.(tasks := d.tasks[taskId := d.tasks[taskId].(startDate := startDate, endDate := endDate)])), Done)
  }

  /**
   * edit_task as written: the rename is committed, the new description is
   * set on the row object after its session has closed, so it is never
   * written, the dates are updated (a DateError is not caught here), and
   * the entry takes the new name, description and dates.
   */
  function EditTask(s: Store, data: Option<Data>, taskId: int, name: string, description: string,
                    startDate: Option<int>, endDate: Option<int>, update: DateUpdate): (r: Step)
    ensures data.None? ==> r == Step(s, data, Done)
    ensures data.Some? && taskId !in s.tasks ==> r == Step(s, data, Raised(CrudError(InvalidTaskIDError)))
    ensures data.Some? && taskId in s.tasks && s.tasks[taskId].statusId in s.statuses ==>
              (r.outcome.Caught? <==> CrudTasks.TaskNameTaken(s, s.statuses[s.tasks[taskId].statusId].projectId, name))
    ensures r.outcome.Caught? ==> r == Step(s, data, Caught(ExistingTaskNameError))
    ensures data.Some? && r.outcome == Done ==>
              var renamed := s.(tasks := s.tasks[taskId := s.tasks[taskId].(name := name)]);
              && taskId in s.tasks && taskId in data.value.tasks
              && update(renamed, taskId, startDate, endDate).Success?
              && r.store == update(renamed, taskId, startDate, endDate).value
              && r.data == Some(data.value.(tasks := data.value.tasks[taskId :=
                   data.value.tasks[taskId].(name := name, description := description, startDate := startDate, endDate := endDate)]))
  {
    if data.None? then Step(s, data, Done)
    else
      var d := data.value;
      match CrudTasks.RenameTask(s, taskId, name)
      case Failure(e) =>
        if e == ExistingTaskNameError then Step(s, data, Caught(e)) else Step(s, data, Raised(CrudError(e)))
      case Success((s1, t)) =>
        var detached := t.(description := description);
        match update(s1, taskId, startDate, endDate)
        case Failure(e) => Step(s1, data, Raised(CrudError(e)))
        case Success(s2) =>
          if taskId !in d.tasks then Step(s2, data, Raised(KeyError))
          else
            var v := d.tasks[taskId].(name := detached.name, description := detached.description,
                                      startDate := startDate, endDate := endDate);
            Step(s2, Some(d.(tasks := d.tasks[taskId := v])), Done)
  }

  /** edit_task with the description written through set_task_description before the date update. */
  function EditTaskCorrected(s: Store, data: Option<Data>, taskId: int, name: string, description: string,
                             startDate: Option<int>, endDate: Option<int>, update: DateUpdate): (r: Step)
    ensures data.None? ==> r == Step(s, data, Done)
    ensures data.Some? && taskId !in s.tasks ==> r == Step(s, data, Raised(CrudError(InvalidTaskIDError)))
    ensures r.outcome.Caught? ==> r == Step(s, data, Caught(ExistingTaskNameError))
    ensures data.Some? && r.outcome == Done ==>
              var edited := s.(tasks := s.tasks[taskId := s.tasks[taskId].(name := name, description := description)]);
              && taskId in s.tasks && taskId in data.value.tasks
              && update(edited, taskId, startDate, endDate).Success?
              && r.store == update(edited, taskId, startDate, endDate).value
              && r.data == Some(data.value.(tasks := data.value.tasks[taskId :=
                   data.value.tasks[taskId].(name := name, description := description, startDate := startDate, endDate := endDate)]))
  {
    if data.None? then Step(s, data, Done)
    else
      var d := data.value;
      match CrudTasks.RenameTask(s, taskId, name)
      case Failure(e) =>
        if e == ExistingTaskNameError then Step(s, data, Caught(e)) else Step(s, data, Raised(CrudError(e)))
      case Success((s1, _)) =>
        match CrudTasks.SetTaskDescription(s1, taskId, description)
        case Failure(e) => Step(s1, data, Raised(CrudError(e)))
        case Success((s2, _)) =>
          match update(s2, taskId, startDate, endDate)
          case Failure(e) => Step(s2, data, Raised(CrudError(e)))
          case Success(s3) =>
            assert s2 == s.(tasks := s.tasks[taskId := s.tasks[taskId].(name := name, description := description)]);
            if taskId !in d.tasks then Step(s3, data, Raised(KeyError))
            else
              var v := d.tasks[taskId].(name := name, description := description, startDate := startDate, endDate := endDate);
              Step(s3, Some(d.(tasks := d.tasks[taskId := v])), Done)
  }

  // ---------------------------------------------------------------------
  // Moves between lists
  // ---------------------------------------------------------------------

  /**
   * set_task_status: the id leaves the list of the status the store had,
   * joins the end of the target's list, and the entry's status id is set.
   * Nothing is caught.
   */
  function SetTaskStatus(s: Store, data: Option<Data>, taskId: int, statusId: int): (r: Step)
    ensures data.None? ==> r == Step(s, data, Done)
    ensures data.Some? && taskId !in s.tasks ==> r == Step(s, data, Raised(CrudError(InvalidTaskIDError)))
    ensures data.Some? && taskId in s.tasks && statusId !in s.statuses ==>
              r == Step(s, data, Raised(CrudError(InvalidStatusIDError)))
    ensures !r.outcome.Caught?
    ensures data.Some? ==>
              (r.outcome == Done <==>
                 && taskId in s.tasks && statusId in s.statuses
                 && s.tasks[taskId].statusId in data.value.statuses
                 && taskId in data.value.statuses[s.tasks[taskId].statusId].taskIds
                 && statusId in data.value.statuses
                 && taskId in data.value.tasks)
    ensures data.Some? && r.outcome == Done ==>
              var (d, previous) := (data.value, s.tasks[taskId].statusId);
              var removed := d.statuses[previous := d.statuses[previous].(taskIds := Rows.RemoveFirst(d.statuses[previous].taskIds, taskId))];
              && r.store == s.(tasks := s.tasks[taskId := s.tasks[taskId].(statusId := statusId)])
              && r.data == Some(d.(statuses := removed[statusId := removed[statusId].(taskIds := removed[statusId].taskIds + [taskId])],
                                   tasks := d.tasks[taskId := d.tasks[taskId].(statusId := statusId)]))
  {
    if data.None? then Step(s, data, Done)
    else
      var d := data.value;
      match CrudTasks.SetStatus(s, taskId, statusId)
      case Failure(e) => Step(s, data, Raised(CrudError(e)))
      case Success((s', previous)) =>
        match RemoveFromStatus(d, previous, taskId)
        case Failure(x) => Step(s', data, Raised(x))
        case Success(d1) =>
          match AppendToStatus(d1, statusId, taskId)
          case Failure(x) => Step(s', Some(d1), Raised(x))
          case Success(d2) =>
            if taskId !in d2.tasks then Step(s', Some(d2), Raised(KeyError))
            else Step(s', Some(d2.(tasks := d2.tasks[taskId := d2.tasks[taskId].(statusId := statusId)])), Done)
  }

  /** The projection after taking entry `t` off its milestone's list, if it has a milestone, and clearing its milestone. */
  function ClearMilestone(d: Data, t: int): (d': Data)
    requires t in d.tasks
    requires d.tasks[t].milestoneId.Some? ==> d.tasks[t].milestoneId.value in d.milestones
    ensures d'.statuses == d.statuses && d'.milestones.Keys == d.milestones.Keys
    ensures d'.tasks == d.tasks[t := d.tasks[t].(milestoneId := None)]
    ensures forall m :: m in d.milestones ==>
              d'.milestones[m] == if d.tasks[t].milestoneId == Some(m)
                                  then d.milestones[m].(taskIds := Rows.RemoveFirst(d.milestones[m].taskIds, t))
                                  else d.milestones[m]
    ensures d'.projectId == d.projectId && d'.projectName == d.projectName
  {
    var v := d.tasks[t];
    var tasks' := d.tasks[t := v.(milestoneId := None)];
    if v.milestoneId.None? then d.(tasks := tasks')
    else
      var ms := d.milestones[v.milestoneId.value];
      d.(tasks := tasks', milestones := d.milestones[v.milestoneId.value := ms.(taskIds := Rows.RemoveFirst(ms.taskIds, t))])
  }

  /** The projection after giving entry `t` the milestone `to` and, if there is one, appending `t` to its list. */
  function JoinMilestone(d: Data, t: int, to: Option<int>): (d': Data)
    requires t in d.tasks
    requires to.Some? ==> to.value in d.milestones
    ensures d'.statuses == d.statuses && d'.milestones.Keys == d.milestones.Keys
    ensures d'.tasks == d.tasks[t := d.tasks[t].(milestoneId := to)]
    ensures forall m :: m in d.milestones ==>
              d'.milestones[m] == if to == Some(m) then d.milestones[m].(taskIds := d.milestones[m].taskIds + [t]) else d.milestones[m]
    ensures d'.projectId == d.projectId && d'.projectName == d.projectName
  {
    var d1 := d.(tasks := d.tasks[t := d.tasks[t].(milestoneId := to)]);
    if to.Some?
    then d1.(milestones := d1.milestones[to.value := d1.milestones[to.value].(taskIds := d1.milestones[to.value].taskIds + [t])])
    else d1
  }

  /**
   * assign_milestone: the entry's old milestone is read first; after the
   * store is updated the id leaves the old milestone's list (a missing
   * milestone or a missing id raises), the entry takes the new milestone,
   * and the id joins the new milestone's list (a missing milestone raises,
   * after the entry has changed).
   */
  function AssignMilestone(s: Store, data: Option<Data>, taskId: int, milestoneId: Option<int>): (r: Step)
    ensures data.None? ==> r == Step(s, data, Done)
    ensures data.Some? && taskId !in data.value.tasks ==> r == Step(s, data, Raised(KeyError))
    ensures !r.outcome.Caught?
    ensures data.Some? && taskId in data.value.tasks ==>
              (r.outcome.Raised? && r.outcome.exc.CrudError? <==> CrudTasks.AssignMilestone(s, milestoneId, taskId).Failure?)
    ensures data.Some? && r.outcome == Raised(ValueError) ==>
              && taskId in data.value.tasks
              && var prev := data.value.tasks[taskId].milestoneId;
              && prev.Some? && prev.value in data.value.milestones && taskId !in data.value.milestones[prev.value].taskIds
              && r.data == data
    ensures data.Some? ==>
              (r.outcome == Done <==>
                 && taskId in data.value.tasks
                 && var (d, prev) := (data.value, data.value.tasks[taskId].milestoneId);
                 && CrudTasks.AssignMilestone(s, milestoneId, taskId).Success?
                 && (prev.Some? ==> prev.value in d.milestones && taskId in d.milestones[prev.value].taskIds)
                 && (milestoneId.Some? ==> milestoneId.value in d.milestones))
    ensures data.Some? && r.outcome == Done ==>
              && taskId in data.value.tasks
              && r.store == s.(tasks := s.tasks[taskId := s.tasks[taskId].(milestoneId := milestoneId)])
              && r.data == Some(JoinMilestone(ClearMilestone(data.value, taskId), taskId, milestoneId))
  {
    if data.None? then Step(s, data, Done)
    else
      var d := data.value;
      if taskId !in d.tasks then Step(s, data, Raised(KeyError))
      else
        var prev := d.tasks[taskId].milestoneId;
        match CrudTasks.AssignMilestone(s, milestoneId, taskId)
        case Failure(e) => Step(s, data, Raised(CrudError(e)))
        case Success((s', _)) =>
          if prev.Some? && prev.value !in d.milestones then Step(s', data, Raised(KeyError))
          else if prev.Some? && taskId !in d.milestones[prev.value].taskIds then Step(s', data, Raised(ValueError))
          else
            var d1 := ClearMilestone(d, taskId);
            if milestoneId.Some? && milestoneId.value !in d1.milestones then
              Step(s', Some(d1.(tasks := d1.tasks[taskId := d1.tasks[taskId].(milestoneId := milestoneId)])), Raised(KeyError))
            else Step(s', Some(JoinMilestone(d1, taskId, milestoneId)), Done)
  }

  // ---------------------------------------------------------------------
  // Deletion
  // ---------------------------------------------------------------------

  /** The ids of a sequence of task rows, in order. */
  function IdSeq(ts: seq<Task>): (r: seq<int>)
    ensures |r| == |ts| && forall i :: 0 <= i < |ts| ==> r[i] == ts[i].id
  {
    if ts == [] then [] else [ts[0].id] + IdSeq(ts[1..])
  }

  /** The projection after a loop that may stop part-way with an exception. */
  datatype Partial = Partial(data: Data, exc: Option<Exc>)

  /** `tasks'` holds, under each moved row's id, the view of that row, and every other entry of `tasks` unchanged. */
  predicate Refreshed(tasks: map<int, TaskView>, tasks': map<int, TaskView>, moved: seq<Task>) {
    && tasks'.Keys == tasks.Keys
    && (forall i :: 0 <= i < |moved| ==> moved[i].id in tasks' && tasks'[moved[i].id] == ViewOf(moved[i]))
    && (forall k :: k in tasks && k !in CrudTasks.IdsOf(moved) ==> tasks'[k] == tasks[k])
  }

  /**
   * The migration loop of delete_status: for each moved row, the task
   * entry is looked up and the id is appended to the migration status's
   * list. As written, the loop sets an attribute `model` on the entry,
   * which no field of the entry reads, so the entry is unchanged; with
   * `refresh` the entry is replaced by the view of the moved row instead.
   */
  function Migrate(d: Data, moved: seq<Task>, migrationStatusId: int, refresh: bool): (r: Partial)
    requires forall i, j :: 0 <= i < j < |moved| ==> moved[i].id < moved[j].id
    ensures r.data.milestones == d.milestones && r.data.tasks.Keys == d.tasks.Keys
    ensures r.data.projectId == d.projectId && r.data.projectName == d.projectName
    ensures !refresh ==> r.data.tasks == d.tasks
    ensures r.exc.None? <==> (forall i :: 0 <= i < |moved| ==> moved[i].id in d.tasks) && (moved != [] ==> migrationStatusId in d.statuses)
    ensures r.exc.Some? ==> r.exc.value == KeyError
    ensures r.exc.None? ==>
              && StatusesAppended(d.statuses, r.data.statuses, moved, migrationStatusId)
              && (moved == [] ==> r.data == d)
              && (refresh ==> Refreshed(d.tasks, r.data.tasks, moved))
    decreases |moved|
  {
    if moved == [] then Partial(d, None)
    else if moved[0].id !in d.tasks then Partial(d, Some(KeyError))
    else
      var d0 := if refresh then d.(tasks := d.tasks[moved[0].id := ViewOf(moved[0])]) else d;
      match AppendToStatus(d0, migrationStatusId, moved[0].id)
      case Failure(x) => Partial(d0, Some(x))
      case Success(d1) =>
        var rest := Migrate(d1, moved[1..], migrationStatusId, refresh);
        assert d1.tasks.Keys == d.tasks.Keys;
        assert rest.exc.None? ==> forall i :: 0 <= i < |moved| ==> moved[i].id in d.tasks by {
          if rest.exc.None? {
            IdsInKeys(moved, d.tasks.Keys);
          }
        }
        assert rest.exc.None? ==> StatusesAppended(d.statuses, rest.data.statuses, moved, migrationStatusId) by {
          if rest.exc.None? {
            StatusesAppendedStep(d.statuses, d1.statuses, rest.data.statuses, moved, migrationStatusId);
          }
        }
        assert rest.exc.None? && refresh ==> Refreshed(d.tasks, rest.data.tasks, moved) by {
          if rest.exc.None? && refresh {
            MigrateRefreshStep(d.tasks, d1.tasks, rest.data.tasks, moved);
          }
        }
        rest
  }

  /** A row whose id is in `keys`, followed by rows whose ids are all in `keys`. */
  lemma IdsInKeys(moved: seq<Task>, keys: set<int>)
    requires moved != [] && moved[0].id in keys
    requires forall i :: 0 <= i < |moved[1..]| ==> moved[1..][i].id in keys
    ensures forall i :: 0 <= i < |moved| ==> moved[i].id in keys
  {
    forall i | 0 <= i < |moved| ensures moved[i].id in keys {
      if i > 0 {
        assert moved[i] == moved[1..][i - 1];
      }
    }
  }

  /**
   * `st'` is `st` with the ids of `moved` appended, in order, to the list
   * of `k`, which must exist unless nothing moves, and nothing else changed.
   */
  predicate StatusesAppended(st: map<int, StatusView>, st': map<int, StatusView>, moved: seq<Task>, k: int) {
    && st'.Keys == st.Keys
    && (forall j :: j in st && j != k ==> st'[j] == st[j])
    && (moved != [] ==> k in st && st'[k] == st[k].(taskIds := st[k].taskIds + IdSeq(moved)))
    && (moved == [] ==> st' == st)
  }

  /** One step of the migration loop: appending the first id, then the rest, appends them all. */
  lemma StatusesAppendedStep(st: map<int, StatusView>, st1: map<int, StatusView>, st': map<int, StatusView>, moved: seq<Task>, k: int)
    requires moved != [] && k in st
    requires st1 == st[k := st[k].(taskIds := st[k].taskIds + [moved[0].id])]
    requires StatusesAppended(st1, st', moved[1..], k)
    ensures StatusesAppended(st, st', moved, k)
  {
    assert IdSeq(moved) == [moved[0].id] + IdSeq(moved[1..]);
    assert st[k].taskIds + IdSeq(moved) == st[k].taskIds + [moved[0].id] + IdSeq(moved[1..]);
  }

  /** One step of the refreshing loop: refreshing the first row, then the rest, refreshes them all. */
  lemma MigrateRefreshStep(tasks: map<int, TaskView>, tasks1: map<int, TaskView>, tasks': map<int, TaskView>, moved: seq<Task>)
    requires moved != [] && moved[0].id in tasks
    requires forall i, j :: 0 <= i < j < |moved| ==> moved[i].id < moved[j].id
    requires tasks1 == tasks[moved[0].id := ViewOf(moved[0])]
    requires Refreshed(tasks1, tasks', moved[1..])
    ensures Refreshed(tasks, tasks', moved)
  {
    assert moved[0].id !in CrudTasks.IdsOf(moved[1..]);
    forall i | 0 <= i < |moved| ensures moved[i].id in tasks' && tasks'[moved[i].id] == ViewOf(moved[i]) {
      if i > 0 {
        assert moved[i] == moved[1..][i - 1];
      }
    }
    forall k | k in tasks && k !in CrudTasks.IdsOf(moved) ensures tasks'[k] == tasks[k] {
      assert k != moved[0].id;
      assert k !in CrudTasks.IdsOf(moved[1..]) by {
        forall i | 0 <= i < |moved[1..]| ensures moved[1..][i].id != k {
          assert moved[1..][i] == moved[i + 1];
        }
      }
    }
  }

  /**
   * `d'` is `d` without the status `statusId`, with the ids of `moved`
   * appended, in order, to the migration status's list, the task entries
   * unchanged (or, with `refresh`, the moved ones refreshed), and nothing
   * else changed.
   */
  predicate Migrated(d: Data, d': Data, statusId: int, moved: seq<Task>, migrationStatusId: int, refresh: bool) {
    && (if refresh then Refreshed(d.tasks, d'.tasks, moved) else d'.tasks == d.tasks)
    && d'.milestones == d.milestones
    && StatusesAppended(d.statuses - {statusId}, d'.statuses, moved, migrationStatusId)
    && d'.projectId == d.projectId && d'.projectName == d.projectName
  }

  /** The projection's half of delete_status once the status is known to be there: drop it, then migrate. */
  function DropAndMigrate(d: Data, statusId: int, moved: seq<Task>, migrationStatusId: int, refresh: bool): (r: Partial)
    requires statusId in d.statuses
    requires forall i, j :: 0 <= i < j < |moved| ==> moved[i].id < moved[j].id
    ensures r.exc.None? <==>
              && (forall i :: 0 <= i < |moved| ==> moved[i].id in d.tasks)
              && (moved != [] ==> migrationStatusId in d.statuses && migrationStatusId != statusId)
    ensures r.exc.Some? ==> r.exc.value == KeyError
    ensures r.exc.None? ==> Migrated(d, r.data, statusId, moved, migrationStatusId, refresh)
  {
    var d1 := d.(statuses := d.statuses - {statusId});
    assert migrationStatusId in d1.statuses <==> migrationStatusId in d.statuses && migrationStatusId != statusId;
    Migrate(d1, moved, migrationStatusId, refresh)
  }

  /**
   * delete_status: the store moves the status's tasks to the migration
   * status and drops the status; the projection drops the entry and
   * appends the moved ids to the migration status's list. As written
   * (`refresh` false) the moved entries keep their old status id; with
   * `refresh` they are replaced by the views of the moved rows.
   */
  function DeleteStatusWith(s: Store, data: Option<Data>, statusId: int, migrationStatusId: int, refresh: bool): (r: Step)
    requires Valid(s)
    ensures data.None? ==> r == Step(s, data, Done)
    ensures data.Some? && statusId !in s.statuses ==> r == Step(s, data, Raised(CrudError(InvalidStatusIDError)))
    ensures !r.outcome.Caught?
    ensures data.Some? && statusId in s.statuses ==>
              var moved := CrudTasks.DeleteStatus(s, statusId, migrationStatusId).value.1;
              && r.store == CrudTasks.DeleteStatus(s, statusId, migrationStatusId).value.0
              && (r.outcome == Done <==>
                    && statusId in data.value.statuses
                    && (forall i :: 0 <= i < |moved| ==> moved[i].id in data.value.tasks)
                    && (moved != [] ==> migrationStatusId in data.value.statuses && migrationStatusId != statusId))
    ensures data.Some? && r.outcome == Done ==>
              && statusId in s.statuses
              && r.data.Some?
              && Migrated(data.value, r.data.value, statusId, CrudTasks.DeleteStatus(s, statusId, migrationStatusId).value.1,
                          migrationStatusId, refresh)
  {
    if data.None? then Step(s, data, Done)
    else
      var d := data.value;
      var res := CrudTasks.DeleteStatus(s, statusId, migrationStatusId);
      if res.Failure? then Step(s, data, Raised(CrudError(res.error)))
      else
        var (s', moved) := (res.value.0, res.value.1);
        if statusId !in d.statuses then Step(s', data, Raised(KeyError))
        else
          var p := DropAndMigrate(d, statusId, moved, migrationStatusId, refresh);
          if p.exc.Some? then Step(s', Some(p.data), Raised(p.exc.value))
          else Step(s', Some(p.data), Done)
  }

  /** delete_status as written. */
  function DeleteStatus(s: Store, data: Option<Data>, statusId: int, migrationStatusId: int): Step
    requires Valid(s)
  {
    DeleteStatusWith(s, data, statusId, migrationStatusId, false)
  }

  /** delete_status with each moved entry refreshed from its moved row. */
  function DeleteStatusCorrected(s: Store, data: Option<Data>, statusId: int, migrationStatusId: int): Step
    requires Valid(s)
  {
    DeleteStatusWith(s, data, statusId, migrationStatusId, true)
  }

  /**
   * delete_task: the store drops the task with its assignments and edges;
   * the projection drops the entry and removes the id from its status's
   * list, but not from its milestone's list.
   */
  function DeleteTask(s: Store, data: Option<Data>, taskId: int): (r: Step)
    ensures data.None? ==> r == Step(s, data, Done)
    ensures data.Some? ==> r.store == CrudTasks.DeleteTask(s, taskId)
    ensures !r.outcome.Caught? && r.outcome != Raised(TypeError)
    ensures data.Some? ==>
              (r.outcome == Done <==>
                 && taskId in data.value.tasks
                 && data.value.tasks[taskId].statusId in data.value.statuses
                 && data.value.tasks[taskId].id in data.value.statuses[data.value.tasks[taskId].statusId].taskIds)
    ensures data.Some? && r.outcome == Done ==>
              var (d, t) := (data.value, data.value.tasks[taskId]);
              && r.data == Some(d.(tasks := d.tasks - {taskId},
                                   statuses := d.statuses[t.statusId := d.statuses[t.statusId].(taskIds := Rows.RemoveFirst(d.statuses[t.statusId].taskIds, t.id))]))
  {
    var s' := CrudTasks.DeleteTask(s, taskId);
    if data.None? then Step(s, data, Done)
    else
      var d := data.value;
      if taskId !in d.tasks then Step(s', data, Raised(KeyError))
      else
        var t := d.tasks[taskId];
        var d1 := d.(tasks := d.tasks - {taskId});
        match RemoveFromStatus(d1, t.statusId, t.id)
        case Failure(x) => Step(s', Some(d1), Raised(x))
        case Success(d2) => Step(s', Some(d2), Done)
  }

  /** delete_task with the id also taken off its milestone's list, when the entry has a milestone. */
  function DeleteTaskCorrected(s: Store, data: Option<Data>, taskId: int): (r: Step)
    ensures data.None? ==> r == Step(s, data, Done)
    ensures data.Some? ==> r.store == CrudTasks.DeleteTask(s, taskId)
    ensures !r.outcome.Caught? && r.outcome != Raised(TypeError)
    ensures data.Some? ==>
              (r.outcome == Done <==>
                 && taskId in data.value.tasks
                 && var t := data.value.tasks[taskId];
                 && t.statusId in data.value.statuses && t.id in data.value.statuses[t.statusId].taskIds
                 && (t.milestoneId.Some? ==> t.milestoneId.value in data.value.milestones
                                             && t.id in data.value.milestones[t.milestoneId.value].taskIds))
    ensures data.Some? && r.outcome == Done ==>
              var (d, t) := (data.value, data.value.tasks[taskId]);
              && r.data.Some?
              && r.data.value.tasks == d.tasks - {taskId}
              && r.data.value.statuses == d.statuses[t.statusId := d.statuses[t.statusId].(taskIds := Rows.RemoveFirst(d.statuses[t.statusId].taskIds, t.id))]
              && r.data.value.milestones == (if t.milestoneId.None? then d.milestones
                                             else d.milestones[t.milestoneId.value := d.milestones[t.milestoneId.value].(
                                                    taskIds := Rows.RemoveFirst(d.milestones[t.milestoneId.value].taskIds, t.id))])
              && r.data.value.projectId == d.projectId && r.data.value.projectName == d.projectName
  {
    var s' := CrudTasks.DeleteTask(s, taskId);
    if data.None? then Step(s, data, Done)
    else
      var d := data.value;
      if taskId !in d.tasks then Step(s', data, Raised(KeyError))
      else
        var t := d.tasks[taskId];
        var d1 := d.(tasks := d.tasks - {taskId});
        match RemoveFromStatus(d1, t.statusId, t.id)
        case Failure(x) => Step(s', Some(d1), Raised(x))
        case Success(d2) =>
          if t.milestoneId.None? then Step(s', Some(d2), Done)
          else
            var m := t.milestoneId.value;
            if m !in d2.milestones then Step(s', Some(d2), Raised(KeyError))
            else if t.id !in d2.milestones[m].taskIds then Step(s', Some(d2), Raised(ValueError))
            else Step(s', Some(d2.(milestones := d2.milestones[m := d2.milestones[m].(taskIds := Rows.RemoveFirst(d2.milestones[m].taskIds, t.id))])), Done)
  }
}
