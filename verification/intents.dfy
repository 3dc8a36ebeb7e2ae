/**
 * The calls the pages and dialogs make into the project state, as values.
 * A UI handler decides whether to make a call and with which arguments;
 * `Perform` then runs the project handler the call names.
 */
module Intents {
  import opened Wrappers
  import opened Model
  import opened ProjectView
  import opened ProjectHandlers
  import HandlerFacts
  import DeleteFacts

  /** A call into the project state's handlers, with the arguments the caller passes. */
  datatype Call =
    | CreateStatusCall(name: string)
      /** The kanban page's call: four arguments, `milestone_id` not passed. */
    | CreateTaskCall(name: string, description: string, priority: Priority, statusId: int)
      /** The task form's call: all seven arguments. */
    | CreateTaskFullCall(name: string, description: string, priority: Priority, statusId: int,
                         milestoneId: Option<int>, startDate: Option<int>, endDate: Option<int>)
    | RenameStatusCall(statusId: int, name: string)
    | SetTaskStatusCall(taskId: int, statusId: int)
    | DeleteStatusCall(statusId: int, migrationStatusId: int)
    | RenameTaskCall(taskId: int, name: string)
    | SetTaskDescriptionCall(taskId: int, description: string)
    | ChangeTaskDatesCall(taskId: int, startDate: Option<int>, endDate: Option<int>)
    | DeleteTaskCall(taskId: int)

  /**
   * What a UI handler does besides changing its own fields: nothing, a call
   * into the project state, an error toast without a call, or an exception.
   */
  datatype Effect = NoEffect | Forward(call: Call) | Rejected | Fail(exc: Exc)

  /**
   * Runs a call against the project handlers. The four-argument create_task
   * call lacks the required `milestone_id` and raises before the handler
   * body runs; the other calls run the handlers with the corrections this
   * model makes to create_task, delete_status and delete_task.
   */
  function Perform(c: Call, s: Store, data: Option<Data>, update: DateUpdate): (r: Step)
    requires Valid(s)
    ensures c.CreateTaskCall? ==> r == Step(s, data, Raised(TypeError))
    ensures !c.CreateTaskCall? && data.None? ==> r == Step(s, data, Done)
  {
    match c
    case CreateStatusCall(name) => CreateStatus(s, data, name)
    case CreateTaskCall(_, _, _, _) => Step(s, data, Raised(TypeError))
    case CreateTaskFullCall(name, description, priority, statusId, milestoneId, startDate, endDate) =>
      CreateTaskCorrected(s, data, name, description, priority, statusId, milestoneId, startDate, endDate)
    case RenameStatusCall(statusId, name) => RenameStatus(s, data, statusId, name)
    case SetTaskStatusCall(taskId, statusId) => SetTaskStatus(s, data, taskId, statusId)
    case DeleteStatusCall(statusId, migrationStatusId) => DeleteStatusCorrected(s, data, statusId, migrationStatusId)
    case RenameTaskCall(taskId, name) => RenameTask(s, data, taskId, name)
    case SetTaskDescriptionCall(taskId, description) => SetTaskDescription(s, data, taskId, description)
    case ChangeTaskDatesCall(taskId, startDate, endDate) => ChangeTaskDates(s, data, taskId, startDate, endDate, update)
    case DeleteTaskCall(taskId) => DeleteTaskCorrected(s, data, taskId)
  }

  /**
   * Every call that completes, run against the corrected create_task,
   * delete_status and delete_task handlers, keeps the projection coherent
   * and in agreement with the store, given a date update that sets exactly
   * the two dates it is given. With the handlers as written this fails for
   * create_task with a milestone and for delete_status onto itself.
   */
  lemma PerformPreserves(c: Call, s: Store, d: Data, update: DateUpdate)
    requires Valid(s) && Coherent(d) && Mirrors(s, d) && Covers(s, d)
    requires HandlerFacts.SetsDates(update)
    ensures var r := Perform(c, s, Some(d), update);
            r.outcome == Done ==> r.data.Some? && Coherent(r.data.value) && Mirrors(r.store, r.data.value)
  {
    match c
    case CreateStatusCall(name) => HandlerFacts.CreateStatusPreserves(s, d, name);
    case CreateTaskCall(_, _, _, _) =>
    case CreateTaskFullCall(name, description, priority, statusId, milestoneId, startDate, endDate) =>
      HandlerFacts.CreateTaskCorrectedPreserves(s, d, name, description, priority, statusId, milestoneId, startDate, endDate);
    case RenameStatusCall(statusId, name) => HandlerFacts.RenameStatusPreserves(s, d, statusId, name);
    case SetTaskStatusCall(taskId, statusId) => HandlerFacts.SetTaskStatusPreserves(s, d, taskId, statusId);
    case DeleteStatusCall(statusId, migrationStatusId) =>
      DeleteFacts.DeleteStatusCorrectedPreserves(s, d, statusId, migrationStatusId);
    case RenameTaskCall(taskId, name) => HandlerFacts.RenameTaskPreserves(s, d, taskId, name);
    case SetTaskDescriptionCall(taskId, description) => HandlerFacts.SetTaskDescriptionPreserves(s, d, taskId, description);
    case ChangeTaskDatesCall(taskId, startDate, endDate) =>
      HandlerFacts.ChangeTaskDatesPreserves(s, d, taskId, startDate, endDate, update);
    case DeleteTaskCall(taskId) => DeleteFacts.DeleteTaskCorrectedPreserves(s, d, taskId);
  }
}
