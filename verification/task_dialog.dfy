/**
 * The task dialog's editing draft (component/task_dialog.py): the task
 * being edited and, for each field being edited, the value typed so far.
 * Confirming a field clears its draft and calls into the project state.
 */
module TaskDialog {
  import opened Wrappers
  import opened Intents

  datatype Draft = Draft(
    taskId: Option<int>,
    name: Option<string>,
    description: Option<string>,
    startDate: Option<int>,
    endDate: Option<int>)

  /** Every field unset: the state after `reset`. */
  const Cleared := Draft(None, None, None, None, None)

  /** `date_to_epoch` is not part of this model: the conversion of a date string is a parameter. */
  type DateToEpoch = string -> int

  /** set_editing_task_id: opening resets every draft and then names the task; closing forgets only the task. */
  function SetEditingTaskId(dr: Draft, taskId: int, open: bool): (r: Draft)
    ensures open ==> r.taskId == Some(taskId) && r.name.None? && r.description.None? && r.startDate.None? && r.endDate.None?
    ensures !open ==> r.taskId.None? && r.(taskId := dr.taskId) == dr
  {
    if open then Cleared.(taskId := Some(taskId)) else dr.(taskId := None)
  }

  /** reset_state. */
  function ResetState(dr: Draft): (r: Draft)
    ensures r.taskId.None? && r.name.None? && r.description.None? && r.startDate.None? && r.endDate.None?
  {
    Cleared
  }

  predicate IsEditingTaskName(dr: Draft) {
    dr.name.Some?
  }

  predicate IsEditingTaskDescription(dr: Draft) {
    dr.description.Some?
  }

  predicate IsEditingTaskDates(dr: Draft) {
    dr.startDate.Some? || dr.endDate.Some?
  }

  function UpdateTaskEditingName(dr: Draft, value: string): Draft {
    dr.(name := Some(value))
  }

  function UpdateTaskEditingDescription(dr: Draft, value: Option<string>): Draft {
    dr.(description := value)
  }

  /**
   * Each update handler starts or ends exactly its own edit and leaves the
   * task and the other drafts alone: typing a name always edits the name,
   * a description edit is on exactly when a value is given, and the dates
   * are being edited exactly when one of the two holds a non-empty input.
   */
  lemma UpdatesStartEditing(dr: Draft, name: string, description: Option<string>, value: Option<string>,
                            toEpoch: DateToEpoch)
    ensures var r := UpdateTaskEditingName(dr, name);
            && IsEditingTaskName(r) && r.name == Some(name)
            && r.(name := dr.name) == dr
    ensures var r := UpdateTaskEditingDescription(dr, description);
            && (IsEditingTaskDescription(r) <==> description.Some?)
            && r.(description := dr.description) == dr
    ensures var r := UpdateTaskEditingStartDate(dr, value, toEpoch);
            && (IsEditingTaskDates(r) <==> (value.Some? && value.value != "") || dr.endDate.Some?)
            && r.(startDate := dr.startDate) == dr
    ensures var r := UpdateTaskEditingEndDate(dr, value, toEpoch);
            && (IsEditingTaskDates(r) <==> (value.Some? && value.value != "") || dr.startDate.Some?)
            && r.(endDate := dr.endDate) == dr
  {
  }

  /** A date input: an absent or empty value is no date; any other is converted. */
  function DateInput(value: Option<string>, toEpoch: DateToEpoch): (r: Option<int>)
    ensures r.None? <==> value.None? || value.value == ""
    ensures r.Some? ==> r.value == toEpoch(value.value)
  {
    if value.None? || value.value == "" then None else Some(toEpoch(value.value))
  }

  function UpdateTaskEditingStartDate(dr: Draft, value: Option<string>, toEpoch: DateToEpoch): Draft {
    dr.(startDate := DateInput(value, toEpoch))
  }

  function UpdateTaskEditingEndDate(dr: Draft, value: Option<string>, toEpoch: DateToEpoch): Draft {
    dr.(endDate := DateInput(value, toEpoch))
  }

  /** confirm_editing_task_name: with a task and a name draft, rename the task and clear the draft. */
  function ConfirmEditingTaskName(dr: Draft): (r: (Draft, Effect))
    ensures dr.taskId.None? || dr.name.None? ==> r == (dr, NoEffect)
    ensures dr.taskId.Some? && dr.name.Some? ==>
              r == (dr.(name := None), Forward(RenameTaskCall(dr.taskId.value, dr.name.value)))
  {
    if dr.taskId.None? || dr.name.None? then (dr, NoEffect)
    else (dr.(name := None), Forward(RenameTaskCall(dr.taskId.value, dr.name.value)))
  }

  /** confirm_editing_task_description: with a task and a description draft, set it and clear the draft. */
  function ConfirmEditingTaskDescription(dr: Draft): (r: (Draft, Effect))
    ensures dr.taskId.None? || dr.description.None? ==> r == (dr, NoEffect)
    ensures dr.taskId.Some? && dr.description.Some? ==>
              r == (dr.(description := None), Forward(SetTaskDescriptionCall(dr.taskId.value, dr.description.value)))
  {
    if dr.taskId.None? || dr.description.None? then (dr, NoEffect)
    else (dr.(description := None), Forward(SetTaskDescriptionCall(dr.taskId.value, dr.description.value)))
  }

  /**
   * confirm_editing_task_dates: with a task, set both of its dates to the
   * drafts, absent ones included, and clear both drafts.
   */
  function ConfirmEditingTaskDates(dr: Draft): (r: (Draft, Effect))
    ensures dr.taskId.None? ==> r == (dr, NoEffect)
    ensures dr.taskId.Some? ==>
              r == (dr.(startDate := None, endDate := None), Forward(ChangeTaskDatesCall(dr.taskId.value, dr.startDate, dr.endDate)))
  {
    if dr.taskId.None? then (dr, NoEffect)
    else (dr.(startDate := None, endDate := None), Forward(ChangeTaskDatesCall(dr.taskId.value, dr.startDate, dr.endDate)))
  }

  /** delete_task: with a task, forget it and delete it. */
  function DeleteTask(dr: Draft): (r: (Draft, Effect))
    ensures dr.taskId.None? ==> r == (dr, NoEffect)
    ensures dr.taskId.Some? ==> r == (dr.(taskId := None), Forward(DeleteTaskCall(dr.taskId.value)))
  {
    if dr.taskId.None? then (dr, NoEffect)
    else (dr.(taskId := None), Forward(DeleteTaskCall(dr.taskId.value)))
  }

  /**
   * Opening a task and confirming a typed name renames that task and ends
   * the name edit; confirming again forwards nothing.
   */
  lemma EditNameThenConfirm(dr: Draft, taskId: int, name: string)
    ensures var r := ConfirmEditingTaskName(UpdateTaskEditingName(SetEditingTaskId(dr, taskId, true), name));
            && r.1 == Forward(RenameTaskCall(taskId, name))
            && !IsEditingTaskName(r.0)
            && ConfirmEditingTaskName(r.0).1 == NoEffect
  {
  }

  /**
   * Right after opening a task nothing is being edited and confirming the
   * name or the description forwards nothing, but confirming the dates
   * sets both of the task's dates to none.
   */
  lemma OpenedDraftIsEmpty(dr: Draft, taskId: int)
    ensures var shown := SetEditingTaskId(dr, taskId, true);
            && !IsEditingTaskName(shown) && !IsEditingTaskDescription(shown) && !IsEditingTaskDates(shown)
            && ConfirmEditingTaskName(shown).1 == NoEffect
            && ConfirmEditingTaskDescription(shown).1 == NoEffect
            && ConfirmEditingTaskDates(shown).1 == Forward(ChangeTaskDatesCall(taskId, None, None))
  {
  }

  /**
   * After closing, no confirmation forwards anything, though the drafts
   * typed before closing are kept until the next opening resets them.
   */
  lemma ClosedDraftForwardsNothing(dr: Draft, taskId: int)
    ensures var closed := SetEditingTaskId(dr, taskId, false);
            && closed.name == dr.name && closed.description == dr.description
            && ConfirmEditingTaskName(closed).1 == NoEffect
            && ConfirmEditingTaskDescription(closed).1 == NoEffect
            && ConfirmEditingTaskDates(closed).1 == NoEffect
            && DeleteTask(closed).1 == NoEffect
  {
  }

  /** After reset_state nothing is being edited and no confirmation or deletion forwards anything. */
  lemma ResetForwardsNothing(dr: Draft)
    ensures var reset := ResetState(dr);
            && !IsEditingTaskName(reset) && !IsEditingTaskDescription(reset) && !IsEditingTaskDates(reset)
            && ConfirmEditingTaskName(reset).1 == NoEffect
            && ConfirmEditingTaskDescription(reset).1 == NoEffect
            && ConfirmEditingTaskDates(reset).1 == NoEffect
            && DeleteTask(reset).1 == NoEffect
  {
  }

  /** Clearing a date input ends the dates edit when the other date has no draft. */
  lemma ClearedDateEndsDatesEdit(dr: Draft, toEpoch: DateToEpoch)
    requires dr.endDate.None?
    ensures !IsEditingTaskDates(UpdateTaskEditingStartDate(dr, Some(""), toEpoch))
    ensures !IsEditingTaskDates(UpdateTaskEditingStartDate(dr, None, toEpoch))
  {
  }
}
