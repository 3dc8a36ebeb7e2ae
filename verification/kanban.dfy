/**
 * The kanban page's own state (page/kanban.py): the drag in progress, the
 * column under the pointer, the column where a task is being created, the
 * draft of a status rename, and the status-delete dialog. Each handler
 * changes these fields and decides whether to call into the project state.
 */
module Kanban {
  import opened Wrappers
  import opened Model
  import opened ProjectView
  import opened ProjectHandlers
  import opened Intents
  import Rows
  import CrudTasks
  import HandlerFacts

  datatype EditingStatusName = EditingStatusName(statusId: int, name: string)

  datatype Board = Board(
    draggingTaskId: Option<int>,
    creatingTaskAt: Option<int>,
    mouseOver: Option<int>,
    creatingStatus: bool,
    filterMilestoneId: Option<int>,
    editingStatusName: Option<EditingStatusName>)

  /** The page's state before any event. */
  const InitialBoard := Board(None, None, None, false, None, None)

  // ---------------------------------------------------------------------
  // Drag and drop
  // ---------------------------------------------------------------------

  function OnDrag(b: Board, taskId: int): Board {
    b.(draggingTaskId := Some(taskId))
  }

  function OnRelease(b: Board): Board {
    b.(draggingTaskId := None)
  }

  function SetMouseOver(b: Board, statusId: int): Board {
    b.(mouseOver := Some(statusId))
  }

  function RemoveMouseOver(b: Board): Board {
    b.(mouseOver := None)
  }

  /**
   * on_drop: with a dragged task over a column, move the task to that
   * column. The board returned is the one the handler leaves once the move
   * has returned: the drag and the hovered column forgotten. A move that
   * raises stops the handler before that; DropThenPerform follows both.
   */
  function OnDrop(b: Board): (r: (Board, Effect))
    ensures r.0 == b.(draggingTaskId := None, mouseOver := None)
    ensures r.1 != NoEffect <==> b.draggingTaskId.Some? && b.mouseOver.Some?
    ensures r.1 != NoEffect ==> r.1 == Forward(SetTaskStatusCall(b.draggingTaskId.value, b.mouseOver.value))
  {
    var cleared := b.(draggingTaskId := None, mouseOver := None);
    if b.draggingTaskId.None? || b.mouseOver.None? then (cleared, NoEffect)
    else (cleared, Forward(SetTaskStatusCall(b.draggingTaskId.value, b.mouseOver.value)))
  }

  /**
   * Dragging a task, hovering a column and dropping moves that task to
   * that column; releasing the task before the drop moves nothing. Either
   * way the page ends with no drag and no hovered column.
   */
  lemma DragHoverDrop(b: Board, taskId: int, statusId: int)
    ensures OnDrop(SetMouseOver(OnDrag(b, taskId), statusId)).1 == Forward(SetTaskStatusCall(taskId, statusId))
    ensures OnDrop(OnRelease(SetMouseOver(OnDrag(b, taskId), statusId))).1 == NoEffect
    ensures OnDrop(SetMouseOver(OnDrag(b, taskId), statusId)).0.draggingTaskId.None?
    ensures OnDrop(SetMouseOver(OnDrag(b, taskId), statusId)).0.mouseOver.None?
  {
  }

  /**
   * on_drop run to its end against the project state: the move is made
   * first and the drag and the hovered column are forgotten after it, so a
   * move that raises leaves them as they were. Without both there is no
   * move and they are forgotten.
   */
  function DropThenPerform(b: Board, s: Store, data: Option<Data>, update: DateUpdate): (r: (Board, Step))
    requires Valid(s)
    ensures b.draggingTaskId.None? || b.mouseOver.None? ==>
              r == (b.(draggingTaskId := None, mouseOver := None), Step(s, data, Done))
    ensures b.draggingTaskId.Some? && b.mouseOver.Some? ==>
              r.1 == SetTaskStatus(s, data, b.draggingTaskId.value, b.mouseOver.value)
    ensures r.0 == if r.1.outcome.Raised? then b else b.(draggingTaskId := None, mouseOver := None)
  {
    var (cleared, e) := OnDrop(b);
    if !e.Forward? then (cleared, Step(s, data, Done))
    else
      var step := Perform(e.call, s, data, update);
      (if step.outcome.Raised? then b else cleared, step)
  }

  /** A drop that goes through keeps the projection coherent and in agreement with the store. */
  lemma DropPreserves(b: Board, s: Store, d: Data, update: DateUpdate)
    requires Valid(s) && Coherent(d) && Mirrors(s, d) && OnDrop(b).1.Forward?
    ensures var r := Perform(OnDrop(b).1.call, s, Some(d), update);
            r.outcome == Done ==> r.data.Some? && Coherent(r.data.value) && Mirrors(r.store, r.data.value)
  {
    HandlerFacts.SetTaskStatusPreserves(s, d, b.draggingTaskId.value, b.mouseOver.value);
  }

  // ---------------------------------------------------------------------
  // Creating statuses and tasks
  // ---------------------------------------------------------------------

  /** create_status: the status is created, and the column form closes once that call has returned. */
  function CreateStatus(b: Board, statusName: string): (r: (Board, Effect))
    ensures r.0 == b.(creatingStatus := false)
    ensures r.1 == Forward(CreateStatusCall(statusName))
  {
    (b.(creatingStatus := false), Forward(CreateStatusCall(statusName)))
  }

  /**
   * The column form's create_status against the project state: the form
   * always closes, since the handler it calls catches the only error it
   * can meet; a taken name changes nothing; otherwise the projection gains
   * the one status, with that name and no tasks, and stays coherent and in
   * agreement with the store.
   */
  lemma CreateStatusFromForm(b: Board, statusName: string, s: Store, d: Data, update: DateUpdate)
    requires Valid(s) && Coherent(d) && Mirrors(s, d)
    ensures var r := Perform(CreateStatus(b, statusName).1.call, s, Some(d), update);
            && !r.outcome.Raised?
            && CreateStatus(b, statusName).0.creatingStatus == false
            && (r.outcome.Caught? <==> CrudTasks.StatusNameTaken(s, d.projectId, statusName))
            && (r.outcome.Caught? ==> r.store == s && r.data == Some(d))
            && (r.outcome == Done ==>
                  && r.data.Some? && Coherent(r.data.value) && Mirrors(r.store, r.data.value)
                  && exists id :: id !in d.statuses && r.data.value == d.(statuses := d.statuses[id := StatusView(id, statusName, "", [])]))
  {
    HandlerFacts.CreateStatusPreserves(s, d, statusName);
    var r := Perform(CreateStatus(b, statusName).1.call, s, Some(d), update);
    if r.outcome == Done {
      var (s', st) := CrudTasks.CreateStatus(s, statusName, "", d.projectId).value;
      assert st.id !in s.statuses;
    }
  }

  function SetStatusCreatingTask(b: Board, statusId: int): Board {
    b.(creatingTaskAt := Some(statusId))
  }

  function CancelTask(b: Board): Board {
    b.(creatingTaskAt := None)
  }

  /**
   * create_task: without a column awaiting a task nothing happens;
   * otherwise the column is forgotten and a task of medium priority with
   * an empty description is created in it. The call passes four of the
   * handler's arguments and leaves out `milestone_id`.
   */
  function CreateTask(b: Board, taskName: string): (r: (Board, Effect))
    ensures b.creatingTaskAt.None? ==> r == (b, NoEffect)
    ensures b.creatingTaskAt.Some? ==>
              && r.0 == b.(creatingTaskAt := None)
              && r.1 == Forward(CreateTaskCall(taskName, "", MEDIUM, b.creatingTaskAt.value))
  {
    if b.creatingTaskAt.None? then (b, NoEffect)
    else (b.(creatingTaskAt := None), Forward(CreateTaskCall(taskName, "", MEDIUM, b.creatingTaskAt.value)))
  }

  /**
   * Opening the task form in a column and submitting it forwards one
   * call, which raises because `milestone_id` is missing, and leaves
   * nothing awaiting a task; cancelling first forwards nothing.
   */
  lemma CreateTaskInColumn(b: Board, statusId: int, taskName: string, s: Store, data: Option<Data>, update: DateUpdate)
    requires Valid(s)
    ensures var r := CreateTask(SetStatusCreatingTask(b, statusId), taskName);
            && r.0.creatingTaskAt.None?
            && r.1.Forward?
            && Perform(r.1.call, s, data, update) == Step(s, data, Raised(TypeError))
    ensures CreateTask(CancelTask(SetStatusCreatingTask(b, statusId)), taskName).1 == NoEffect
  {
  }

  // ---------------------------------------------------------------------
  // Renaming a status
  // ---------------------------------------------------------------------

  /**
   * set_editing_status_name: starts a draft holding the status's current
   * name; a status the projection lacks raises KeyError.
   */
  function SetEditingStatusName(b: Board, data: Option<Data>, statusId: int): (r: (Board, Effect))
    ensures data.None? ==> r == (b, NoEffect)
    ensures data.Some? && statusId !in data.value.statuses ==> r == (b, Fail(KeyError))
    ensures data.Some? && statusId in data.value.statuses ==>
              r == (b.(editingStatusName := Some(EditingStatusName(statusId, data.value.statuses[statusId].name))), NoEffect)
  {
    if data.None? then (b, NoEffect)
    else if statusId !in data.value.statuses then (b, Fail(KeyError))
    else (b.(editingStatusName := Some(EditingStatusName(statusId, data.value.statuses[statusId].name))), NoEffect)
  }

  /** update_status_name: without a draft nothing changes; otherwise only the draft's name does. */
  function UpdateStatusName(b: Board, name: string): (r: Board)
    ensures b.editingStatusName.None? ==> r == b
    ensures b.editingStatusName.Some? ==>
              && r.editingStatusName.Some?
              && r.editingStatusName.value.statusId == b.editingStatusName.value.statusId
              && r.editingStatusName.value.name == name
              && r.(editingStatusName := b.editingStatusName) == b
  {
    if b.editingStatusName.None? then b
    else b.(editingStatusName := Some(b.editingStatusName.value.(name := name)))
  }

  /** on_blur_editing_status_name: the draft is discarded. */
  function OnBlurEditingStatusName(b: Board): (r: Board)
    ensures r.editingStatusName.None? && r.(editingStatusName := b.editingStatusName) == b
  {
    b.(editingStatusName := None)
  }

  /**
   * confirm_update_status_name: renames the drafted status when there is a
   * draft, the projection is loaded, and the drafted name is neither empty
   * nor the current name. The draft is kept either way.
   */
  function ConfirmUpdateStatusName(b: Board, data: Option<Data>): (r: (Board, Effect))
    ensures r.0 == b
    ensures r.1.Fail? <==> b.editingStatusName.Some? && data.Some? && b.editingStatusName.value.statusId !in data.value.statuses
    ensures r.1.Fail? ==> r.1.exc == KeyError
    ensures r.1.Forward? <==>
              && b.editingStatusName.Some? && data.Some?
              && b.editingStatusName.value.statusId in data.value.statuses
              && data.value.statuses[b.editingStatusName.value.statusId].name != b.editingStatusName.value.name
              && b.editingStatusName.value.name != ""
    ensures r.1.Forward? ==> r.1.call == RenameStatusCall(b.editingStatusName.value.statusId, b.editingStatusName.value.name)
    ensures !r.1.Rejected?
  {
    if b.editingStatusName.None? || data.None? then (b, NoEffect)
    else
      var draft := b.editingStatusName.value;
      if draft.statusId !in data.value.statuses then (b, Fail(KeyError))
      else if data.value.statuses[draft.statusId].name == draft.name || draft.name == "" then (b, NoEffect)
      else (b, Forward(RenameStatusCall(draft.statusId, draft.name)))
  }

  /**
   * Starting a draft on a status and confirming it unedited renames
   * nothing, and neither does a draft that was blurred away.
   */
  lemma UneditedDraftRenamesNothing(b: Board, d: Data, statusId: int, name: string)
    requires statusId in d.statuses
    ensures ConfirmUpdateStatusName(SetEditingStatusName(b, Some(d), statusId).0, Some(d)).1 == NoEffect
    ensures ConfirmUpdateStatusName(OnBlurEditingStatusName(UpdateStatusName(b, name)), Some(d)).1 == NoEffect
  {
  }

  /**
   * Because the draft is kept, confirming it a second time after the
   * rename went through forwards nothing: the status now has that name.
   */
  lemma ConfirmAgainAfterRename(b: Board, s: Store, d: Data, update: DateUpdate)
    requires Valid(s)
    requires ConfirmUpdateStatusName(b, Some(d)).1.Forward?
    ensures var r := Perform(ConfirmUpdateStatusName(b, Some(d)).1.call, s, Some(d), update);
            r.outcome == Done ==> r.data.Some? && ConfirmUpdateStatusName(b, r.data).1 == NoEffect
  {
  }

  // ---------------------------------------------------------------------
  // The status-delete dialog
  // ---------------------------------------------------------------------

  datatype DeleteDialog = DeleteDialog(deletingStatusId: Option<int>, migrationStatusId: Option<int>)

  /** set_status_delete_dialog: opening names the status to delete and clears the choice; closing clears both. */
  function SetStatusDeleteDialog(dd: DeleteDialog, statusId: int, open: bool): (r: DeleteDialog)
    ensures r.migrationStatusId.None?
    ensures r.deletingStatusId == if open then Some(statusId) else None
  {
    if open then DeleteDialog(Some(statusId), None) else DeleteDialog(None, None)
  }

  function SetMigrationStatus(dd: DeleteDialog, statusId: Option<int>): DeleteDialog {
    dd.(migrationStatusId := statusId)
  }

  /**
   * get_available_statuses: the statuses the tasks may move to, in the
   * dictionary's order, which is ascending id order; none while no status
   * is being deleted or before the projection is loaded.
   */
  function AvailableStatuses(dd: DeleteDialog, data: Option<Data>): (r: seq<int>)
    ensures dd.deletingStatusId.None? || data.None? ==> r == []
    ensures dd.deletingStatusId.Some? && data.Some? ==>
              forall k :: k in r <==> k in data.value.statuses && k != dd.deletingStatusId.value
    ensures Rows.StrictlyAscending(r)
  {
    if dd.deletingStatusId.None? || data.None? then []
    else Rows.Ascending(set k | k in data.value.statuses && k != dd.deletingStatusId.value)
  }

  /**
   * confirm_delete_status: without both a status to delete and a status to
   * move its tasks to, an error is shown and nothing is deleted; otherwise
   * the status is deleted, and the dialog returned is the one left once
   * that call has returned, with its choices cleared. ConfirmDeleteThenPerform
   * follows a call that raises.
   */
  function ConfirmDeleteStatus(dd: DeleteDialog): (r: (DeleteDialog, Effect))
    ensures dd.deletingStatusId.None? || dd.migrationStatusId.None? ==> r == (dd, Rejected)
    ensures dd.deletingStatusId.Some? && dd.migrationStatusId.Some? ==>
              r == (DeleteDialog(None, None), Forward(DeleteStatusCall(dd.deletingStatusId.value, dd.migrationStatusId.value)))
  {
    if dd.deletingStatusId.None? || dd.migrationStatusId.None? then (dd, Rejected)
    else (DeleteDialog(None, None), Forward(DeleteStatusCall(dd.deletingStatusId.value, dd.migrationStatusId.value)))
  }

  /**
   * confirm_delete_status run to its end against the project state: the
   * delete is made first and the choices are cleared after it, so a delete
   * that raises leaves the dialog as it was; without both choices nothing
   * is called and nothing changes.
   */
  function ConfirmDeleteThenPerform(dd: DeleteDialog, s: Store, data: Option<Data>, update: DateUpdate)
    : (r: (DeleteDialog, Option<Step>))
    requires Valid(s)
    ensures dd.deletingStatusId.None? || dd.migrationStatusId.None? ==> r == (dd, None)
    ensures dd.deletingStatusId.Some? && dd.migrationStatusId.Some? ==>
              && r.1 == Some(DeleteStatusCorrected(s, data, dd.deletingStatusId.value, dd.migrationStatusId.value))
              && r.0 == if r.1.value.outcome.Raised? then dd else DeleteDialog(None, None)
  {
    match ConfirmDeleteStatus(dd)
    case (cleared, Forward(c)) =>
      var step := Perform(c, s, data, update);
      (if step.outcome.Raised? then dd else cleared, Some(step))
    case (kept, _) => (kept, None)
  }

  /**
   * Opening the dialog on a status and choosing a target from the offered
   * list deletes that status into another existing one; confirming before
   * a choice is made is rejected.
   */
  lemma OfferedTargetIsAnotherStatus(dd: DeleteDialog, d: Data, statusId: int, i: nat)
    requires i < |AvailableStatuses(SetStatusDeleteDialog(dd, statusId, true), Some(d))|
    ensures var shown := SetStatusDeleteDialog(dd, statusId, true);
            var target := AvailableStatuses(shown, Some(d))[i];
            && target in d.statuses && target != statusId
            && ConfirmDeleteStatus(SetMigrationStatus(shown, Some(target))).1 == Forward(DeleteStatusCall(statusId, target))
    ensures ConfirmDeleteStatus(SetStatusDeleteDialog(dd, statusId, true)).1 == Rejected
  {
    var shown := SetStatusDeleteDialog(dd, statusId, true);
    assert AvailableStatuses(shown, Some(d))[i] in AvailableStatuses(shown, Some(d));
  }
}
