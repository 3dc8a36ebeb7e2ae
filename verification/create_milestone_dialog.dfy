/**
 * The milestone dialog (component/create_milestone_dialog.py): it creates
 * a milestone directly in the store for the project it was opened on and
 * remembers the milestone it created, so that a caller's handler that
 * runs after it can read it.
 */
module MilestoneDialog {
  import opened Wrappers
  import opened Model
  import opened ProjectHandlers
  import CrudTasks
  import CrudTasksFacts
  import HandlerLists

  datatype Dialog = Dialog(lastCreatedMilestone: Option<Milestone>, projectId: Option<int>)

  datatype Submitted = Submitted(dialog: Dialog, store: Store, outcome: Outcome)

  /**
   * submit: without a project nothing happens; a name already used by a
   * milestone of the project is caught and forgets the last milestone;
   * otherwise the milestone is created, due now, and remembered.
   */
  function Submit(dl: Dialog, s: Store, name: string, description: string, now: int): (r: Submitted)
    requires Valid(s)
    ensures dl.projectId.None? ==> r == Submitted(dl, s, Done)
    ensures dl.projectId.Some? ==>
              (r.outcome.Caught? <==> CrudTasks.MilestoneNameTaken(s, dl.projectId.value, name))
    ensures r.outcome.Caught? ==>
              r == Submitted(dl.(lastCreatedMilestone := None), s, Caught(ExistingMilestoneNameError))
    ensures !r.outcome.Raised?
    ensures dl.projectId.Some? && r.outcome == Done ==>
              && r.dialog.projectId == dl.projectId
              && r.dialog.lastCreatedMilestone.Some?
              && var m := r.dialog.lastCreatedMilestone.value;
                 && m.id !in s.milestones
                 && m == Milestone(m.id, dl.projectId.value, name, description, now)
                 && r.store.milestones == s.milestones[m.id := m]
  {
    if dl.projectId.None? then Submitted(dl, s, Done)
    else
      var res := CrudTasks.CreateMilestone(s, name, description, dl.projectId.value, now);
      if res.Failure? then Submitted(dl.(lastCreatedMilestone := None), s, Caught(res.error))
      else Submitted(dl.(lastCreatedMilestone := Some(res.value.1)), res.value.0, Done)
  }

  /** on_open_change: opening or closing, the dialog forgets its last milestone and takes the project. */
  function OnOpenChange(dl: Dialog, projectId: int, open: bool): (r: Dialog)
    ensures r.lastCreatedMilestone.None? && r.projectId == Some(projectId)
  {
    var base := if open then Dialog(None, None) else dl;
    base.(lastCreatedMilestone := None, projectId := Some(projectId))
  }

  /**
   * Submitting the same name twice from a freshly opened dialog creates
   * the milestone once; the second submission is caught and leaves the
   * store as the first left it, with no last milestone.
   */
  lemma SubmitTwice(dl: Dialog, s: Store, projectId: int, open: bool, name: string, d1: string, d2: string, t1: int, t2: int)
    requires Valid(s) && !CrudTasks.MilestoneNameTaken(s, projectId, name)
    ensures var first := Submit(OnOpenChange(dl, projectId, open), s, name, d1, t1);
            && first.outcome == Done
            && first.dialog.lastCreatedMilestone.Some?
            && first.dialog.lastCreatedMilestone.value.name == name
            && Valid(first.store)
            && var second := Submit(first.dialog, first.store, name, d2, t2);
               && second.outcome == Caught(ExistingMilestoneNameError)
               && second.store == first.store
               && second.dialog.lastCreatedMilestone.None?
  {
    CrudTasksFacts.CreateMilestoneTwiceFails(s, name, d1, d2, projectId, t1, t2);
  }

  /** The dialog's own submit handler, as the first entry of its handler list. */
  datatype Handler<T> = SubmitHandler | CallerHandler(handler: T)

  /** The on_submit list: the dialog's submit, then the caller's handlers in order, a list flattened one level. */
  function OnSubmitHandlers<T>(extra: HandlerLists.Extra<T>): (r: seq<Handler<T>>)
    ensures |r| >= 1 && r[0] == SubmitHandler
    ensures |r| == 1 + |HandlerLists.ExtraHandlers(extra)|
    ensures forall i :: 1 <= i < |r| ==> r[i] == CallerHandler(HandlerLists.ExtraHandlers(extra)[i - 1])
  {
    var callers := HandlerLists.ExtraHandlers(extra);
    HandlerLists.Chain(SubmitHandler, HandlerLists.Many(seq(|callers|, i requires 0 <= i < |callers| => CallerHandler(callers[i]))))
  }
}
