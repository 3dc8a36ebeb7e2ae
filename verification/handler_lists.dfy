/**
 * The event-handler lists the two dialogs build for their submit buttons
 * (component/task_dialog.py `_make_handler`, and the same construction in
 * component/create_milestone_dialog.py): the dialog's own handler first,
 * then whatever the caller passed.
 */
module HandlerLists {
  /** What a caller passes: nothing, one handler, or a list of handlers. */
  datatype Extra<T> = NoExtra | One(handler: T) | Many(handlers: seq<T>)

  /** The handlers the caller passed, a list flattened one level. */
  function ExtraHandlers<T>(extra: Extra<T>): (r: seq<T>)
    ensures extra.NoExtra? ==> r == []
    ensures extra.One? ==> r == [extra.handler]
    ensures extra.Many? ==> r == extra.handlers
  {
    match extra
    case NoExtra => []
    case One(h) => [h]
    case Many(hs) => hs
  }

  /** `_make_handler(base, additional)`: the base handler, then the caller's handlers in order. */
  function Chain<T>(base: T, extra: Extra<T>): (r: seq<T>)
    ensures |r| >= 1 && r[0] == base
    ensures r[1..] == ExtraHandlers(extra)
  {
    [base] + ExtraHandlers(extra)
  }

  /**
   * A single handler and a one-element list give the same chain, and an
   * empty list adds nothing, as passing no handler does.
   */
  lemma ChainFlattensOneLevel<T>(base: T, h: T)
    ensures Chain(base, One(h)) == Chain(base, Many([h])) == [base, h]
    ensures Chain(base, Many([])) == Chain(base, NoExtra) == [base]
  {
  }
}
