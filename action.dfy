/** The per-dialog action provider: `hide` resolves the dialog's promise and
    then asks the dialog provider to hide it; `hideAfter` does the same from
    a timer, keeping at most one timer pending. */
module DialogAction {
  import opened DialogTypes
  import opened DialogRegistry
  import opened DialogLifecycle
  import opened DialogContext

  /** What the action provider asks of the host's timer service. */
  datatype TimerEffect = SetTimeout(afterMilliseconds: int) | ClearTimeout

  /** The pending hide timer and the result it will hide with. */
  datatype PendingHide = PendingHide(afterMilliseconds: int, result: ResultValue)

  class DialogActionContextProvider {
    /** The id of the dialog this provider wraps. */
    const id: nat
    const context: DialogContextProvider
    /** The single pending-timer slot. */
    var hideWorker: Option<PendingHide>
    /** Timers set and cleared, in order. */
    var timers: seq<TimerEffect>

    constructor (id: nat, context: DialogContextProvider)
      ensures this.id == id && this.context == context
      ensures hideWorker == None && timers == []
    {
      this.id := id;
      this.context := context;
      hideWorker := None;
      timers := [];
    }

    /** The provider's state after resolving this dialog with `result` and hiding it:
        the promise is settled only when the dialog is found, the hide is
        HideDialogStep with default control options, and nothing else moves. */
    twostate predicate HideCommitted(result: ResultValue)
      requires old(context.Valid())
      reads this, context
    {
      var found := DialogRegistry.FindDialogById(old(context.dialogs), id);
      var hidden := HideDialogStep(old(context.dialogs), id, ControlOptions(None), context.withHistory);
      && context.promises == (if found.Some?
                              then Settle(old(context.promises), found.value.resolve, ShowDialogResult(id, result))
                              else old(context.promises))
      && context.dialogs == hidden.dialogs
      && context.effects == old(context.effects) + hidden.effects
      && context.lastDialogId == old(context.lastDialogId)
      && context.lastVisibleDialogId == old(context.lastVisibleDialogId)
      && context.beforeOverflow == old(context.beforeOverflow)
      && context.overflow == old(context.overflow)
    }

    /** hide: resolve the dialog's promise if the dialog is found, then hide it. */
    method Hide(result: ResultValue)
      requires context.Valid()
      modifies context
      ensures context.Valid()
      ensures HideCommitted(result)
      ensures DialogRegistry.FindDialogById(old(context.dialogs), id).None? ==>
                && context.dialogs == old(context.dialogs)
                && context.promises == old(context.promises)
                && context.effects == old(context.effects)
    {
      var dialog := context.FindDialogById(id);
      if dialog.Some? {
        context.ResolvePromise(dialog.value.resolve, ShowDialogResult(id, result));
      }
      context.HideDialog(id, ControlOptions(None));
    }

    /** hideAfter: clear the pending timer, if any, then set one that will
        hide with `result`. */
    method HideAfter(afterMilliseconds: int, result: ResultValue)
      modifies this
      ensures hideWorker == Some(PendingHide(afterMilliseconds, result))
      ensures timers == old(timers) + (if old(hideWorker).Some? then [ClearTimeout] else []) + [SetTimeout(afterMilliseconds)]
    {
      if hideWorker.Some? {
        timers := timers + [ClearTimeout];
        hideWorker := None;
      }
      timers := timers + [SetTimeout(afterMilliseconds)];
      hideWorker := Some(PendingHide(afterMilliseconds, result));
    }

    /** The pending timer fires: the same resolve-then-hide as `hide`, with the
        result of the latest hideAfter call, and the slot is emptied. */
    method FireHideTimer()
      requires hideWorker.Some? && context.Valid()
      modifies this, context
      ensures context.Valid()
      ensures HideCommitted(old(hideWorker.value.result))
      ensures hideWorker == None && timers == old(timers)
    {
      Hide(hideWorker.value.result);
      hideWorker := None;
    }
  }
}
