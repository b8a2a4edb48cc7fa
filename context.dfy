/** The dialog provider: the registry and the state kept beside it, updated
    step by step by the provider's actions and effects. */
module DialogContext {
  import opened DialogTypes
  import opened DialogRegistry
  import opened DialogLifecycle

  class DialogContextProvider {
    // provider configuration
    const withHistory: bool
    const withHistoryForwardRestore: bool
    const visibleMultipleDialog: bool
    /** Whether the Confirm, Alert and Toast renderers were supplied. */
    const hasConfirm: bool
    const hasAlert: bool
    const hasToast: bool
    /** Whether an `onInterceptScrollBlocking` callback was supplied. */
    const interceptsScrollBlocking: bool

    /** The registry, in insertion order. */
    var dialogs: seq<Dialog>
    /** The id counter: the last id handed out. */
    var lastDialogId: nat
    /** The id of the dialog believed to be on top of the history. */
    var lastVisibleDialogId: int
    /** The page overflow saved before scrolling was blocked. */
    var beforeOverflow: string
    /** The page's `overflow` style; `None` once the property is removed. */
    var overflow: Option<string>
    /** The settlement of each promise showDialog has returned. */
    var promises: seq<Option<ShowDialogResult>>
    /** What the provider has done to the host, in order. */
    var effects: seq<Effect>

    ghost predicate Valid()
      reads this
    {
      && WellFormed(dialogs, lastDialogId, |promises|)
      && beforeOverflow != "hidden"
    }

    /** `lastDialogId` is the value the shared id counter has when the provider mounts. */
    constructor (withHistory: bool, withHistoryForwardRestore: bool, visibleMultipleDialog: bool,
                 hasConfirm: bool, hasAlert: bool, hasToast: bool, interceptsScrollBlocking: bool,
                 lastDialogId: nat, overflow: Option<string>)
      ensures Valid()
      ensures this.withHistory == withHistory && this.withHistoryForwardRestore == withHistoryForwardRestore
      ensures this.visibleMultipleDialog == visibleMultipleDialog && this.interceptsScrollBlocking == interceptsScrollBlocking
      ensures this.hasConfirm == hasConfirm && this.hasAlert == hasAlert && this.hasToast == hasToast
      ensures dialogs == [] && this.lastDialogId == lastDialogId && lastVisibleDialogId == 0
      ensures beforeOverflow == "" && this.overflow == overflow && promises == [] && effects == []
    {
      this.withHistory := withHistory;
      this.withHistoryForwardRestore := withHistoryForwardRestore;
      this.visibleMultipleDialog := visibleMultipleDialog;
      this.hasConfirm := hasConfirm;
      this.hasAlert := hasAlert;
      this.hasToast := hasToast;
      this.interceptsScrollBlocking := interceptsScrollBlocking;
      dialogs := [];
      this.lastDialogId := lastDialogId;
      lastVisibleDialogId := 0;
      beforeOverflow := "";
      this.overflow := overflow;
      promises := [];
      effects := [];
    }

    /** The state change of one show request that returned `promise`. */
    twostate predicate ShowCommitted(element: Element, options: DialogOptions, promise: PromiseId)
      reads this
    {
      var s := ShowStep(old(dialogs), old(lastDialogId), element, promise, options);
      && promise == |old(promises)| && promises == old(promises) + [None]
      && dialogs == s.dialogs && lastDialogId == s.lastDialogId && lastVisibleDialogId == s.id
      && effects == old(effects) + (if withHistory && !IgnoresHistory(options) then [PushHistory(s.id)] else [])
      && beforeOverflow == old(beforeOverflow) && overflow == old(overflow)
    }

    /** showDialog: a fresh pending promise, the registry updated by
        ShowStep, a history push unless history is ignored, and the shown id
        recorded as last visible. */
    method ShowDialog(element: Element, options: DialogOptions) returns (promise: PromiseId)
      requires Valid()
      modifies this
      ensures Valid()
      ensures ShowCommitted(element, options, promise)
    {
      ghost var shown := ShowStep(dialogs, lastDialogId, element, |promises|, options);
      ShowKeepsWellFormed(dialogs, lastDialogId, element, |promises|, options);
      promise := |promises|;
      promises := promises + [None];
      var dialogOptions := StoredOptions(options);
      var createdId: nat;
      var foundDialogByUnique := FindByUnique(dialogs, options.unique);
      if foundDialogByUnique.Some? {
        createdId := dialogs[foundDialogByUnique.value].id;
        var createdDialog := Dialog(createdId, element, true, promise, dialogOptions);
        dialogs := MapWhere(dialogs, HasId(createdId), _ => createdDialog);
      } else {
        lastDialogId := lastDialogId + 1;
        createdId := lastDialogId;
        dialogs := dialogs + [Dialog(createdId, element, true, promise, dialogOptions)];
      }
      if !IgnoresHistory(options) && withHistory {
        effects := effects + [PushHistory(createdId)];
      }
      lastVisibleDialogId := createdId;
      assert dialogs == shown.dialogs && createdId == shown.id;
    }

    /** hideDialog, as HideDialogStep describes it. */
    method HideDialog(id: int, control: ControlOptions)
      requires Valid()
      modifies this
      ensures Valid()
      ensures var h := HideDialogStep(old(dialogs), id, control, withHistory);
              dialogs == h.dialogs && effects == old(effects) + h.effects
      ensures lastDialogId == old(lastDialogId) && lastVisibleDialogId == old(lastVisibleDialogId)
      ensures promises == old(promises) && beforeOverflow == old(beforeOverflow) && overflow == old(overflow)
    {
      ghost var hidden := HideDialogStep(dialogs, id, control, withHistory);
      SameSlotsKeepWellFormed(dialogs, hidden.dialogs, lastDialogId, |promises|);
      var hideTarget := FindDialogById(id);
      if hideTarget.Some? {
        if HideUsesHistory(hideTarget.value, control, withHistory) {
          effects := effects + [HistoryGo(-1)];
        }
        if hideTarget.value.options.onDismiss {
          effects := effects + [Dismissed(hideTarget.value.id)];
        }
        dialogs := MapWhere(dialogs, HasId(id), Hide);
      }
      assert dialogs == hidden.dialogs;
    }

    /** hideDialogAll, as HideAllStep describes it. */
    method HideDialogAll(control: ControlOptions)
      requires Valid()
      modifies this
      ensures Valid()
      ensures var h := HideAllStep(old(dialogs), control, withHistory);
              dialogs == h.dialogs && effects == old(effects) + h.effects
      ensures lastDialogId == old(lastDialogId) && lastVisibleDialogId == old(lastVisibleDialogId)
      ensures promises == old(promises) && beforeOverflow == old(beforeOverflow) && overflow == old(overflow)
    {
      ghost var hidden := HideAllStep(dialogs, control, withHistory);
      SameSlotsKeepWellFormed(dialogs, hidden.dialogs, lastDialogId, |promises|);
      var hideTargets := Filter(dialogs, IsVisible);
      var backwardDelta := BackwardDelta(hideTargets);
      if !control.ignoreHistory.GetOr(false) && withHistory && |hideTargets| > 0 {
        if backwardDelta != 0 {
          effects := effects + [HistoryGo(-(backwardDelta as int))];
        }
      }
      if |hideTargets| > 0 {
        effects := effects + DismissEffects(dialogs);
        dialogs := MapWhere(dialogs, _ => true, Hide);
      }
      assert dialogs == hidden.dialogs;
    }

    /** findDialogById over the committed registry. */
    function FindDialogById(id: int): (r: Option<Dialog>)
      reads this
      requires Valid()
      ensures r.Some? <==> exists i :: 0 <= i < |dialogs| && dialogs[i].id == id
      ensures r.Some? ==> r.value in dialogs && r.value.id == id && r.value.resolve < |promises|
      ensures forall i :: 0 <= i < |dialogs| && dialogs[i].id == id ==> r == Some(dialogs[i])
    {
      var r := DialogRegistry.FindDialogById(dialogs, id);
      assert forall i :: 0 <= i < |dialogs| && dialogs[i].id == id ==> r == Some(dialogs[i]) by {
        forall i | 0 <= i < |dialogs| && dialogs[i].id == id ensures r == Some(dialogs[i]) {
          FindDialogByIdAt(dialogs, i);
        }
      }
      r
    }

    /** updateDialog, as UpdateDialogStep describes it. */
    method UpdateDialog(id: int, update: DialogUpdate) returns (found: bool)
      requires Valid()
      modifies this
      ensures Valid()
      ensures var u := UpdateDialogStep(old(dialogs), id, update);
              found == u.found && dialogs == u.dialogs
      ensures lastDialogId == old(lastDialogId) && lastVisibleDialogId == old(lastVisibleDialogId) && effects == old(effects)
      ensures promises == old(promises) && beforeOverflow == old(beforeOverflow) && overflow == old(overflow)
    {
      ghost var updated := UpdateDialogStep(dialogs, id, update);
      SameSlotsKeepWellFormed(dialogs, updated.dialogs, lastDialogId, |promises|);
      var foundDialog := FindDialogById(id);
      if foundDialog.Some? {
        dialogs := MapWhere(dialogs, HasId(foundDialog.value.id), d => Merge(d, update));
        found := true;
      } else {
        found := false;
      }
    }

    /** Resolving a dialog's promise: the first value written is the one callers see. */
    method ResolvePromise(promise: PromiseId, value: ShowDialogResult)
      requires Valid() && promise < |promises|
      modifies this
      ensures Valid()
      ensures promises == Settle(old(promises), promise, value)
      ensures dialogs == old(dialogs) && lastDialogId == old(lastDialogId) && lastVisibleDialogId == old(lastVisibleDialogId)
      ensures effects == old(effects) && beforeOverflow == old(beforeOverflow) && overflow == old(overflow)
    {
      if promises[promise].None? {
        promises := promises[promise := Some(value)];
      }
    }

    /** The scroll-blocking effect, run after each change of the registry: the
        interception callback when one is supplied, ScrollBlocking otherwise. */
    method ApplyScrollBlocking()
      requires Valid()
      modifies this
      ensures Valid()
      ensures interceptsScrollBlocking ==>
                && effects == old(effects) + [ScrollIntercepted(DialogContents(dialogs, true), ToastContents(dialogs))]
                && overflow == old(overflow) && beforeOverflow == old(beforeOverflow)
      ensures !interceptsScrollBlocking ==>
                && effects == old(effects)
                && ScrollState(overflow, beforeOverflow) == ScrollBlocking(VisibleDialogCount(dialogs), ScrollState(old(overflow), old(beforeOverflow)))
      ensures dialogs == old(dialogs) && lastDialogId == old(lastDialogId) && lastVisibleDialogId == old(lastVisibleDialogId)
      ensures promises == old(promises)
    {
      if interceptsScrollBlocking {
        effects := effects + [ScrollIntercepted(Filter(dialogs, IsVisibleDialog), Filter(dialogs, IsVisibleToast))];
      } else {
        var visibleDialogCount := VisibleDialogCount(dialogs);
        if visibleDialogCount > 0 {
          var currentOverflow := ReadOverflow(overflow);
          if currentOverflow != "hidden" {
            beforeOverflow := currentOverflow;
          }
          overflow := Some("hidden");
        } else {
          if beforeOverflow != "" {
            overflow := Some(beforeOverflow);
          } else {
            overflow := None;
          }
        }
      }
    }

    /** The popstate handler, registered only with history enabled: the tag
        read from the location decides forward or backward, PopStateStep
        decides the registry, and the hidden last-visible entry's promise is
        resolved with an undefined result. */
    method OnPopState(tag: TagParam)
      requires Valid()
      modifies this
      ensures Valid()
      ensures !withHistory ==> dialogs == old(dialogs) && promises == old(promises) && lastVisibleDialogId == old(lastVisibleDialogId)
      ensures withHistory ==>
                var p := PopStateStep(old(dialogs), old(lastVisibleDialogId), TagDialogId(tag), withHistoryForwardRestore);
                && dialogs == p.dialogs && lastVisibleDialogId == p.lastVisibleDialogId
                && (p.resolved.Some? ==> p.resolved.value.resolve < |old(promises)|)
                && promises == if p.resolved.Some?
                               then Settle(old(promises), p.resolved.value.resolve, ShowDialogResult(p.resolved.value.id, Undefined))
                               else old(promises)
      ensures lastDialogId == old(lastDialogId) && effects == old(effects)
      ensures beforeOverflow == old(beforeOverflow) && overflow == old(overflow)
    {
      if withHistory {
        var currentDialogId := TagDialogId(tag);
        var currentDialog := FindDialogById(currentDialogId);
        var lastVisibleDialog := FindDialogById(lastVisibleDialogId);
        var doHistoryWork := true;
        if currentDialogId >= lastVisibleDialogId {
          // forward
          if !withHistoryForwardRestore {
            doHistoryWork := false;
          }
        }
        if doHistoryWork {
          if lastVisibleDialog.Some? && lastVisibleDialog.value.visible {
            ResolvePromise(lastVisibleDialog.value.resolve, ShowDialogResult(lastVisibleDialog.value.id, Undefined));
            var _ := UpdateDialog(lastVisibleDialogId, DialogUpdate(Some(false), None));
          }
          if currentDialog.Some? && !currentDialog.value.visible {
            var _ := UpdateDialog(currentDialogId, DialogUpdate(Some(true), None));
          }
        }
        lastVisibleDialogId := currentDialogId;
      }
    }

    /** confirm: throws when no Confirm renderer was supplied, otherwise shows a CONFIRM dialog. */
    method Confirm(props: ConfirmProps, controlOptions: Option<ControlOptions>) returns (r: Call<PromiseId>)
      requires Valid()
      modifies this
      ensures Valid()
      ensures !hasConfirm ==> r == Threw(ComponentNotSet(DialogType.Confirm)) && unchanged(this)
      ensures hasConfirm ==> r.Returned? && ShowCommitted(ConfirmElement(props), WrapperOptions(DialogType.Confirm, controlOptions), r.value)
    {
      if !hasConfirm {
        return Threw(ComponentNotSet(DialogType.Confirm));
      }
      var promise := ShowDialog(ConfirmElement(props), WrapperOptions(DialogType.Confirm, controlOptions));
      r := Returned(promise);
    }

    /** alert: throws when no Alert renderer was supplied, otherwise shows an ALERT dialog. */
    method Alert(props: AlertProps, controlOptions: Option<ControlOptions>) returns (r: Call<PromiseId>)
      requires Valid()
      modifies this
      ensures Valid()
      ensures !hasAlert ==> r == Threw(ComponentNotSet(DialogType.Alert)) && unchanged(this)
      ensures hasAlert ==> r.Returned? && ShowCommitted(AlertElement(props), WrapperOptions(DialogType.Alert, controlOptions), r.value)
    {
      if !hasAlert {
        return Threw(ComponentNotSet(DialogType.Alert));
      }
      var promise := ShowDialog(AlertElement(props), WrapperOptions(DialogType.Alert, controlOptions));
      r := Returned(promise);
    }

    /** toast: throws when no Toast renderer was supplied, otherwise shows a
        TOAST entry under the caller's dedup key and forgets its promise;
        without control options the toast stays out of the history. */
    method Toast(args: ShowToastProps, controlOptions: Option<ControlOptions>) returns (r: Call<()>)
      requires Valid()
      modifies this
      ensures Valid()
      ensures !hasToast ==> r == Threw(ComponentNotSet(DialogType.Toast)) && unchanged(this)
      ensures hasToast ==> r == Returned(()) && ShowCommitted(ToastElement(args.props), ToastOptions(args.unique, controlOptions), |old(promises)|)
      ensures hasToast && controlOptions.None? ==> effects == old(effects)
    {
      if !hasToast {
        return Threw(ComponentNotSet(DialogType.Toast));
      }
      var _ := ShowDialog(ToastElement(args.props), ToastOptions(args.unique, controlOptions));
      r := Returned(());
    }
  }
}
