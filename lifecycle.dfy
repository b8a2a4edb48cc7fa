/** One pure step function per operation of the dialog provider: the list
    transformation it commits and the effects it emits, computed from the
    committed state. The provider class applies these steps to its fields. */
module DialogLifecycle {
  import opened DialogTypes
  import opened DialogRegistry

  // ------------------------------------------------------------ showDialog

  /** The registry after a show request, the id the request was given, and
      the id counter. */
  datatype Shown = Shown(dialogs: seq<Dialog>, id: nat, lastDialogId: nat)

  /** showDialog stores the caller's options with `ignoreHistory` defaulted to false. */
  function StoredOptions(options: DialogOptions): DialogOptions {
    options.(ignoreHistory := Some(IgnoresHistory(options)))
  }

  function HasUnique(key: string): Dialog -> bool {
    (d: Dialog) => d.options.unique == Some(key)
  }

  /** The first entry carrying the request's dedup key; none when the request has no key. */
  function FindByUnique(ds: seq<Dialog>, unique: Option<string>): (r: Option<nat>)
    ensures r.Some? ==> unique.Some? && r.value < |ds| && ds[r.value].options.unique == unique
    ensures r.Some? ==> forall j :: 0 <= j < r.value ==> ds[j].options.unique != unique
    ensures r.None? && unique.Some? ==> forall j :: 0 <= j < |ds| ==> ds[j].options.unique != unique
  {
    match unique
    case None => None
    case Some(key) =>
      var r := FindFirst(ds, HasUnique(key));
      assert r.Some? ==> HasUnique(key)(ds[r.value]);
      r
  }

  /** showDialog's registry update: reuse the entry with a matching dedup key
      in place, otherwise append a fresh entry under the next id. */
  function ShowStep(ds: seq<Dialog>, lastDialogId: nat, element: Element, promise: PromiseId, options: DialogOptions): (r: Shown)
    ensures r.lastDialogId >= lastDialogId
    ensures exists i :: 0 <= i < |r.dialogs| && r.dialogs[i] == Dialog(r.id, element, true, promise, StoredOptions(options))
  {
    var stored := StoredOptions(options);
    match FindByUnique(ds, options.unique)
    case Some(i) =>
      var created := Dialog(ds[i].id, element, true, promise, stored);
      var r := Shown(MapWhere(ds, HasId(ds[i].id), _ => created), ds[i].id, lastDialogId);
      assert r.dialogs[i] == created;
      r
    case None =>
      var created := Dialog(lastDialogId + 1, element, true, promise, stored);
      var r := Shown(ds + [created], lastDialogId + 1, lastDialogId + 1);
      assert r.dialogs[|ds|] == created;
      r
  }

  /** No key match: exactly one visible entry is appended, under an id above
      every id already in the registry, and every prior entry is kept. */
  lemma ShowAppendsWhenNoKeyMatches(ds: seq<Dialog>, lastDialogId: nat, element: Element, promise: PromiseId, options: DialogOptions)
    requires options.unique.None? || forall j :: 0 <= j < |ds| ==> ds[j].options.unique != options.unique
    requires IdsWithin(ds, lastDialogId)
    ensures var r := ShowStep(ds, lastDialogId, element, promise, options);
            && r.id == lastDialogId + 1 && r.lastDialogId == r.id
            && r.dialogs == ds + [Dialog(r.id, element, true, promise, StoredOptions(options))]
            && forall d :: d in ds ==> d.id < r.id
  {
  }

  /** Key match: the matching entry keeps its position and id and is
      overwritten with the new request; the counter and all other entries stay. */
  lemma ShowReusesMatchingEntry(ds: seq<Dialog>, lastDialogId: nat, element: Element, promise: PromiseId, options: DialogOptions, i: nat)
    requires IdsIncreasing(ds)
    requires i < |ds| && options.unique.Some? && ds[i].options.unique == options.unique
    requires forall j :: 0 <= j < i ==> ds[j].options.unique != options.unique
    ensures var r := ShowStep(ds, lastDialogId, element, promise, options);
            && r.id == ds[i].id && r.lastDialogId == lastDialogId
            && r.dialogs == ds[i := Dialog(ds[i].id, element, true, promise, StoredOptions(options))]
  {
    var created := Dialog(ds[i].id, element, true, promise, StoredOptions(options));
    var found := FindByUnique(ds, options.unique);
    assert found == Some(i);
    MapWhereAtId(ds, i, _ => created);
  }

  /** showDialog keeps the registry well formed, with one more promise. */
  lemma ShowKeepsWellFormed(ds: seq<Dialog>, lastDialogId: nat, element: Element, promise: PromiseId, options: DialogOptions)
    requires WellFormed(ds, lastDialogId, promise)
    ensures var r := ShowStep(ds, lastDialogId, element, promise, options);
            WellFormed(r.dialogs, r.lastDialogId, promise + 1)
  {
    var r := ShowStep(ds, lastDialogId, element, promise, options);
    match FindByUnique(ds, options.unique)
    case Some(i) =>
      ShowReusesMatchingEntry(ds, lastDialogId, element, promise, options, i);
    case None =>
      ShowAppendsWhenNoKeyMatches(ds, lastDialogId, element, promise, options);
  }

  /** showDialog never creates a second entry with a dedup key already in use. */
  lemma ShowKeepsUniqueKeysDistinct(ds: seq<Dialog>, lastDialogId: nat, element: Element, promise: PromiseId, options: DialogOptions)
    requires IdsIncreasing(ds) && UniqueKeysDistinct(ds)
    ensures UniqueKeysDistinct(ShowStep(ds, lastDialogId, element, promise, options).dialogs)
  {
    var r := ShowStep(ds, lastDialogId, element, promise, options);
    match FindByUnique(ds, options.unique)
    case Some(i) =>
      ShowReusesMatchingEntry(ds, lastDialogId, element, promise, options, i);
    case None =>
      assert r.dialogs == ds + [Dialog(lastDialogId + 1, element, true, promise, StoredOptions(options))];
  }

  /** A freshly appended non-toast entry goes to the end of the multiple-mode
      view and is the only entry of the single-mode view. */
  lemma ShowPutsNewDialogOnTop(ds: seq<Dialog>, lastDialogId: nat, element: Element, promise: PromiseId, options: DialogOptions)
    requires options.unique.None? || forall j :: 0 <= j < |ds| ==> ds[j].options.unique != options.unique
    requires options.dialogType != Some(Toast)
    ensures var r := ShowStep(ds, lastDialogId, element, promise, options);
            var created := Dialog(r.id, element, true, promise, StoredOptions(options));
            && DialogContents(r.dialogs, true) == DialogContents(ds, true) + [created]
            && DialogContents(r.dialogs, false) == [created]
  {
    var created := Dialog(lastDialogId + 1, element, true, promise, StoredOptions(options));
    FilterAppend(ds, created, IsVisibleDialog);
  }

  /** A freshly appended toast goes to the end of the toast view and leaves the dialog view alone. */
  lemma ShowPutsNewToastLast(ds: seq<Dialog>, lastDialogId: nat, element: Element, promise: PromiseId, options: DialogOptions)
    requires options.unique.None? || forall j :: 0 <= j < |ds| ==> ds[j].options.unique != options.unique
    requires options.dialogType == Some(Toast)
    ensures var r := ShowStep(ds, lastDialogId, element, promise, options);
            && ToastContents(r.dialogs) == ToastContents(ds) + [Dialog(r.id, element, true, promise, StoredOptions(options))]
            && DialogContents(r.dialogs, true) == DialogContents(ds, true)
  {
    var created := Dialog(lastDialogId + 1, element, true, promise, StoredOptions(options));
    FilterAppend(ds, created, IsVisibleToast);
    FilterAppend(ds, created, IsVisibleDialog);
  }

  // ------------------------------------------------------------ hideDialog

  /** The registry after a hide and the effects it emitted, in order. */
  datatype Hidden = Hidden(dialogs: seq<Dialog>, effects: seq<Effect>)

  function Hide(d: Dialog): Dialog {
    d.(visible := false)
  }

  /** Whether hiding this entry steps the history back. */
  predicate HideUsesHistory(d: Dialog, control: ControlOptions, withHistory: bool) {
    !IgnoresHistory(d.options) && !control.ignoreHistory.GetOr(false) && withHistory
  }

  /** hideDialog: step the history back once unless the entry or the caller
      opts out, call the entry's dismiss callback, and mark it invisible. */
  function HideDialogStep(ds: seq<Dialog>, id: int, control: ControlOptions, withHistory: bool): (r: Hidden)
    ensures |r.dialogs| == |ds|
    ensures FindDialogById(ds, id).None? ==> r == Hidden(ds, [])
    ensures forall i :: 0 <= i < |ds| && ds[i].id == id ==> !r.dialogs[i].visible
    ensures forall i :: 0 <= i < |ds| && ds[i].id != id ==> r.dialogs[i] == ds[i]
    ensures SameSlots(ds, r.dialogs)
  {
    match FindFirst(ds, HasId(id))
    case None => Hidden(ds, [])
    case Some(i) =>
      var target := ds[i];
      var back := if HideUsesHistory(target, control, withHistory) then [HistoryGo(-1)] else [];
      var dismiss := if target.options.onDismiss then [Dismissed(target.id)] else [];
      Hidden(MapWhere(ds, HasId(id), Hide), back + dismiss)
  }

  /** Hiding a present entry changes only its visibility and emits one
      back-step exactly when history is in use, then its dismiss call. */
  lemma HidePresentEntry(ds: seq<Dialog>, i: nat, control: ControlOptions, withHistory: bool)
    requires IdsIncreasing(ds) && i < |ds|
    ensures var r := HideDialogStep(ds, ds[i].id, control, withHistory);
            && r.dialogs == ds[i := ds[i].(visible := false)]
            && r.effects == (if HideUsesHistory(ds[i], control, withHistory) then [HistoryGo(-1)] else [])
                            + (if ds[i].options.onDismiss then [Dismissed(ds[i].id)] else [])
  {
    assert HasId(ds[i].id)(ds[i]);
    MapWhereAtId(ds, i, Hide);
  }

  /** Hiding twice leaves the registry as one hide does, but the second call
      emits the same back-step and dismiss call again. */
  lemma HideTwice(ds: seq<Dialog>, id: int, control: ControlOptions, withHistory: bool)
    ensures var once := HideDialogStep(ds, id, control, withHistory);
            HideDialogStep(once.dialogs, id, control, withHistory) == once
  {
    var once := HideDialogStep(ds, id, control, withHistory);
    match FindFirst(ds, HasId(id))
    case None =>
    case Some(i) =>
      var again := FindFirst(once.dialogs, HasId(id));
      assert HasId(id)(once.dialogs[i]);
      assert again == Some(i) by {
        forall j | 0 <= j < i ensures !HasId(id)(once.dialogs[j]) {
          assert !HasId(id)(ds[j]);
        }
      }
      assert MapWhere(once.dialogs, HasId(id), Hide) == once.dialogs;
  }

  // --------------------------------------------------------- hideDialogAll

  predicate UsesHistory(d: Dialog) {
    !IgnoresHistory(d.options)
  }

  /** A visible entry that will step the history back when hidden. */
  predicate VisibleUsingHistory(d: Dialog) {
    d.visible && !IgnoresHistory(d.options)
  }

  /** A visible entry whose dismiss callback fires when it is hidden. */
  predicate DismissesOnHide(d: Dialog) {
    d.visible && d.options.onDismiss
  }

  /** hideDialogAll's `backwardDelta`: how many hide targets use history. */
  function BackwardDelta(hideTargets: seq<Dialog>): nat {
    Count(hideTargets, UsesHistory)
  }

  /** The dismiss calls hideDialogAll makes while it walks the list. */
  function DismissEffects(ds: seq<Dialog>): (r: seq<Effect>)
    ensures |r| == Count(ds, DismissesOnHide)
    ensures forall e :: e in r <==> exists i :: 0 <= i < |ds| && DismissesOnHide(ds[i]) && e == Dismissed(ds[i].id)
  {
    if ds == [] then []
    else
      var tail := DismissEffects(ds[1..]);
      assert forall e :: e in tail <==> exists i :: 1 <= i < |ds| && DismissesOnHide(ds[i]) && e == Dismissed(ds[i].id) by {
        forall e | e in tail ensures exists i :: 1 <= i < |ds| && DismissesOnHide(ds[i]) && e == Dismissed(ds[i].id) {
          var k :| 0 <= k < |ds[1..]| && DismissesOnHide(ds[1..][k]) && e == Dismissed(ds[1..][k].id);
          assert ds[k + 1] == ds[1..][k];
        }
        forall e | (exists i :: 1 <= i < |ds| && DismissesOnHide(ds[i]) && e == Dismissed(ds[i].id)) ensures e in tail {
          var k :| 1 <= k < |ds| && DismissesOnHide(ds[k]) && e == Dismissed(ds[k].id);
          assert ds[1..][k - 1] == ds[k];
        }
      }
      (if DismissesOnHide(ds[0]) then [Dismissed(ds[0].id)] else []) + tail
  }

  /** The dismiss calls come in list order: the calls for a joined list are
      the calls for its first part followed by those for its second. */
  lemma {:induction false} DismissEffectsAppend(a: seq<Dialog>, b: seq<Dialog>)
    ensures DismissEffects(a + b) == DismissEffects(a) + DismissEffects(b)
  {
    if a == [] {
      assert a + b == b;
    } else {
      assert (a + b)[0] == a[0];
      assert (a + b)[1..] == a[1..] + b;
      DismissEffectsAppend(a[1..], b);
    }
  }

  /** hideDialogAll: one aggregated back-step for the visible entries that use
      history, a dismiss call per visible entry, then every entry invisible. */
  function HideAllStep(ds: seq<Dialog>, control: ControlOptions, withHistory: bool): (r: Hidden)
    ensures |r.dialogs| == |ds|
    ensures forall i :: 0 <= i < |ds| ==> r.dialogs[i] == ds[i].(visible := false)
    ensures SameSlots(ds, r.dialogs)
  {
    var hideTargets := Filter(ds, IsVisible);
    var backwardDelta := BackwardDelta(hideTargets);
    var back := if !control.ignoreHistory.GetOr(false) && withHistory && |hideTargets| > 0 && backwardDelta != 0
                then [HistoryGo(-(backwardDelta as int))] else [];
    if |hideTargets| > 0 then Hidden(MapWhere(ds, _ => true, Hide), back + DismissEffects(ds))
    else
      assert forall i :: 0 <= i < |ds| ==> !ds[i].visible by {
        forall i | 0 <= i < |ds| ensures !ds[i].visible {
          assert ds[i] in ds;
        }
      }
      Hidden(ds, back)
  }

  /** The back-step of hideDialogAll counts exactly the visible entries that use history. */
  lemma {:induction false} BackwardDeltaCountsVisibleHistoryEntries(ds: seq<Dialog>)
    ensures BackwardDelta(Filter(ds, IsVisible)) == Count(ds, VisibleUsingHistory)
  {
    if ds != [] {
      BackwardDeltaCountsVisibleHistoryEntries(ds[1..]);
      var head := if IsVisible(ds[0]) then [ds[0]] else [];
      assert Filter(ds, IsVisible) == head + Filter(ds[1..], IsVisible);
      CountAppend(head, Filter(ds[1..], IsVisible), UsesHistory);
    }
  }

  lemma {:induction false} CountAppend(a: seq<Dialog>, b: seq<Dialog>, p: Dialog -> bool)
    ensures Count(a + b, p) == Count(a, p) + Count(b, p)
  {
    if a == [] {
      assert a + b == b;
    } else {
      assert (a + b)[0] == a[0];
      assert (a + b)[1..] == a[1..] + b;
      CountAppend(a[1..], b, p);
    }
  }

  /** The effects of hideDialogAll: a single back-step of the number of
      visible history-using entries, when there is one and history is in use,
      then one dismiss call per visible entry with a callback, in list order. */
  lemma HideAllEffects(ds: seq<Dialog>, control: ControlOptions, withHistory: bool)
    ensures var n := Count(ds, VisibleUsingHistory);
            HideAllStep(ds, control, withHistory).effects
              == (if !control.ignoreHistory.GetOr(false) && withHistory && n > 0 then [HistoryGo(-(n as int))] else [])
                 + DismissEffects(ds)
  {
    var hideTargets := Filter(ds, IsVisible);
    var n := Count(ds, VisibleUsingHistory);
    var ignore := control.ignoreHistory.GetOr(false);
    BackwardDeltaCountsVisibleHistoryEntries(ds);
    var back := if !ignore && withHistory && |hideTargets| > 0 && BackwardDelta(hideTargets) != 0
                then [HistoryGo(-(BackwardDelta(hideTargets) as int))] else [];
    if |hideTargets| == 0 {
      NothingVisibleWhenNoTargets(ds);
      assert n == 0;
      assert |DismissEffects(ds)| == 0;
      assert HideAllStep(ds, control, withHistory).effects == back;
    } else {
      assert HideAllStep(ds, control, withHistory).effects == back + DismissEffects(ds);
    }
  }

  lemma NothingVisibleWhenNoTargets(ds: seq<Dialog>)
    requires |Filter(ds, IsVisible)| == 0
    ensures forall i :: 0 <= i < |ds| ==> !ds[i].visible
  {
    forall i | 0 <= i < |ds| ensures !ds[i].visible {
      assert ds[i] in ds;
    }
  }

  /** After hideDialogAll nothing is left to hide. */
  lemma HideAllLeavesNothingVisible(ds: seq<Dialog>, control: ControlOptions, withHistory: bool)
    ensures var r := HideAllStep(ds, control, withHistory);
            Filter(r.dialogs, IsVisible) == [] && DialogContents(r.dialogs, true) == [] && ToastContents(r.dialogs) == []
  {
    var r := HideAllStep(ds, control, withHistory);
    FilterOfNoneIsEmpty(r.dialogs, IsVisible);
    FilterOfNoneIsEmpty(r.dialogs, IsVisibleDialog);
    FilterOfNoneIsEmpty(r.dialogs, IsVisibleToast);
  }

  /** Three visible dialogs, two of them exempt from history: hideDialogAll
      steps the history back once, by one entry, and hides all three. */
  lemma HideAllCountsOnlyHistoryEntries(a: Dialog, b: Dialog, c: Dialog)
    requires a.visible && b.visible && c.visible
    requires IgnoresHistory(a.options) && IgnoresHistory(b.options) && !IgnoresHistory(c.options)
    ensures var r := HideAllStep([a, b, c], ControlOptions(None), true);
            && r.effects == [HistoryGo(-1)] + DismissEffects([a, b, c])
            && r.dialogs == [a.(visible := false), b.(visible := false), c.(visible := false)]
  {
    HideAllEffects([a, b, c], ControlOptions(None), true);
    assert [a, b, c][1..] == [b, c] && [b, c][1..] == [c];
    assert Count([a, b, c], VisibleUsingHistory) == 1;
  }

  // ---------------------------------------------------------- updateDialog

  /** `{ ...dialog, ...update }` for the fields an update may carry. */
  function Merge(d: Dialog, u: DialogUpdate): Dialog {
    d.(visible := u.visible.GetOr(d.visible), options := u.options.GetOr(d.options))
  }

  datatype Updated = Updated(found: bool, dialogs: seq<Dialog>)

  /** updateDialog: merge the update into the entry with this id, reporting whether there was one. */
  function UpdateDialogStep(ds: seq<Dialog>, id: int, u: DialogUpdate): (r: Updated)
    ensures r.found <==> exists i :: 0 <= i < |ds| && ds[i].id == id
    ensures |r.dialogs| == |ds|
    ensures forall i :: 0 <= i < |ds| ==> r.dialogs[i] == if ds[i].id == id then Merge(ds[i], u) else ds[i]
    ensures SameSlots(ds, r.dialogs)
  {
    match FindFirst(ds, HasId(id))
    case None => Updated(false, ds)
    case Some(i) => Updated(true, MapWhere(ds, HasId(ds[i].id), d => Merge(d, u)))
  }

  /** A successful update touches one position and keeps the entry's id, element and promise. */
  lemma UpdateMergesAtId(ds: seq<Dialog>, i: nat, u: DialogUpdate)
    requires IdsIncreasing(ds) && i < |ds|
    ensures var r := UpdateDialogStep(ds, ds[i].id, u);
            && r == Updated(true, ds[i := Merge(ds[i], u)])
            && r.dialogs[i].id == ds[i].id && r.dialogs[i].element == ds[i].element && r.dialogs[i].resolve == ds[i].resolve
  {
    MapWhereAtId(ds, i, d => Merge(d, u));
  }

  // -------------------------------------------------------------- popstate

  /** `Number(param) || 0`: a missing or non-numeric tag reads as 0. */
  function TagDialogId(tag: TagParam): int {
    match tag
    case Number(n) => n
    case _ => 0
  }

  /** The registry after a popstate, the entry whose promise is resolved
      with an undefined result, and the new last-visible id. */
  datatype PopState = PopState(dialogs: seq<Dialog>, resolved: Option<Dialog>, lastVisibleDialogId: int)

  /** The popstate handler: on a backward step (or any step with forward
      restore) hide the last visible entry and re-show the current one. */
  function PopStateStep(ds: seq<Dialog>, lastVisibleDialogId: int, currentDialogId: int, forwardRestore: bool): (r: PopState)
    ensures r.lastVisibleDialogId == currentDialogId
    ensures |r.dialogs| == |ds|
    ensures currentDialogId >= lastVisibleDialogId && !forwardRestore ==> r.dialogs == ds && r.resolved == None
  {
    var currentDialog := FindDialogById(ds, currentDialogId);
    var lastVisibleDialog := FindDialogById(ds, lastVisibleDialogId);
    var doHistoryWork := currentDialogId < lastVisibleDialogId || forwardRestore;
    var hideLast := doHistoryWork && lastVisibleDialog.Some? && lastVisibleDialog.value.visible;
    var restoreCurrent := doHistoryWork && currentDialog.Some? && !currentDialog.value.visible;
    var afterHide := if hideLast then UpdateDialogStep(ds, lastVisibleDialogId, DialogUpdate(Some(false), None)).dialogs else ds;
    var afterRestore := if restoreCurrent then UpdateDialogStep(afterHide, currentDialogId, DialogUpdate(Some(true), None)).dialogs else afterHide;
    PopState(afterRestore, if hideLast then lastVisibleDialog else None, currentDialogId)
  }

  /** A backward step (or any step with forward restore): the last visible
      entry ends hidden and is resolved if it was showing, the current entry
      is shown again if it was hidden, every other entry is unchanged. */
  lemma PopStateReconciles(ds: seq<Dialog>, lastVisibleDialogId: int, currentDialogId: int, forwardRestore: bool)
    requires IdsIncreasing(ds)
    requires currentDialogId < lastVisibleDialogId || forwardRestore
    ensures var r := PopStateStep(ds, lastVisibleDialogId, currentDialogId, forwardRestore);
            && (forall i :: 0 <= i < |ds| ==> r.dialogs[i] == ds[i].(visible :=
                  if ds[i].id == currentDialogId && !ds[i].visible then true
                  else if ds[i].id == lastVisibleDialogId then false
                  else ds[i].visible))
            && (r.resolved.Some? <==> exists i :: 0 <= i < |ds| && ds[i].id == lastVisibleDialogId && ds[i].visible)
            && (r.resolved.Some? ==> r.resolved.value in ds && r.resolved.value.id == lastVisibleDialogId && r.resolved.value.visible)
  {
    var r := PopStateStep(ds, lastVisibleDialogId, currentDialogId, forwardRestore);
    forall i | 0 <= i < |ds| && (ds[i].id == currentDialogId || ds[i].id == lastVisibleDialogId) {
      FindDialogByIdAt(ds, i);
    }
  }

  /** Two visible history dialogs 1 and 2, with 2 last visible. Hiding 1
      steps the history back once; the popstate that follows carries tag 1,
      which reads as a backward step: dialog 2 is hidden and resolved, and
      dialog 1 is shown again. */
  lemma HideBelowTopThenPopState(a: Dialog, b: Dialog)
    requires a.id == 1 && b.id == 2 && a.visible && b.visible
    requires !IgnoresHistory(a.options) && !a.options.onDismiss
    ensures var h := HideDialogStep([a, b], 1, ControlOptions(None), true);
            var p := PopStateStep(h.dialogs, 2, 1, false);
            && h.effects == [HistoryGo(-1)]
            && h.dialogs == [a.(visible := false), b]
            && p.dialogs == [a, b.(visible := false)]
            && p.resolved == Some(b)
            && p.lastVisibleDialogId == 1
  {
    HidePresentEntry([a, b], 0, ControlOptions(None), true);
    var h := HideDialogStep([a, b], 1, ControlOptions(None), true);
    PopStateReconciles(h.dialogs, 2, 1, false);
    var p := PopStateStep(h.dialogs, 2, 1, false);
    assert p.dialogs[0] == a && p.dialogs[1] == b.(visible := false);
    FindDialogByIdAt(h.dialogs, 1);
  }

  /** Three visible history dialogs 1, 2 and 3, with 3 last visible. Hiding 1
      steps the history back once, onto the entry of 2; dialog 2 is still
      visible, so the popstate only hides and resolves 3, and 1 stays hidden. */
  lemma HideBottomOfThreeThenPopState(a: Dialog, b: Dialog, c: Dialog)
    requires a.id == 1 && b.id == 2 && c.id == 3 && a.visible && b.visible && c.visible
    requires !IgnoresHistory(a.options) && !a.options.onDismiss
    ensures var h := HideDialogStep([a, b, c], 1, ControlOptions(None), true);
            var p := PopStateStep(h.dialogs, 3, 2, false);
            && h.effects == [HistoryGo(-1)]
            && p.dialogs == [a.(visible := false), b, c.(visible := false)]
            && p.resolved == Some(c)
  {
    var ds := [a, b, c];
    HidePresentEntry(ds, 0, ControlOptions(None), true);
    var h := HideDialogStep(ds, 1, ControlOptions(None), true);
    var hidden := [a.(visible := false), b, c];
    assert h.dialogs == ds[0 := a.(visible := false)] == hidden;
    assert IdsIncreasing(hidden);
    PopStateReconciles(hidden, 3, 2, false);
    var p := PopStateStep(hidden, 3, 2, false);
    assert p.dialogs[0] == a.(visible := false) && p.dialogs[1] == b && p.dialogs[2] == c.(visible := false);
    assert p.dialogs == [a.(visible := false), b, c.(visible := false)];
    FindDialogByIdAt(hidden, 2);
  }

  /** A dialog 1 and then a toast 2 are showing; the toast pushed no history
      entry but became last visible. A back step to the entry without a tag
      hides and resolves the toast and leaves dialog 1 showing. */
  lemma BackStepPastToastLeavesDialogShowing(d: Dialog, t: Dialog)
    requires d.id == 1 && t.id == 2 && d.visible && t.visible
    requires !IsToast(d) && IsToast(t)
    ensures var p := PopStateStep([d, t], 2, TagDialogId(Absent), false);
            && p.dialogs == [d, t.(visible := false)]
            && p.resolved == Some(t)
            && DialogContents(p.dialogs, true) == [d]
            && p.lastVisibleDialogId == 0
  {
    PopStateReconciles([d, t], 2, 0, false);
    var p := PopStateStep([d, t], 2, 0, false);
    assert p.dialogs[0] == d && p.dialogs[1] == t.(visible := false);
    assert p.dialogs == [d, t.(visible := false)];
    FindDialogByIdAt([d, t], 1);
    var rest := [t.(visible := false)];
    assert [d, t.(visible := false)][1..] == rest && rest[1..] == [];
    assert Filter(rest, IsVisibleDialog) == [];
    assert Filter(p.dialogs, IsVisibleDialog) == [d] + Filter(rest, IsVisibleDialog);
  }

  // ------------------------------------------------------- scroll blocking

  /** The page's overflow style (`None` once the property is removed) and the
      value saved before scrolling was blocked. */
  datatype ScrollState = ScrollState(overflow: Option<string>, beforeOverflow: string)

  /** What `style.overflow` reads: an absent property reads as "". */
  function ReadOverflow(o: Option<string>): string {
    o.GetOr("")
  }

  /** The scroll-blocking effect for a given count of visible non-toast dialogs. */
  function ScrollBlocking(visibleDialogCount: nat, s: ScrollState): (r: ScrollState)
    ensures visibleDialogCount > 0 ==> r.overflow == Some("hidden")
    ensures visibleDialogCount > 0 && ReadOverflow(s.overflow) != "hidden" ==> r.beforeOverflow == ReadOverflow(s.overflow)
    ensures visibleDialogCount > 0 && ReadOverflow(s.overflow) == "hidden" ==> r.beforeOverflow == s.beforeOverflow
    ensures s.beforeOverflow != "hidden" ==> r.beforeOverflow != "hidden"
    ensures visibleDialogCount == 0 ==> r.beforeOverflow == s.beforeOverflow && ReadOverflow(r.overflow) == s.beforeOverflow
    ensures visibleDialogCount == 0 && s.beforeOverflow == "" ==> r.overflow == None
  {
    if visibleDialogCount > 0 then
      var current := ReadOverflow(s.overflow);
      ScrollState(Some("hidden"), if current != "hidden" then current else s.beforeOverflow)
    else if s.beforeOverflow != "" then ScrollState(Some(s.beforeOverflow), s.beforeOverflow)
    else ScrollState(None, s.beforeOverflow)
  }

  /** Re-running the effect with the same count changes nothing more. */
  lemma ScrollBlockingIdempotent(visibleDialogCount: nat, s: ScrollState)
    ensures ScrollBlocking(visibleDialogCount, ScrollBlocking(visibleDialogCount, s)) == ScrollBlocking(visibleDialogCount, s)
  {
  }

  /** Blocking and then unblocking restores the overflow the page had. */
  lemma BlockThenUnblockRestores(visibleDialogCount: nat, s: ScrollState)
    requires visibleDialogCount > 0 && ReadOverflow(s.overflow) != "hidden"
    ensures ReadOverflow(ScrollBlocking(0, ScrollBlocking(visibleDialogCount, s)).overflow) == ReadOverflow(s.overflow)
  {
  }

  // -------------------------------------------------------------- promises

  /** Resolving a promise: the first resolution sticks, later ones are ignored. */
  function Settle(promises: seq<Option<ShowDialogResult>>, p: PromiseId, v: ShowDialogResult): (r: seq<Option<ShowDialogResult>>)
    requires p < |promises|
    ensures |r| == |promises| && r[p].Some?
    ensures forall q :: 0 <= q < |promises| && q != p ==> r[q] == promises[q]
    ensures promises[p].Some? ==> r == promises
    ensures promises[p].None? ==> r[p] == Some(v)
  {
    if promises[p].Some? then promises else promises[p := Some(v)]
  }

  /** A second resolution of the same promise has no effect. */
  lemma SettleFirstWriteWins(promises: seq<Option<ShowDialogResult>>, p: PromiseId, first: ShowDialogResult, second: ShowDialogResult)
    requires p < |promises|
    ensures Settle(Settle(promises, p, first), p, second) == Settle(promises, p, first)
  {
  }

  // -------------------------------------------------------------- wrappers

  /** confirm and alert spread the caller's control options under their own kind. */
  function WrapperOptions(kind: DialogType, controlOptions: Option<ControlOptions>): (o: DialogOptions)
    ensures o.dialogType == Some(kind) && o.unique.None? && !o.onDismiss
    ensures IgnoresHistory(o) <==> controlOptions.Some? && controlOptions.value.ignoreHistory == Some(true)
  {
    DialogOptions(None, Some(kind), if controlOptions.Some? then controlOptions.value.ignoreHistory else None, false)
  }

  /** toast's options: its dedup key, the toast kind, and history ignored
      unless the caller passes control options of its own. */
  function ToastOptions(unique: Option<string>, controlOptions: Option<ControlOptions>): (o: DialogOptions)
    ensures o.dialogType == Some(Toast) && o.unique == unique && !o.onDismiss
    ensures controlOptions.None? ==> IgnoresHistory(o)
    ensures controlOptions.Some? ==> o.ignoreHistory == controlOptions.value.ignoreHistory
  {
    match controlOptions
    case None => DialogOptions(unique, Some(Toast), Some(true), false)
    case Some(c) => DialogOptions(unique, Some(Toast), c.ignoreHistory, false)
  }

  /** Toast "x", then toasts "y" and "z" under the dedup key "slot1": two
      toast entries remain, and the keyed one shows "z" under the id "y" got. */
  lemma ToastDedupScenario()
    ensures var x := ToastElement(ToastProps("x", None));
            var y := ToastElement(ToastProps("y", None));
            var z := ToastElement(ToastProps("z", None));
            var s1 := ShowStep([], 0, x, 0, ToastOptions(None, None));
            var s2 := ShowStep(s1.dialogs, s1.lastDialogId, y, 1, ToastOptions(Some("slot1"), None));
            var s3 := ShowStep(s2.dialogs, s2.lastDialogId, z, 2, ToastOptions(Some("slot1"), None));
            && |s3.dialogs| == 2 && ToastContents(s3.dialogs) == s3.dialogs
            && s3.dialogs[0].element == x && s3.dialogs[1].element == z
            && s3.id == s2.id == 2 && s3.lastDialogId == 2
  {
    var x := ToastElement(ToastProps("x", None));
    var y := ToastElement(ToastProps("y", None));
    var z := ToastElement(ToastProps("z", None));
    var s1 := ShowStep([], 0, x, 0, ToastOptions(None, None));
    ShowAppendsWhenNoKeyMatches([], 0, x, 0, ToastOptions(None, None));
    var s2 := ShowStep(s1.dialogs, s1.lastDialogId, y, 1, ToastOptions(Some("slot1"), None));
    ShowAppendsWhenNoKeyMatches(s1.dialogs, s1.lastDialogId, y, 1, ToastOptions(Some("slot1"), None));
    ShowReusesMatchingEntry(s2.dialogs, s2.lastDialogId, z, 2, ToastOptions(Some("slot1"), None), 1);
    var s3 := ShowStep(s2.dialogs, s2.lastDialogId, z, 2, ToastOptions(Some("slot1"), None));
    assert s3.dialogs[1..] == [s3.dialogs[1]];
  }
}
