# Dialog registry and lifecycle, modelled in Dafny

This project models the core of a React dialog library: the dialog provider
(`src/component/context/dialog-context-provider.tsx`) and the per-dialog action
provider (`src/component/context/dialog-action-context-provider.tsx`).

The provider keeps an ordered registry of dialog entries. Each entry has:

- an id handed out by a counter;
- the element it renders;
- a visibility flag;
- the resolver of the promise its `showDialog` call returned;
- its options: a dedup key (`unique`), a kind (confirm, alert, toast or custom),
  `ignoreHistory` and an `onDismiss` callback.

On this registry the provider implements these operations:

- `showDialog` reuses the entry with the same dedup key, or appends a new entry;
- `hideDialog` and `hideDialogAll`;
- `updateDialog` and `findDialogById`;
- the `confirm`, `alert` and `toast` wrappers;
- the two presentation views, dialogs and toasts;
- the scroll-blocking effect;
- the history integration, which pushes history, steps back and reconciles on
  `popstate`.

The action provider adds `hide` and `hideAfter` for one dialog id, with at most
one pending hide timer.

Layout:

- `types.dfy` (module `DialogTypes`) holds the value types. The host's side
  effects are values of `Effect`, appended to a log:
  - a history push;
  - a history step by a delta;
  - a call of a dismiss callback;
  - a call of the scroll-blocking interception callback.
- `registry.dfy` (module `DialogRegistry`) holds the list operations the
  provider builds on and the two views. These are `find`, `findLast`, `filter`,
  a counting `reduce`, and a `map` that rewrites the entries matching a test.
- `lifecycle.dfy` (module `DialogLifecycle`) holds one pure step function per
  operation, plus the lemmas about them. Each step returns the new registry and
  the effects it emits.
- `context.dfy` (module `DialogContext`) holds the class
  `DialogContextProvider`. Its fields are the provider's state: the registry,
  the id counter, the last-visible id, the saved overflow, the page's
  overflow, a promise table and the effect log. Its methods change these fields
  step by step, as the source does. Each method is proved equal to its step
  function, and each keeps the invariant `Valid`: ids strictly increasing,
  every id within the counter, every entry bound to a promise that exists, and
  a saved overflow that is never `"hidden"`.
- `action.dfy` (module `DialogAction`) holds the class
  `DialogActionContextProvider`, with the pending-timer slot and a log of timer
  requests.

A promise is modelled as a slot in the provider's promise table. Resolving it
writes the slot once; a later resolution is ignored, as for a JavaScript
promise.

The model follows the code in these details, which a reader might not expect:

- Hiding an entry that is already hidden still calls its dismiss callback and
  steps the history back again (`HideTwice`).
- `hide` does not cancel a pending `hideAfter` timer. When that timer fires
  after a `hide`, the dialog is hidden a second time, with the repeated
  dismiss call and back-step that `HideTwice` describes.
- A hide that steps the history back is followed by a popstate carrying the
  tag of the history entry below the top. When that id is below the last
  visible id, the last visible dialog is hidden and resolved, and the dialog
  with the tag's id is shown again if it is hidden. A tag at or above the last
  visible id counts as a forward step, which does nothing without forward
  restore. With two dialogs shown one after the other, hiding the lower one
  brings it back and hides the upper one (`HideBelowTopThenPopState`). With
  three, hiding the lowest hides the top one and leaves the lowest hidden
  (`HideBottomOfThreeThenPopState`).
- Every show records its id as last visible, including a toast that pushes no
  history entry. A back step past such a toast hides and resolves the toast
  and leaves the dialog below it showing
  (`BackStepPastToastLeavesDialogShowing`).
- `hideDialog` and `hideDialogAll` do not resolve any promise. Only `hide`,
  `hideAfter` and a popstate reconciliation resolve one.
- `hideAfter(0)` still goes through a timer; nothing is hidden until it fires.
- Reusing an entry by its dedup key binds the entry to the new promise. The
  old promise stays pending.
- The entry fields `hash` and `order` are never assigned.
- The id counter is a module-level variable in the source, shared by every
  provider in the page. The model keeps it as a field of the provider and
  takes its value at mount as a constructor parameter.

## Model

| member | source | states |
|---|---|---|
| DialogRegistry.FindFirst | src/component/context/dialog-context-provider.tsx:108-109 | the index returned satisfies the test and no earlier entry does; none means no entry satisfies it |
| DialogRegistry.FindLast | src/component/context/dialog-context-provider.tsx:276 | the index returned satisfies the test and no later entry does; none means no entry satisfies it |
| DialogRegistry.Filter | src/component/context/dialog-context-provider.tsx:190 | an entry is in the result exactly when it is in the list and passes the test; the result is no longer than the list |
| DialogRegistry.Count | src/component/context/dialog-context-provider.tsx:191-193 | the count is at most the list length, and it is zero exactly when no entry passes the test |
| DialogRegistry.MapWhere | src/component/context/dialog-context-provider.tsx:166-176 | length is kept; each position is rewritten exactly when its entry matches the test |
| DialogRegistry.FindDialogById | src/component/context/dialog-context-provider.tsx:301-306 | found exactly when some entry has the id; the entry found is in the registry and has that id |
| DialogRegistry.DialogContents | src/component/context/dialog-context-provider.tsx:262-287 | only visible non-toast entries are shown; single mode shows at most one; multiple mode shows every one |
| DialogRegistry.ToastContents | src/component/context/dialog-context-provider.tsx:289-299 | an entry is shown exactly when it is a visible toast |
| DialogRegistry.SameSlotsKeepWellFormed | src/component/context/dialog-context-provider.tsx:166-177 | rewriting entries without touching ids or promises keeps the registry invariant |
| DialogRegistry.FilterAppend | src/component/context/dialog-context-provider.tsx:265-266 | the views keep insertion order: appending an entry appends it to the filtered view when it passes |
| DialogRegistry.CountIsFilterLength | src/component/context/dialog-context-provider.tsx:337-340 | the reduce-style count equals the length of the filtered list |
| DialogRegistry.FilterOfNoneIsEmpty | src/component/context/dialog-context-provider.tsx:190 | a filter that no entry passes is empty |
| DialogRegistry.VisibleCountIsViewSize | src/component/context/dialog-context-provider.tsx:337-342 | scroll blocking counts exactly the entries the multiple-mode dialog view shows |
| DialogRegistry.SingleModeShowsLastOfMultiple | src/component/context/dialog-context-provider.tsx:262-287 | single mode shows exactly the last entry of the multiple-mode view, or nothing |
| DialogRegistry.ViewsDisjoint | src/component/context/dialog-context-provider.tsx:266 | no entry appears in both the dialog view and the toast view |
| DialogRegistry.MapWhereAtId | src/component/context/dialog-context-provider.tsx:118-125 | with unique ids, rewriting by id changes exactly the entry at that position |
| DialogRegistry.FindDialogByIdAt | src/component/context/dialog-context-provider.tsx:303 | with unique ids, looking up an entry's id finds that entry |
| DialogLifecycle.FindByUnique | src/component/context/dialog-context-provider.tsx:108-109 | no key means no match; a match is the first entry carrying the key; none means no entry carries it |
| DialogLifecycle.ShowStep | src/component/context/dialog-context-provider.tsx:107-140 | the counter never decreases, and the registry afterwards holds a visible entry with the new element, promise and options under the returned id |
| DialogLifecycle.ShowAppendsWhenNoKeyMatches | src/component/context/dialog-context-provider.tsx:127-140 | with no key match, exactly one entry is appended under counter+1, which is above every existing id, and the counter becomes that id |
| DialogLifecycle.ShowReusesMatchingEntry | src/component/context/dialog-context-provider.tsx:108-126 | on a key match the first matching entry is overwritten in place, keeps its id, and the counter is unchanged |
| DialogLifecycle.ShowKeepsWellFormed | src/component/context/dialog-context-provider.tsx:107-140 | show keeps ids increasing and within the counter, and every entry bound to an existing promise |
| DialogLifecycle.ShowKeepsUniqueKeysDistinct | src/component/interface/abstract-dialog-interfaces.ts:14 | show never creates a second entry carrying a dedup key already in use |
| DialogLifecycle.ShowPutsNewDialogOnTop | src/component/context/dialog-context-provider.tsx:137-139 | a newly appended dialog goes to the end of the multiple-mode view and is the whole single-mode view |
| DialogLifecycle.ShowPutsNewToastLast | src/component/context/dialog-context-provider.tsx:137-139 | a newly appended toast goes to the end of the toast view; the dialog view is unchanged |
| DialogLifecycle.ToastDedupScenario | src/component/context/dialog-context-provider.tsx:249-257 | toast x, then toasts y and z under one key: two toast entries remain, and the keyed one shows z under the id y got |
| DialogLifecycle.HideDialogStep | src/component/context/dialog-context-provider.tsx:152-185 | an unknown id changes nothing and emits nothing; entries with the id become invisible; every other entry is unchanged |
| DialogLifecycle.HidePresentEntry | src/component/context/dialog-context-provider.tsx:155-177 | hiding a present entry only clears its visibility, and emits one back-step exactly when history is in use, then its dismiss call |
| DialogLifecycle.HideTwice | src/component/context/dialog-context-provider.tsx:155-177 | hiding an already-hidden entry gives the same registry and emits the same back-step and dismiss call again |
| DialogLifecycle.DismissEffects | src/component/context/dialog-context-provider.tsx:206-216 | one dismiss call per visible entry that has a callback, and no other calls |
| DialogLifecycle.DismissEffectsAppend | src/component/context/dialog-context-provider.tsx:207-211 | the dismiss calls come in list order: those for a joined list are those of its first part, then those of its second |
| DialogLifecycle.HideAllStep | src/component/context/dialog-context-provider.tsx:187-224 | every entry becomes invisible and nothing else about it changes |
| DialogLifecycle.BackwardDeltaCountsVisibleHistoryEntries | src/component/context/dialog-context-provider.tsx:190-193 | the back-step delta counts exactly the visible entries that use history |
| DialogLifecycle.CountAppend | src/component/context/dialog-context-provider.tsx:191-193 | the count of two lists joined is the sum of their counts |
| DialogLifecycle.HideAllEffects | src/component/context/dialog-context-provider.tsx:190-217 | a single back-step by the number of visible history entries, when there is one and history is in use, then the dismiss calls |
| DialogLifecycle.NothingVisibleWhenNoTargets | src/component/context/dialog-context-provider.tsx:205 | no hide targets means no entry is visible |
| DialogLifecycle.HideAllLeavesNothingVisible | src/component/context/dialog-context-provider.tsx:205-217 | after hide-all, nothing is visible and both views are empty |
| DialogLifecycle.HideAllCountsOnlyHistoryEntries | src/component/context/dialog-context-provider.tsx:191-197 | three visible entries, two of them exempt from history: one back-step, by one entry |
| DialogLifecycle.UpdateDialogStep | src/component/context/dialog-context-provider.tsx:308-327 | reports found exactly when the id exists; the update is merged into the entries with that id; every other entry is unchanged |
| DialogLifecycle.UpdateMergesAtId | src/component/context/dialog-context-provider.tsx:310-321 | a successful update touches one position and keeps that entry's id, element and promise |
| DialogLifecycle.PopStateStep | src/component/context/dialog-context-provider.tsx:362-393 | the last-visible id becomes the tag's id; a forward step without forward restore changes no entry and resolves nothing |
| DialogLifecycle.PopStateReconciles | src/component/context/dialog-context-provider.tsx:367-392 | on a backward step, or with forward restore: the visible last entry is hidden and resolved; a hidden current entry is shown again; no other entry changes |
| DialogLifecycle.ScrollBlocking | src/component/context/dialog-context-provider.tsx:337-354 | visible dialogs mean overflow is hidden, and the saved value becomes the current overflow exactly when that is not "hidden" (so it is never "hidden"); none means the saved value is restored, or the property is removed when nothing was saved |
| DialogLifecycle.HideBelowTopThenPopState | src/component/context/dialog-context-provider.tsx:155-392 | with dialogs 1 and 2 visible and 2 last visible, hiding 1 steps back once (lines 155-158); the popstate with tag 1 then hides and resolves 2, shows 1 again and makes 1 last visible (lines 366-392) |
| DialogLifecycle.HideBottomOfThreeThenPopState | src/component/context/dialog-context-provider.tsx:155-392 | with dialogs 1, 2 and 3 visible and 3 last visible, hiding 1 steps back once (lines 155-158); the popstate with tag 2 hides and resolves 3 and leaves 1 hidden, since 2 is already visible (lines 366-392) |
| DialogLifecycle.BackStepPastToastLeavesDialogShowing | src/component/context/dialog-context-provider.tsx:145-392 | a toast shown after dialog 1 becomes last visible without a history entry (line 145); a back step with no tag hides and resolves the toast, and dialog 1 stays in the dialog view (lines 366-392) |
| DialogLifecycle.ScrollBlockingIdempotent | src/component/context/dialog-context-provider.tsx:337-356 | re-running the effect with the same count changes nothing |
| DialogLifecycle.BlockThenUnblockRestores | src/component/context/dialog-context-provider.tsx:342-354 | blocking and then unblocking gives the page the overflow it had |
| DialogLifecycle.Settle | src/component/context/dialog-context-provider.tsx:91-95 | resolving fills only its own slot, and only the first time |
| DialogLifecycle.SettleFirstWriteWins | src/component/context/dialog-context-provider.tsx:91-95 | a second resolution of a promise has no effect |
| DialogLifecycle.WrapperOptions | src/component/context/dialog-context-provider.tsx:229-232 | confirm and alert store their own kind, no dedup key and no dismiss callback; history is ignored exactly when the caller asks |
| DialogLifecycle.ToastOptions | src/component/context/dialog-context-provider.tsx:250-257 | toast stores the toast kind and the caller's key; without control options it ignores history |
| DialogContext.DialogContextProvider.constructor | src/component/context/dialog-context-provider.tsx:54-72 | empty registry, last-visible id 0, nothing saved, with the invariant established |
| DialogContext.DialogContextProvider.ShowDialog | src/component/context/dialog-context-provider.tsx:83-150 | a new pending promise; the registry and counter as ShowStep gives them; a history push unless ignored; the shown id becomes last visible; the invariant is kept |
| DialogContext.DialogContextProvider.HideDialog | src/component/context/dialog-context-provider.tsx:152-185 | registry and effects as HideDialogStep gives them; no promise, counter or overflow changes; the invariant is kept |
| DialogContext.DialogContextProvider.HideDialogAll | src/component/context/dialog-context-provider.tsx:187-224 | registry and effects as HideAllStep gives them; no promise changes; the invariant is kept |
| DialogContext.DialogContextProvider.FindDialogById | src/component/context/dialog-context-provider.tsx:301-306 | found exactly when the id is registered; the entry found is the one with that id, and its promise exists |
| DialogContext.DialogContextProvider.UpdateDialog | src/component/context/dialog-context-provider.tsx:308-327 | result and registry as UpdateDialogStep gives them; nothing else changes |
| DialogContext.DialogContextProvider.ResolvePromise | src/component/context/dialog-context-provider.tsx:91-95 | the promise table as Settle gives it; nothing else changes |
| DialogContext.DialogContextProvider.ApplyScrollBlocking | src/component/context/dialog-context-provider.tsx:329-356 | with an interception callback, that callback gets both views and the overflow is untouched; otherwise the overflow as ScrollBlocking gives it |
| DialogContext.DialogContextProvider.OnPopState | src/component/context/dialog-context-provider.tsx:358-399 | with history on, the registry and last-visible id as PopStateStep gives them, and the hidden entry's promise is settled with an undefined result; with history off, nothing changes |
| DialogContext.DialogContextProvider.Confirm | src/component/context/dialog-context-provider.tsx:226-236 | throws and changes nothing without a Confirm renderer; otherwise shows a confirm entry |
| DialogContext.DialogContextProvider.Alert | src/component/context/dialog-context-provider.tsx:238-247 | throws and changes nothing without an Alert renderer; otherwise shows an alert entry |
| DialogContext.DialogContextProvider.Toast | src/component/context/dialog-context-provider.tsx:249-260 | throws and changes nothing without a Toast renderer; otherwise shows a toast entry, with no history push when no control options are given |
| DialogAction.DialogActionContextProvider.constructor | src/component/context/dialog-action-context-provider.tsx:16-18 | bound to one id and one provider, with no pending timer |
| DialogAction.DialogActionContextProvider.Hide | src/component/context/dialog-action-context-provider.tsx:20-32 | the promise is settled only if the dialog is found, then hidden as HideDialogStep gives it with default options; an unknown id changes nothing |
| DialogAction.DialogActionContextProvider.HideAfter | src/component/context/dialog-action-context-provider.tsx:34-53 | a pending timer is cleared first; exactly one timer is pending afterwards, carrying the latest result |
| DialogAction.DialogActionContextProvider.FireHideTimer | src/component/context/dialog-action-context-provider.tsx:40-50 | the timer does what hide does, with the pending result, and empties the slot |

## Left out

- Rendering is not modelled. This covers JSX, the dialog and toast containers,
  the fragments and keys, and wrapping each entry in an action provider. The
  views are modelled as the lists of entries they would render.
- The browser history and URL are left out. A history push or step is a
  logged effect. The history search parameter key is not modelled. The popstate
  handler receives the parsed tag (absent, not a number, or an integer)
  instead of reading the location.
- Fractional tag values and integers too large for a double are not modelled.
  The tag is taken to be absent, non-numeric or an integer.
- The asynchronous parts are left out:
  - `showDialog`'s one-millisecond poll that waits for the resolver is not modelled.
  - The promise that `hideDialog` and `hideDialogAll` wait on until the next
    popstate (`backPromiseResolver`) is not modelled. Each operation commits at
    once.
  - React's batching of state updates and stale closures over `dialogs` are not
    modelled. Each operation reads the committed registry.
- Timers are left out. `hideAfter` records a set-timeout request, and the timer
  firing is the separate method `FireHideTimer`. The delay is kept as a value
  but has no meaning in the model.
- Each dismiss callback and the scroll-blocking interception callback are
  logged as an effect. Their bodies are code outside the model.
- `hideDialogAll` calls the dismiss callbacks inside a state updater over the
  pending list. The model calls them over the committed registry.
- Only the `visible` and `options` fields an update carries are merged. An
  update that sets `visible` or `options` explicitly to `undefined` is not
  modelled. With `visible: undefined`, the spread stores `undefined`, and the
  entry drops out of every view.
- `DialogContext.DialogContextProvider.Confirm`: returns the promise, not the
  confirm result that `confirm` extracts once the promise settles.
- `DialogContext.DialogContextProvider.Alert`: returns the promise, not a
  promise that waits for the alert to settle.
- The props of each dialog kind are modelled as plain fields. Toast props are a
  message and an optional duration. `src/component/interface/alert-interfaces.ts`
  is not part of this model: alert props are taken to be a title and a message.
- `selectComponent`, the default content container, the hooks and the
  example application are outside the modelled core.
