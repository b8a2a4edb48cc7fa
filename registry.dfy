/** The ordered dialog list and the list operations the provider builds on:
    find, findLast, filter, count (reduce), map-where, and the two views. */
module DialogRegistry {
  import opened DialogTypes

  /** Every id occurs at most once, and ids grow along the list. */
  ghost predicate IdsIncreasing(ds: seq<Dialog>) {
    forall i, j :: 0 <= i < j < |ds| ==> ds[i].id < ds[j].id
  }

  /** Every id was handed out by a counter that has reached `last`. */
  ghost predicate IdsWithin(ds: seq<Dialog>, last: nat) {
    forall i :: 0 <= i < |ds| ==> 1 <= ds[i].id <= last
  }

  /** The registry invariant the provider keeps: increasing ids handed out
      by the counter, each entry bound to a promise that exists. */
  ghost predicate WellFormed(ds: seq<Dialog>, lastDialogId: nat, promiseCount: nat) {
    && IdsIncreasing(ds)
    && IdsWithin(ds, lastDialogId)
    && forall i :: 0 <= i < |ds| ==> ds[i].resolve < promiseCount
  }

  /** `b` rewrites entries of `a` without touching their ids or promises. */
  ghost predicate SameSlots(a: seq<Dialog>, b: seq<Dialog>) {
    |a| == |b| && forall i :: 0 <= i < |a| ==> a[i].id == b[i].id && a[i].resolve == b[i].resolve
  }

  lemma SameSlotsKeepWellFormed(a: seq<Dialog>, b: seq<Dialog>, lastDialogId: nat, promiseCount: nat)
    requires WellFormed(a, lastDialogId, promiseCount) && SameSlots(a, b)
    ensures WellFormed(b, lastDialogId, promiseCount)
  {
  }

  /** No two entries carry the same dedup key. */
  ghost predicate UniqueKeysDistinct(ds: seq<Dialog>) {
    forall i, j :: 0 <= i < j < |ds| && ds[i].options.unique.Some? ==> ds[i].options.unique != ds[j].options.unique
  }

  function HasId(id: int): Dialog -> bool {
    (d: Dialog) => d.id == id
  }

  predicate IsVisible(d: Dialog) {
    d.visible
  }

  /** The non-toast entries the dialog channel shows. */
  predicate IsVisibleDialog(d: Dialog) {
    d.visible && !IsToast(d)
  }

  predicate IsVisibleToast(d: Dialog) {
    d.visible && IsToast(d)
  }

  /** Index of the first entry satisfying `p`, as `Array.prototype.find` scans. */
  function FindFirst(ds: seq<Dialog>, p: Dialog -> bool): (r: Option<nat>)
    ensures r.Some? ==> r.value < |ds| && p(ds[r.value])
    ensures r.Some? ==> forall j :: 0 <= j < r.value ==> !p(ds[j])
    ensures r.None? ==> forall j :: 0 <= j < |ds| ==> !p(ds[j])
  {
    if ds == [] then None
    else if p(ds[0]) then Some(0)
    else match FindFirst(ds[1..], p)
      case None => None
      case Some(k) => Some(k + 1)
  }

  /** Index of the last entry satisfying `p`, as `Array.prototype.findLast` scans. */
  function FindLast(ds: seq<Dialog>, p: Dialog -> bool): (r: Option<nat>)
    ensures r.Some? ==> r.value < |ds| && p(ds[r.value])
    ensures r.Some? ==> forall j :: r.value < j < |ds| ==> !p(ds[j])
    ensures r.None? ==> forall j :: 0 <= j < |ds| ==> !p(ds[j])
  {
    if ds == [] then None
    else if p(ds[|ds| - 1]) then Some(|ds| - 1)
    else FindLast(ds[..|ds| - 1], p)
  }

  /** The entries satisfying `p`, in list order. */
  function Filter(ds: seq<Dialog>, p: Dialog -> bool): (r: seq<Dialog>)
    ensures |r| <= |ds|
    ensures forall d :: d in r <==> d in ds && p(d)
  {
    if ds == [] then []
    else (if p(ds[0]) then [ds[0]] else []) + Filter(ds[1..], p)
  }

  /** The number of entries satisfying `p`, as the provider's `reduce` counts. */
  function Count(ds: seq<Dialog>, p: Dialog -> bool): (n: nat)
    ensures n <= |ds|
    ensures n == 0 <==> forall i :: 0 <= i < |ds| ==> !p(ds[i])
  {
    if ds == [] then 0
    else (if p(ds[0]) then 1 else 0) + Count(ds[1..], p)
  }

  /** `ds.map(d => p(d) ? f(d) : d)`: entries satisfying `p` are rewritten by `f`. */
  function MapWhere(ds: seq<Dialog>, p: Dialog -> bool, f: Dialog -> Dialog): (r: seq<Dialog>)
    ensures |r| == |ds|
    ensures forall i :: 0 <= i < |ds| ==> r[i] == if p(ds[i]) then f(ds[i]) else ds[i]
  {
    if ds == [] then []
    else [if p(ds[0]) then f(ds[0]) else ds[0]] + MapWhere(ds[1..], p, f)
  }

  /** findDialogById: the first entry with this id. */
  function FindDialogById(ds: seq<Dialog>, id: int): (r: Option<Dialog>)
    ensures r.Some? <==> exists i :: 0 <= i < |ds| && ds[i].id == id
    ensures r.Some? ==> r.value in ds && r.value.id == id
  {
    match FindFirst(ds, HasId(id))
    case Some(i) => Some(ds[i])
    case None => None
  }

  /** The dialog channel's view: every visible non-toast entry in multiple
      mode, only the last of them in single mode. */
  function DialogContents(ds: seq<Dialog>, visibleMultipleDialog: bool): (r: seq<Dialog>)
    ensures forall d :: d in r ==> d in ds && IsVisibleDialog(d)
    ensures !visibleMultipleDialog ==> |r| <= 1
    ensures visibleMultipleDialog ==> forall d :: d in ds && IsVisibleDialog(d) ==> d in r
  {
    if visibleMultipleDialog then Filter(ds, IsVisibleDialog)
    else match FindLast(ds, IsVisibleDialog)
      case Some(i) => [ds[i]]
      case None => []
  }

  /** The toast channel's view: every visible toast entry. */
  function ToastContents(ds: seq<Dialog>): (r: seq<Dialog>)
    ensures forall d :: d in r <==> d in ds && IsVisibleToast(d)
  {
    Filter(ds, IsVisibleToast)
  }

  /** The scroll-blocking effect's count of visible non-toast entries. */
  function VisibleDialogCount(ds: seq<Dialog>): nat {
    Count(ds, IsVisibleDialog)
  }

  // ---------------------------------------------------------------- lemmas

  /** Filtering distributes over appending one entry: the view keeps list order. */
  lemma {:induction false} FilterAppend(ds: seq<Dialog>, d: Dialog, p: Dialog -> bool)
    ensures Filter(ds + [d], p) == Filter(ds, p) + (if p(d) then [d] else [])
  {
    if ds != [] {
      assert (ds + [d])[1..] == ds[1..] + [d];
      FilterAppend(ds[1..], d, p);
    }
  }

  /** The reduce-style count equals the length of the filtered list. */
  lemma {:induction false} CountIsFilterLength(ds: seq<Dialog>, p: Dialog -> bool)
    ensures Count(ds, p) == |Filter(ds, p)|
  {
    if ds != [] {
      CountIsFilterLength(ds[1..], p);
    }
  }

  /** A filter that nothing passes is empty. */
  lemma {:induction false} FilterOfNoneIsEmpty(ds: seq<Dialog>, p: Dialog -> bool)
    requires forall i :: 0 <= i < |ds| ==> !p(ds[i])
    ensures Filter(ds, p) == []
  {
    if ds != [] {
      FilterOfNoneIsEmpty(ds[1..], p);
    }
  }

  /** The scroll-blocking count is the size of the multiple-mode dialog view. */
  lemma VisibleCountIsViewSize(ds: seq<Dialog>)
    ensures VisibleDialogCount(ds) == |DialogContents(ds, true)|
  {
    CountIsFilterLength(ds, IsVisibleDialog);
  }

  /** Single mode shows exactly the last entry of the multiple-mode view. */
  lemma {:induction false} SingleModeShowsLastOfMultiple(ds: seq<Dialog>)
    ensures var all := DialogContents(ds, true);
            DialogContents(ds, false) == if all == [] then [] else [all[|all| - 1]]
  {
    if ds != [] {
      var init, x := ds[..|ds| - 1], ds[|ds| - 1];
      assert ds == init + [x];
      FilterAppend(init, x, IsVisibleDialog);
      if !IsVisibleDialog(x) {
        SingleModeShowsLastOfMultiple(init);
      }
    }
  }

  /** No entry is presented through both channels. */
  lemma ViewsDisjoint(ds: seq<Dialog>, visibleMultipleDialog: bool)
    ensures forall d :: d in DialogContents(ds, visibleMultipleDialog) ==> d !in ToastContents(ds)
  {
  }

  /** Entries matching an id that occurs once: map-where rewrites exactly that position. */
  lemma MapWhereAtId(ds: seq<Dialog>, i: nat, f: Dialog -> Dialog)
    requires i < |ds| && IdsIncreasing(ds)
    ensures MapWhere(ds, HasId(ds[i].id), f) == ds[i := f(ds[i])]
  {
    var r := MapWhere(ds, HasId(ds[i].id), f);
    forall j | 0 <= j < |ds|
      ensures r[j] == ds[i := f(ds[i])][j]
    {
      if j != i {
        assert ds[j].id != ds[i].id;
      }
    }
  }

  /** With ids unique, the entry found by id is the one at its position. */
  lemma FindDialogByIdAt(ds: seq<Dialog>, i: nat)
    requires i < |ds| && IdsIncreasing(ds)
    ensures FindDialogById(ds, ds[i].id) == Some(ds[i])
  {
    assert HasId(ds[i].id)(ds[i]);
  }
}
