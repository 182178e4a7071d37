/**
 * How the widget's adapter-data observer reacts to change notifications:
 * from the currently selected adapter position it decides whether to leave
 * the pending selection alone, to overwrite it, or to call setSelection
 * (scroll to a position and make it pending).
 */
module PendingSelection {
  import opened Platform

  /** An opaque change payload; the observer ignores it. */
  type Payload = nat

  /** A notification delivered to the widget's AdapterDataObserver. */
  datatype AdapterEvent =
    | Changed
    | ItemRangeChanged(positionStart: int, itemCount: int)
    | ItemRangeChangedWithPayload(positionStart: int, itemCount: int, payload: Payload)
    | ItemRangeMoved(fromPosition: int, toPosition: int, itemCount: int)
    | ItemRangeInserted(positionStart: int, itemCount: int)
    | ItemRangeRemoved(positionStart: int, itemCount: int)

  /** What the observer does about the pending selection. */
  datatype Reaction =
    | NoChange
    | Pend(position: int)        // overwrite the pending position only
    | Select(position: int)      // setSelection: scroll to position and make it pending

  /** `position` lies in the range [start, start + count). */
  predicate InRange(position: int, start: int, count: int) {
    start <= position < start + count
  }

  /** The notifications that report changed contents rather than a structural change. */
  predicate IsChange(event: AdapterEvent) {
    event.Changed? || event.ItemRangeChanged? || event.ItemRangeChangedWithPayload?
  }

  /** onItemRangeChanged, which the payload variant delegates to. */
  function ReactToRangeChange(hasStableIds: bool, selected: int, pending: int, start: int, count: int): (r: Reaction)
    ensures r == NoChange <==> hasStableIds
    ensures r.Pend? ==> r.position != NO_POSITION
    ensures r.Pend? && InRange(selected, start, count) && selected != NO_POSITION ==> r.position == selected
    ensures r.Pend? && !InRange(selected, start, count) && pending != NO_POSITION ==> r.position == pending
    ensures !r.Select?
  {
    if hasStableIds then NoChange
    else
      var p := if InRange(selected, start, count) then selected else pending;
      Pend(if p == NO_POSITION then 0 else p)
  }

  /**
   * The observer's decision, given the adapter's stable-ids flag, the
   * selected position (getSelectedItemPosition) and the current pending
   * position.
   */
  function React(event: AdapterEvent, hasStableIds: bool, selected: int, pending: int): (r: Reaction)
    ensures r.Pend? ==> IsChange(event) && !hasStableIds && r.position != NO_POSITION
    ensures IsChange(event) ==> (r.Pend? <==> !hasStableIds)
    ensures r.Select? ==> !IsChange(event)
    ensures event.ItemRangeMoved? ==> (r.Select? <==> InRange(selected, event.fromPosition, event.itemCount))
    ensures event.ItemRangeInserted? || event.ItemRangeRemoved? ==>
      (r.Select? <==> InRange(selected, event.positionStart, event.itemCount))
  {
    match event
    case Changed =>
      if hasStableIds then NoChange
      else Pend(if selected == NO_POSITION then 0 else selected)
    case ItemRangeChanged(start, count) =>
      ReactToRangeChange(hasStableIds, selected, pending, start, count)
    case ItemRangeChangedWithPayload(start, count, _) =>
      ReactToRangeChange(hasStableIds, selected, pending, start, count)
    case ItemRangeMoved(from, to, count) =>
      if InRange(selected, from, count) then Select(selected - from + to) else NoChange
    case ItemRangeInserted(start, count) =>
      if InRange(selected, start, count) then Select(selected + count) else NoChange
    case ItemRangeRemoved(start, count) =>
      if InRange(selected, start, count) then Select(start) else NoChange
  }

  /** The pending position after a reaction. */
  function PendingAfter(pending: int, r: Reaction): int {
    match r
    case NoChange => pending
    case Pend(p) => p
    case Select(p) => p
  }

  /** The scroll requests a reaction issues. */
  function ScrollsOf(r: Reaction): seq<Effect> {
    if r.Select? then [ScrollToPosition(r.position)] else []
  }

  // ---- Properties of the reactions ----

  /** Insertion retargets iff the selected position lies inside the inserted range. */
  lemma InsertedReaction(hasStableIds: bool, selected: int, pending: int, start: int, count: int)
    ensures var r := React(ItemRangeInserted(start, count), hasStableIds, selected, pending);
      (InRange(selected, start, count) ==> r == Select(selected + count) && ScrollsOf(r) == [ScrollToPosition(selected + count)])
      && (!InRange(selected, start, count) ==> PendingAfter(pending, r) == pending && ScrollsOf(r) == [])
  {
  }

  /** Removal retargets to the start of the removed range, unclamped, iff the selection was removed. */
  lemma RemovedReaction(hasStableIds: bool, selected: int, pending: int, start: int, count: int)
    ensures var r := React(ItemRangeRemoved(start, count), hasStableIds, selected, pending);
      (InRange(selected, start, count) ==> r == Select(start))
      && (!InRange(selected, start, count) ==> PendingAfter(pending, r) == pending && ScrollsOf(r) == [])
  {
  }

  /** A move retargets a moved selection by the offset of the move. */
  lemma MovedReaction(hasStableIds: bool, selected: int, pending: int, from: int, to: int, count: int)
    ensures var r := React(ItemRangeMoved(from, to, count), hasStableIds, selected, pending);
      (InRange(selected, from, count) ==> r == Select(selected - from + to))
      && (!InRange(selected, from, count) ==> PendingAfter(pending, r) == pending && ScrollsOf(r) == [])
  {
  }

  /** Moving the block back returns the selection to where it was. */
  lemma MoveRoundTrip(hasStableIds: bool, selected: int, pending: int, pending': int, from: int, to: int, count: int)
    requires InRange(selected, from, count)
    ensures React(ItemRangeMoved(from, to, count), hasStableIds, selected, pending) == Select(selected - from + to)
    ensures React(ItemRangeMoved(to, from, count), hasStableIds, selected - from + to, pending') == Select(selected)
  {
  }

  /** Without stable ids a change always leaves a real position pending (never NO_POSITION). */
  lemma ChangeLeavesPositionPending(event: AdapterEvent, selected: int, pending: int)
    requires event.Changed? || event.ItemRangeChanged? || event.ItemRangeChangedWithPayload?
    ensures PendingAfter(pending, React(event, false, selected, pending)) != NO_POSITION
    ensures ScrollsOf(React(event, false, selected, pending)) == []
  {
  }

  /** onChanged without stable ids: pending becomes the selection, or 0 when nothing is selected. */
  lemma ChangedReaction(selected: int, pending: int)
    ensures PendingAfter(pending, React(Changed, false, selected, pending))
         == if selected == NO_POSITION then 0 else selected
  {
  }

  /**
   * onItemRangeChanged without stable ids: pending becomes the selection when
   * it lies in the range, and a NO_POSITION left pending becomes 0.
   */
  lemma RangeChangedReaction(selected: int, pending: int, start: int, count: int)
    ensures var p := if InRange(selected, start, count) then selected else pending;
      PendingAfter(pending, React(ItemRangeChanged(start, count), false, selected, pending))
        == if p == NO_POSITION then 0 else p
  {
  }

  /** With stable ids, change notifications leave the pending position to RecyclerView. */
  lemma StableIdsIgnoreChanges(event: AdapterEvent, selected: int, pending: int)
    requires event.Changed? || event.ItemRangeChanged? || event.ItemRangeChangedWithPayload?
    ensures React(event, true, selected, pending) == NoChange
  {
  }

  /** The payload variant reacts exactly like the plain one. */
  lemma PayloadIsIgnored(hasStableIds: bool, selected: int, pending: int, start: int, count: int, payload: Payload)
    ensures React(ItemRangeChangedWithPayload(start, count, payload), hasStableIds, selected, pending)
         == React(ItemRangeChanged(start, count), hasStableIds, selected, pending)
  {
  }

  // ---- The reactions against the contents of the adapter ----

  /** The adapter's items after `inserted` is inserted at `start`. */
  function InsertItems<T>(items: seq<T>, start: nat, inserted: seq<T>): (r: seq<T>)
    requires start <= |items|
    ensures |r| == |items| + |inserted|
  {
    items[..start] + inserted + items[start..]
  }

  /** The adapter's items after the `count` items at `start` are removed. */
  function RemoveItems<T>(items: seq<T>, start: nat, count: nat): (r: seq<T>)
    requires start + count <= |items|
    ensures |r| == |items| - count
  {
    items[..start] + items[start + count..]
  }

  /** The adapter's items after the block of `count` items at `from` is moved so that it starts at `to`. */
  function MoveItems<T>(items: seq<T>, from: nat, to: nat, count: nat): (r: seq<T>)
    requires from + count <= |items| && to + count <= |items|
    ensures |r| == |items|
  {
    var rest := items[..from] + items[from + count..];
    rest[..to] + items[from..from + count] + rest[to..]
  }

  /** When insertion retargets, the new pending position holds the item that was selected. */
  lemma InsertRetargetFollowsItem<T>(items: seq<T>, start: nat, inserted: seq<T>, selected: int, pending: int, hasStableIds: bool)
    requires start <= |items| && selected < |items|
    requires InRange(selected, start, |inserted|)
    ensures React(ItemRangeInserted(start, |inserted|), hasStableIds, selected, pending) == Select(selected + |inserted|)
    ensures InsertItems(items, start, inserted)[selected + |inserted|] == items[selected]
  {
    var r := InsertItems(items, start, inserted);
    assert r[selected + |inserted|] == items[start..][selected - start];
  }

  /**
   * A selection after the inserted range is not retargeted although its item
   * moved: the observer leaves it to RecyclerView, which keeps the focused
   * view.
   */
  lemma InsertAfterRangeNotRetargeted<T>(items: seq<T>, start: nat, inserted: seq<T>, selected: int, pending: int, hasStableIds: bool)
    requires start <= |items| && start + |inserted| <= selected < |items|
    ensures React(ItemRangeInserted(start, |inserted|), hasStableIds, selected, pending) == NoChange
    ensures InsertItems(items, start, inserted)[selected + |inserted|] == items[selected]
  {
    var r := InsertItems(items, start, inserted);
    assert r[selected + |inserted|] == items[start..][selected - start];
  }

  /** Removing the selection retargets it to the item that followed the removed range. */
  lemma RemoveRetargetsToSuccessor<T>(items: seq<T>, start: nat, count: nat, selected: int, pending: int, hasStableIds: bool)
    requires start + count < |items|
    requires InRange(selected, start, count)
    ensures React(ItemRangeRemoved(start, count), hasStableIds, selected, pending) == Select(start)
    ensures RemoveItems(items, start, count)[start] == items[start + count]
  {
  }

  /**
   * Removing the selection at the tail of the adapter retargets it one past
   * the last remaining item: the target is not clamped.
   */
  lemma RemoveAtTailIsNotClamped<T>(items: seq<T>, start: nat, count: nat, selected: int, pending: int, hasStableIds: bool)
    requires start + count == |items|
    requires InRange(selected, start, count)
    ensures React(ItemRangeRemoved(start, count), hasStableIds, selected, pending) == Select(|RemoveItems(items, start, count)|)
  {
  }

  /** When a move retargets, the new pending position holds the item that was selected. */
  lemma MoveRetargetFollowsItem<T>(items: seq<T>, from: nat, to: nat, count: nat, selected: int, pending: int, hasStableIds: bool)
    requires from + count <= |items| && to + count <= |items|
    requires InRange(selected, from, count)
    ensures React(ItemRangeMoved(from, to, count), hasStableIds, selected, pending) == Select(selected - from + to)
    ensures MoveItems(items, from, to, count)[selected - from + to] == items[selected]
  {
    var rest := items[..from] + items[from + count..];
    var block := items[from..from + count];
    assert |rest[..to]| == to;
    assert MoveItems(items, from, to, count)[selected - from + to] == block[selected - from];
  }
}
