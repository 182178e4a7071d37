/**
 * Clients of the widget that drive it through concrete event sequences and
 * state what comes out.
 */
module Scenarios {
  import opened Wrappers
  import opened Platform
  import opened PendingSelection
  import opened SelectorTransitions
  import opened DpadAware

  /** Five laid-out items: views 10 .. 14 at adapter positions 0 .. 4. */
  function FiveItems(focusedChild: Option<View>, hasFocus: bool): Host {
    Host(focusedChild,
         map[10 := 0, 11 := 1, 12 := 2, 13 := 3, 14 := 4],
         map[0 := 10, 1 := 11, 2 := 12, 3 := 13, 4 := 14],
         Some(10), hasFocus, false, SCROLL_STATE_IDLE, false)
  }

  /**
   * An unfocused widget is asked to select position 3; the next layout
   * archives item 3's view for the next focus gain, requests no focus and
   * clears the pending position.
   */
  method SelectThenLayoutWhileUnfocused() returns (archived: Option<View>, effects: seq<Effect>, pending: int)
    ensures archived == Some(13)
    ensures effects == [ScrollToPosition(3)]
    ensures pending == NO_POSITION
  {
    var w := new DpadAwareRecyclerView();
    var h := FiveItems(None, false);
    w.SetSelection(3);
    w.OnLayout(h);
    archived, effects, pending := w.lastFocus, w.log, w.pendingSelection;
  }

  /** The same request while the widget has focus: the layout requests focus on item 3's view. */
  method SelectThenLayoutWhileFocused() returns (archived: Option<View>, effects: seq<Effect>, pending: int)
    ensures archived == None
    ensures effects == [ScrollToPosition(3), RequestFocus(13)]
    ensures pending == NO_POSITION
  {
    var w := new DpadAwareRecyclerView();
    var h := FiveItems(Some(10), true);
    w.SetSelection(3);
    w.OnLayout(h);
    archived, effects, pending := w.lastFocus, w.log, w.pendingSelection;
  }

  /** With item 1 focused, removing items [0, 2) retargets the selection to position 0. */
  method RemoveRangeHoldingSelection() returns (effects: seq<Effect>, pending: int)
    ensures effects == [ScrollToPosition(0)]
    ensures pending == 0
  {
    var w := new DpadAwareRecyclerView();
    var h := FiveItems(Some(11), true);
    w.OnItemRangeRemoved(0, 2, h);
    effects, pending := w.log, w.pendingSelection;
  }

  /** A pending position whose view is not laid out is dropped by the layout pass. */
  method LayoutDropsUnresolvedPosition() returns (archived: Option<View>, effects: seq<Effect>, pending: int)
    ensures archived == None
    ensures effects == [ScrollToPosition(7)]
    ensures pending == NO_POSITION
  {
    var w := new DpadAwareRecyclerView();
    var h := FiveItems(None, false);
    w.SetSelection(7);
    w.OnLayout(h);
    archived, effects, pending := w.lastFocus, w.log, w.pendingSelection;
  }

  /**
   * Focus moves to item 1 and then, before the highlight arrives, to item 2.
   * Cancelling the first transition selects item 2 (the shared listener was
   * already pointed at it), the second start deselects item 1, and the end
   * selects item 2 again: item 1 is never selected and item 2's
   * item-selected callback fires twice.
   */
  method RetargetDuringTransition() returns (effects: seq<Effect>)
    ensures effects == [SetSelected(12, true), ItemSelected(12), SetSelected(11, false),
                        SetSelected(12, true), ItemSelected(12)]
  {
    var w := FocusFirstChild();
    var h := FiveItems(Some(12), true);
    var r2 := Rect(0, 200, 100, 300);
    w.SetOnItemSelectedListener(true);
    RetargetTrace(w.State(), Rect(0, 0, 100, 100), 11, 12, r2, 0);
    w.RequestChildFocusInner(12, 12, r2, h);
    w.OnSelectorAnimationEnd();
    effects := w.log;
  }

  /**
   * A new widget with one foreground selector whose focus has moved to item 1:
   * its transition runs, item 1 is archived and nothing has been logged.
   */
  method FocusFirstChild() returns (w: DpadAwareRecyclerView)
    ensures fresh(w) && fresh(w.reusableSelectListener) && w.Valid()
    ensures w.AnchorBounds() == Some(Rect(0, 0, 100, 100)) && w.selectorVelocity == 0
    ensures w.log == [] && Running(w.State()) && w.lastFocus == Some(11)
  {
    w := new DpadAwareRecyclerView();
    var d := new Drawable(Rect(0, 0, 100, 100));
    w.SetForegroundSelector(d);
    var h := FiveItems(Some(11), true);
    var r1 := Rect(0, 100, 100, 200);
    ghost var s0 := w.State();
    ChildFocusEffects(s0, Rect(0, 0, 100, 100), 11, r1, 0, false);
    assert w.AnchorBounds() == Some(Rect(0, 0, 100, 100));
    w.RequestChildFocusInner(11, 11, r1, h);
  }

  /**
   * The pure trace of re-targeting: focus moves from `prev` to `child` while
   * the transition towards `prev` runs, then the new transition ends.
   */
  lemma RetargetTrace(s1: FocusState, anchor: Rect, prev: View, child: View, hitRect: Rect, velocity: int)
    requires s1.log == [] && Running(s1) && s1.lastFocus == Some(prev)
    ensures Finish(ChildFocus(s1, Some(anchor), SCROLL_STATE_IDLE, child, hitRect, velocity, true), true).log
        == [SetSelected(child, true), ItemSelected(child), SetSelected(prev, false),
            SetSelected(child, true), ItemSelected(child)]
  {
    var t2 := ChildFocus(s1, Some(anchor), SCROLL_STATE_IDLE, child, hitRect, velocity, true);
    ChildFocusEffects(s1, anchor, child, hitRect, velocity, true);
    assert t2.log == [SetSelected(child, true), ItemSelected(child), SetSelected(prev, false)];
    ChildFocusGate(s1, Some(anchor), SCROLL_STATE_IDLE, child, hitRect, velocity, true);
  }

  /** Without any selector no transition starts and nothing is archived; only item-focused fires. */
  method ChildFocusWithoutSelector() returns (archived: Option<View>, effects: seq<Effect>)
    ensures archived == None
    ensures effects == [ItemFocused(11)]
  {
    var w := new DpadAwareRecyclerView();
    w.SetOnItemSelectedListener(true);
    var h := FiveItems(Some(11), true);
    w.RequestChildFocus(11, 11, Rect(0, 100, 100, 200), h);
    archived, effects := w.lastFocus, w.log;
  }

  /** getBackgroundSelector does not return the drawable setBackgroundSelector stored. */
  method BackgroundSelectorNotReadBack() returns (stored: Drawable?, got: Drawable?)
    ensures stored != null && got == null
  {
    var w := new DpadAwareRecyclerView();
    stored := new Drawable(EMPTY_RECT);
    w.SetBackgroundSelector(stored);
    got := w.GetBackgroundSelector();
  }

  /** The corrected getter returns what setBackgroundSelector stored. */
  method BackgroundSelectorRoundTrip(w: DpadAwareRecyclerView, drawable: Drawable?) returns (got: Drawable?)
    requires w.Valid()
    modifies w.selectorDrawables, w.selectorAnimators
    ensures got == drawable
  {
    w.SetBackgroundSelector(drawable);
    got := w.GetBackgroundSelectorCorrected();
  }

  /** getSelector returns what setSelector stored at a valid index; both reject any other index. */
  method SelectorRoundTrip(w: DpadAwareRecyclerView, index: int, drawable: Drawable?)
    returns (setOutcome: Outcome<SelectorError>, got: Result<Drawable?, SelectorError>)
    requires w.Valid()
    modifies w.selectorDrawables, w.selectorAnimators
    ensures 0 <= index < SELECTOR_COUNT ==> setOutcome == Pass && got == Success(drawable)
    ensures !(0 <= index < SELECTOR_COUNT) ==>
      setOutcome == Fail(IndexOutOfBounds(index)) && got == Failure(IndexOutOfBounds(index))
  {
    setOutcome := w.SetSelector(index, drawable);
    got := w.GetSelector(index);
  }

  /** A disabled widget that does not hold focus offers nothing to focus search. */
  method DisabledWidgetOffersNoFocusables(w: DpadAwareRecyclerView, views: seq<FocusCandidate>,
                                          descendants: seq<FocusCandidate>, h: Host)
    returns (r: seq<FocusCandidate>)
    requires !h.hasFocus
    modifies w
    ensures r == views
  {
    w.SetEnabled(false);
    r := w.AddFocusables(views, descendants, h);
  }
}
