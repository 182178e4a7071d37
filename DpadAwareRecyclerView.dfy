/**
 * DpadAwareRecyclerView: a RecyclerView adapted to D-pad navigation. The
 * widget keeps a pending adapter position to select after the next layout,
 * a focus memory entry, two selector slots (FOREGROUND, BACKGROUND) whose
 * highlight is animated between items, and one shared listener that marks
 * items deselected and selected as a transition starts and ends.
 *
 * Platform queries arrive as a `Host` snapshot or as parameters; the
 * commands the widget issues and the callbacks it fires are appended to
 * `log`.
 */
module DpadAware {
  import opened Wrappers
  import opened Platform
  import opened Travel
  import opened PendingSelection
  import opened FocusRules
  import opened SelectorTransitions

  /** Selector slot indices. */
  const FOREGROUND: int := 0
  const BACKGROUND: int := 1
  const SELECTOR_COUNT: int := 2

  /** IndexOutOfBoundsException raised by enforceSelectorIndexBounds. */
  datatype SelectorError = IndexOutOfBounds(index: int)

  /** enforceSelectorIndexBounds: a selector index is valid iff it lies in [0, SELECTOR_COUNT). */
  function EnforceSelectorIndexBounds(index: int): (o: Outcome<SelectorError>)
    ensures o.Pass? <==> 0 <= index < SELECTOR_COUNT
    ensures o.Fail? ==> o.error == IndexOutOfBounds(index)
  {
    if index < 0 || index >= SELECTOR_COUNT then Fail(IndexOutOfBounds(index)) else Pass
  }

  /** getSelectedItemPosition: the adapter position of the focused child, or NO_POSITION. */
  function SelectedItemPosition(h: Host): (p: int)
    ensures h.focusedChild.None? ==> p == NO_POSITION
  {
    h.AdapterPosition(h.focusedChild)
  }

  /** The index of the first non-null selector at or after `from`, or |slots| if there is none. */
  function FirstSelectorIndex(slots: seq<Drawable?>, from: nat): (k: nat)
    requires from <= |slots|
    ensures from <= k <= |slots|
    ensures k < |slots| ==> slots[k] != null
    ensures forall j :: from <= j < k ==> slots[j] == null
    decreases |slots| - from
  {
    if from == |slots| then from
    else if slots[from] != null then from
    else FirstSelectorIndex(slots, from + 1)
  }

  /** The anchor selector: the first non-null slot in index order, or null. */
  function AnchorOf(slots: seq<Drawable?>): (a: Drawable?)
    ensures a == null <==> forall i :: 0 <= i < |slots| ==> slots[i] == null
    ensures a != null ==> exists k :: 0 <= k < |slots| && slots[k] == a && forall j :: 0 <= j < k ==> slots[j] == null
  {
    var k := FirstSelectorIndex(slots, 0);
    if k < |slots| then slots[k] else null
  }

  /** The ObjectAnimator createSelectorAnimator builds: it animates the bounds of `target`. */
  datatype BoundsAnimator = BoundsAnimator(target: Drawable?)

  /** The AnimatorSet of one transition: the slot animators played together and its listener. */
  datatype Transition = Transition(
    animators: seq<Option<BoundsAnimator>>,
    listener: SelectAnimatorListener,
    duration: nat,
    running: bool)

  /** The listener shared by every selector transition (mReusableSelectListener). */
  class SelectAnimatorListener {
    var toSelect: Option<View>
    var toDeselect: Option<View>

    constructor ()
      ensures toSelect.None? && toDeselect.None?
    {
      toSelect, toDeselect := None, None;
    }

    /** onAnimationStart: deselect mToDeselect, if any. */
    method OnAnimationStart(owner: DpadAwareRecyclerView)
      modifies owner`log
      ensures owner.log == old(owner.log) + DeselectEffects(toDeselect)
    {
      if toDeselect.Some? {
        owner.ChildSetSelected(toDeselect.value, false);
      }
    }

    /** onAnimationEnd: select mToSelect, if any, which fires the item-selected callback. */
    method OnAnimationEnd(owner: DpadAwareRecyclerView)
      modifies owner`log
      ensures owner.log == old(owner.log) + SelectEffects(toSelect, owner.hasItemSelectedListener)
    {
      if toSelect.Some? {
        owner.ChildSetSelected(toSelect.value, true);
      }
    }

    /** onAnimationCancel behaves as onAnimationEnd. */
    method OnAnimationCancel(owner: DpadAwareRecyclerView)
      modifies owner`log
      ensures owner.log == old(owner.log) + SelectEffects(toSelect, owner.hasItemSelectedListener)
    {
      OnAnimationEnd(owner);
    }
  }

  class DpadAwareRecyclerView {
    /** Adapter position to select after the next layout pass, or NO_POSITION. */
    var pendingSelection: int
    /** The focus memory entry of this container: the last focused child. */
    var lastFocus: Option<View>
    var rememberLastFocus: bool
    var smoothScrolling: bool
    var selectorVelocity: int
    const selectorDrawables: array<Drawable?>
    const selectorAnimators: array<Option<BoundsAnimator>>
    var selectorSourceRect: Rect
    var selectorDestRect: Rect
    /** The last animator set built (mSelectorAnimator), if any. */
    var selectorAnimator: Option<Transition>
    const reusableSelectListener: SelectAnimatorListener
    var hasItemClickListener: bool
    var hasItemSelectedListener: bool
    var enabled: bool
    var focusable: bool
    var descendantFocusability: DescendantFocusability
    /** Commands issued to the platform and callbacks fired, oldest first. */
    var log: seq<Effect>

    /** Both slot tables have SELECTOR_COUNT entries and every animator set uses the shared listener. */
    ghost predicate Valid()
      reads this
    {
      selectorDrawables.Length == SELECTOR_COUNT
      && selectorAnimators.Length == SELECTOR_COUNT
      && (selectorAnimator.Some? ==> selectorAnimator.value.listener == reusableSelectListener)
    }

    /** The selector-transition state, as `SelectorTransitions` describes it. */
    ghost function State(): FocusState
      reads this, reusableSelectListener
    {
      FocusState(lastFocus, reusableSelectListener.toSelect, reusableSelectListener.toDeselect,
                 selectorSourceRect, selectorDestRect,
                 match selectorAnimator
                 case None => None
                 case Some(t) => Some(Run(t.duration, t.running)),
                 log)
    }

    /** The bounds of the anchor selector, if there is one. */
    ghost function AnchorBounds(): Option<Rect>
      reads this, selectorDrawables, set i | 0 <= i < selectorDrawables.Length :: selectorDrawables[i]
    {
      var a := AnchorOf(selectorDrawables[..]);
      if a == null then None else Some(a.bounds)
    }

    /**
     * A widget built without attributes: focusable, blocking nothing, focus
     * memory on, no selectors, no pending position.
     */
    constructor ()
      ensures Valid()
      ensures fresh(selectorDrawables) && fresh(selectorAnimators) && fresh(reusableSelectListener)
      ensures pendingSelection == NO_POSITION && lastFocus.None?
      ensures rememberLastFocus && !smoothScrolling && selectorVelocity == 0
      ensures selectorDrawables[..] == [null, null] && selectorAnimators[..] == [None, None]
      ensures selectorAnimator.None? && selectorSourceRect == EMPTY_RECT && selectorDestRect == EMPTY_RECT
      ensures reusableSelectListener.toSelect.None? && reusableSelectListener.toDeselect.None?
      ensures !hasItemClickListener && !hasItemSelectedListener
      ensures enabled && focusable && descendantFocusability == FocusBeforeDescendants
      ensures log == []
    {
      pendingSelection := NO_POSITION;
      lastFocus := None;
      rememberLastFocus := true;
      smoothScrolling := false;
      selectorVelocity := 0;
      selectorDrawables := new Drawable?[SELECTOR_COUNT](_ => null);
      selectorAnimators := new Option<BoundsAnimator>[SELECTOR_COUNT](_ => None);
      selectorSourceRect := EMPTY_RECT;
      selectorDestRect := EMPTY_RECT;
      selectorAnimator := None;
      reusableSelectListener := new SelectAnimatorListener();
      hasItemClickListener := false;
      hasItemSelectedListener := false;
      enabled := true;
      focusable := true;
      descendantFocusability := FocusBeforeDescendants;
      log := [];
      new;
      assert selectorDrawables[..] == [null, null];
      assert selectorAnimators[..] == [None, None];
    }

    // ---- Configuration ----

    method SetSelectorVelocity(velocity: int)
      modifies this`selectorVelocity
      ensures selectorVelocity == velocity
    {
      selectorVelocity := velocity;
    }

    method SetSmoothScrolling(smooth: bool)
      modifies this`smoothScrolling
      ensures smoothScrolling == smooth
    {
      smoothScrolling := smooth;
    }

    method SetRememberLastFocus(remember: bool)
      modifies this`rememberLastFocus
      ensures rememberLastFocus == remember
    {
      rememberLastFocus := remember;
    }

    /** setOnItemClickListener: only whether a listener is present matters to the widget. */
    method SetOnItemClickListener(present: bool)
      modifies this`hasItemClickListener
      ensures hasItemClickListener == present
    {
      hasItemClickListener := present;
    }

    /** setOnItemSelectedListener: only whether a listener is present matters to the widget. */
    method SetOnItemSelectedListener(present: bool)
      modifies this`hasItemSelectedListener
      ensures hasItemSelectedListener == present
    {
      hasItemSelectedListener := present;
    }

    /** setEnabled: a disabled widget blocks its descendants and is not focusable. */
    method SetEnabled(enabled: bool)
      modifies this`enabled, this`descendantFocusability, this`focusable
      ensures this.enabled == enabled && focusable == enabled
      ensures descendantFocusability == if enabled then FocusBeforeDescendants else FocusBlockDescendants
    {
      this.enabled := enabled;
      descendantFocusability := if enabled then FocusBeforeDescendants else FocusBlockDescendants;
      focusable := enabled;
    }

    // ---- Selector slots ----

    /**
     * setSelector: at a valid index, store the drawable and a fresh bounds
     * animator for it; at any other index fail and change nothing.
     */
    method SetSelector(index: int, drawable: Drawable?) returns (o: Outcome<SelectorError>)
      requires Valid()
      modifies selectorDrawables, selectorAnimators
      ensures o == EnforceSelectorIndexBounds(index)
      ensures o.Pass? ==> selectorDrawables[..] == old(selectorDrawables[..])[index := drawable]
      ensures o.Pass? ==> selectorAnimators[..] == old(selectorAnimators[..])[index := Some(BoundsAnimator(drawable))]
      ensures o.Fail? ==> selectorDrawables[..] == old(selectorDrawables[..]) && selectorAnimators[..] == old(selectorAnimators[..])
    {
      o := EnforceSelectorIndexBounds(index);
      if o.Fail? {
        return;
      }
      selectorDrawables[index] := drawable;
      selectorAnimators[index] := Some(BoundsAnimator(drawable));
    }

    /** getSelector: the drawable in a valid slot, or the index error. */
    method GetSelector(index: int) returns (r: Result<Drawable?, SelectorError>)
      requires Valid()
      ensures r.Success? <==> 0 <= index < SELECTOR_COUNT
      ensures r.Success? ==> r.value == selectorDrawables[index]
      ensures r.Failure? ==> r.error == IndexOutOfBounds(index)
    {
      var o := EnforceSelectorIndexBounds(index);
      if o.Fail? {
        return Failure(o.error);
      }
      r := Success(selectorDrawables[index]);
    }

    /** setBackgroundSelector: store into slot BACKGROUND. */
    method SetBackgroundSelector(drawable: Drawable?)
      requires Valid()
      modifies selectorDrawables, selectorAnimators
      ensures selectorDrawables[BACKGROUND] == drawable
      ensures selectorDrawables[FOREGROUND] == old(selectorDrawables[FOREGROUND])
      ensures selectorAnimators[BACKGROUND] == Some(BoundsAnimator(drawable))
      ensures selectorAnimators[FOREGROUND] == old(selectorAnimators[FOREGROUND])
    {
      var _ := SetSelector(BACKGROUND, drawable);
    }

    /** setForegroundSelector: store into slot FOREGROUND. */
    method SetForegroundSelector(drawable: Drawable?)
      requires Valid()
      modifies selectorDrawables, selectorAnimators
      ensures selectorDrawables[FOREGROUND] == drawable
      ensures selectorDrawables[BACKGROUND] == old(selectorDrawables[BACKGROUND])
      ensures selectorAnimators[FOREGROUND] == Some(BoundsAnimator(drawable))
      ensures selectorAnimators[BACKGROUND] == old(selectorAnimators[BACKGROUND])
    {
      var _ := SetSelector(FOREGROUND, drawable);
    }

    /** getBackgroundSelector as written: it reads slot FOREGROUND. */
    method GetBackgroundSelector() returns (r: Drawable?)
      requires Valid()
      ensures r == selectorDrawables[FOREGROUND]
    {
      var res := GetSelector(FOREGROUND);
      r := res.value;
    }

    /** getBackgroundSelector as evidently intended: it reads slot BACKGROUND. */
    method GetBackgroundSelectorCorrected() returns (r: Drawable?)
      requires Valid()
      ensures r == selectorDrawables[BACKGROUND]
    {
      var res := GetSelector(BACKGROUND);
      r := res.value;
    }

    /** getForegroundSelector: reads slot FOREGROUND. */
    method GetForegroundSelector() returns (r: Drawable?)
      requires Valid()
      ensures r == selectorDrawables[FOREGROUND]
    {
      var res := GetSelector(FOREGROUND);
      r := res.value;
    }

    // ---- Pending selection ----

    /** setSelection: scroll to the position and make it pending. */
    method SetSelection(adapterPosition: int)
      modifies this`pendingSelection, this`log
      ensures pendingSelection == adapterPosition
      ensures log == old(log) + [ScrollToPosition(adapterPosition)]
    {
      log := log + [ScrollToPosition(adapterPosition)];
      pendingSelection := adapterPosition;
    }

    /** onChanged: without stable ids the selection, or 0 if none, becomes pending. */
    method OnChanged(h: Host)
      modifies this`pendingSelection, this`log
      ensures !h.hasStableIds ==>
        pendingSelection == (if SelectedItemPosition(h) == NO_POSITION then 0 else SelectedItemPosition(h))
      ensures h.hasStableIds ==> pendingSelection == old(pendingSelection)
      ensures log == old(log)
      ensures pendingSelection == PendingAfter(old(pendingSelection), React(Changed, h.hasStableIds, SelectedItemPosition(h), old(pendingSelection)))
    {
      if !h.hasStableIds {
        pendingSelection := SelectedItemPosition(h);
        if pendingSelection == NO_POSITION {
          pendingSelection := 0;
        }
      }
    }

    /**
     * onItemRangeChanged: without stable ids a selection inside the range
     * becomes pending, and a NO_POSITION left pending becomes 0.
     */
    method OnItemRangeChanged(positionStart: int, itemCount: int, h: Host)
      modifies this`pendingSelection, this`log
      ensures !h.hasStableIds ==>
        var p := if InRange(SelectedItemPosition(h), positionStart, itemCount) then SelectedItemPosition(h) else old(pendingSelection);
        pendingSelection == if p == NO_POSITION then 0 else p
      ensures h.hasStableIds ==> pendingSelection == old(pendingSelection)
      ensures log == old(log)
      ensures pendingSelection == PendingAfter(old(pendingSelection),
        React(ItemRangeChanged(positionStart, itemCount), h.hasStableIds, SelectedItemPosition(h), old(pendingSelection)))
    {
      if !h.hasStableIds {
        var selectedPos := SelectedItemPosition(h);
        if selectedPos >= positionStart && selectedPos < positionStart + itemCount {
          pendingSelection := SelectedItemPosition(h);
        }
        if pendingSelection == NO_POSITION {
          pendingSelection := 0;
        }
      }
    }

    /** onItemRangeChanged with a payload: delegates to the plain variant. */
    method OnItemRangeChangedWithPayload(positionStart: int, itemCount: int, payload: Payload, h: Host)
      modifies this`pendingSelection, this`log
      ensures log == old(log)
      ensures pendingSelection == PendingAfter(old(pendingSelection),
        React(ItemRangeChangedWithPayload(positionStart, itemCount, payload), h.hasStableIds, SelectedItemPosition(h), old(pendingSelection)))
    {
      OnItemRangeChanged(positionStart, itemCount, h);
    }

    /** onItemRangeMoved: a selection inside the moved block follows it. */
    method OnItemRangeMoved(fromPosition: int, toPosition: int, itemCount: int, h: Host)
      modifies this`pendingSelection, this`log
      ensures var s := SelectedItemPosition(h);
        if InRange(s, fromPosition, itemCount) then
          pendingSelection == s - fromPosition + toPosition
          && log == old(log) + [ScrollToPosition(s - fromPosition + toPosition)]
        else pendingSelection == old(pendingSelection) && log == old(log)
      ensures var r := React(ItemRangeMoved(fromPosition, toPosition, itemCount), h.hasStableIds, SelectedItemPosition(h), old(pendingSelection));
        pendingSelection == PendingAfter(old(pendingSelection), r) && log == old(log) + ScrollsOf(r)
    {
      var selectedPos := SelectedItemPosition(h);
      if selectedPos >= fromPosition && selectedPos < fromPosition + itemCount {
        SetSelection(selectedPos - fromPosition + toPosition);
      }
    }

    /** onItemRangeInserted: only a selection INSIDE the inserted range is shifted by the count. */
    method OnItemRangeInserted(positionStart: int, itemCount: int, h: Host)
      modifies this`pendingSelection, this`log
      ensures var s := SelectedItemPosition(h);
        if InRange(s, positionStart, itemCount) then
          pendingSelection == s + itemCount && log == old(log) + [ScrollToPosition(s + itemCount)]
        else pendingSelection == old(pendingSelection) && log == old(log)
      ensures var r := React(ItemRangeInserted(positionStart, itemCount), h.hasStableIds, SelectedItemPosition(h), old(pendingSelection));
        pendingSelection == PendingAfter(old(pendingSelection), r) && log == old(log) + ScrollsOf(r)
    {
      var selectedPos := SelectedItemPosition(h);
      if selectedPos >= positionStart && selectedPos < positionStart + itemCount {
        SetSelection(selectedPos + itemCount);
      }
    }

    /** onItemRangeRemoved: a removed selection is retargeted to the start of the range, unclamped. */
    method OnItemRangeRemoved(positionStart: int, itemCount: int, h: Host)
      modifies this`pendingSelection, this`log
      ensures var s := SelectedItemPosition(h);
        if InRange(s, positionStart, itemCount) then
          pendingSelection == positionStart && log == old(log) + [ScrollToPosition(positionStart)]
        else pendingSelection == old(pendingSelection) && log == old(log)
      ensures var r := React(ItemRangeRemoved(positionStart, itemCount), h.hasStableIds, SelectedItemPosition(h), old(pendingSelection));
        pendingSelection == PendingAfter(old(pendingSelection), r) && log == old(log) + ScrollsOf(r)
    {
      var selectedPos := SelectedItemPosition(h);
      if selectedPos >= positionStart && selectedPos < positionStart + itemCount {
        SetSelection(positionStart);
      }
    }

    /**
     * setSelectionOnLayout: if a view is laid out at the position, request
     * focus on it when the widget has focus, else archive it as the view to
     * re-focus later.
     */
    method SetSelectionOnLayout(position: int, h: Host)
      modifies this`lastFocus, this`log
      ensures position in h.holders && h.hasFocus ==>
        log == old(log) + [RequestFocus(h.holders[position])] && lastFocus == old(lastFocus)
      ensures position in h.holders && !h.hasFocus ==>
        lastFocus == Some(h.holders[position]) && log == old(log)
      ensures position !in h.holders ==> lastFocus == old(lastFocus) && log == old(log)
    {
      var holder := h.HolderView(position);
      if holder.Some? {
        if h.hasFocus {
          log := log + [RequestFocus(holder.value)];
        } else {
          lastFocus := holder;
        }
      }
    }

    /** onLayout: resolve a pending position, and clear it whether or not a view was found. */
    method OnLayout(h: Host)
      modifies this`pendingSelection, this`lastFocus, this`log
      ensures pendingSelection == NO_POSITION
      ensures var p := old(pendingSelection);
        if p != NO_POSITION && p in h.holders then
          if h.hasFocus then log == old(log) + [RequestFocus(h.holders[p])] && lastFocus == old(lastFocus)
          else lastFocus == Some(h.holders[p]) && log == old(log)
        else lastFocus == old(lastFocus) && log == old(log)
    {
      if pendingSelection != NO_POSITION {
        SetSelectionOnLayout(pendingSelection, h);
        pendingSelection := NO_POSITION;
      }
    }

    // ---- Focus ----

    /**
     * requestNaturalFocus: ask the focus finder from the given rectangle (an
     * empty one at the origin when none was given), fall back to the first
     * child, and request focus on the result if there is one.
     */
    method RequestNaturalFocus(direction: int, previouslyFocusedRect: Option<Rect>,
                               finder: (Rect, int) -> Option<View>, h: Host)
      modifies this`log
      ensures var t := NaturalFocusTarget(finder(SearchRect(previouslyFocusedRect), direction), h.firstChild);
        log == old(log) + (if t.Some? then [RequestFocus(t.value)] else [])
    {
      var rect := if previouslyFocusedRect.None? then EMPTY_RECT else previouslyFocusedRect.value;
      var toFocus := finder(rect, direction);
      toFocus := if toFocus.None? then h.firstChild else toFocus;
      if toFocus.Some? {
        log := log + [RequestFocus(toFocus.value)];
      }
    }

    /**
     * onFocusChanged: on a gain, use natural search when it is favoured or
     * nothing is remembered, otherwise re-focus the remembered view.
     */
    method OnFocusChanged(gainFocus: bool, direction: int, previouslyFocusedRect: Option<Rect>,
                          finder: (Rect, int) -> Option<View>, h: Host)
      modifies this`log
      ensures !gainFocus ==> log == old(log)
      ensures gainFocus ==>
        match FocusGainChoice(rememberLastFocus, previouslyFocusedRect, lastFocus)
        case Restore(v) => log == old(log) + [RequestFocus(v)]
        case NaturalSearch =>
          var t := NaturalFocusTarget(finder(SearchRect(previouslyFocusedRect), direction), h.firstChild);
          log == old(log) + (if t.Some? then [RequestFocus(t.value)] else [])
    {
      if gainFocus {
        var favorNaturalFocus := !rememberLastFocus && previouslyFocusedRect.Some?;
        var lastFocusedView := lastFocus;
        if favorNaturalFocus || lastFocusedView.None? {
          RequestNaturalFocus(direction, previouslyFocusedRect, finder, h);
        } else {
          log := log + [RequestFocus(lastFocusedView.value)];
        }
      }
    }

    /** childSetSelected: mark the child, and fire item-selected when it becomes selected. */
    method ChildSetSelected(child: View, selected: bool)
      modifies this`log
      ensures log == old(log) + [SetSelected(child, selected)]
                    + (if selected && hasItemSelectedListener then [ItemSelected(child)] else [])
    {
      log := log + [SetSelected(child, selected)];
      if selected {
        FireOnItemSelectedEvent(child);
      }
    }

    method FireOnItemSelectedEvent(child: View)
      modifies this`log
      ensures log == old(log) + (if hasItemSelectedListener then [ItemSelected(child)] else [])
    {
      if hasItemSelectedListener {
        log := log + [ItemSelected(child)];
      }
    }

    method FireOnItemFocusedEvent(child: View)
      modifies this`log
      ensures log == old(log) + (if hasItemSelectedListener then [ItemFocused(child)] else [])
    {
      if hasItemSelectedListener {
        log := log + [ItemFocused(child)];
      }
    }

    method FireOnItemClickEvent(child: View)
      modifies this`log
      ensures log == old(log) + (if hasItemClickListener then [ItemClicked(child)] else [])
    {
      if hasItemClickListener {
        log := log + [ItemClicked(child)];
      }
    }

    /** The anchor loop of requestChildFocusInner: the first non-null selector. */
    method FindAnchorSelector() returns (anchor: Drawable?)
      requires Valid()
      ensures anchor == AnchorOf(selectorDrawables[..])
    {
      anchor := null;
      var i := 0;
      while i < selectorDrawables.Length
        invariant 0 <= i <= selectorDrawables.Length
        invariant FirstSelectorIndex(selectorDrawables[..], i) == FirstSelectorIndex(selectorDrawables[..], 0)
        invariant anchor == null
      {
        if selectorDrawables[i] != null {
          anchor := selectorDrawables[i];
          return;
        }
        i := i + 1;
      }
    }

    /** mSelectorAnimator.cancel(): a running set stops and its listener's cancel handler runs. */
    method CancelSelectorAnimator()
      requires Valid()
      modifies this`selectorAnimator, this`log
      ensures Valid()
      ensures State() == Cancel(old(State()), hasItemSelectedListener)
      ensures selectorAnimator.Some? <==> old(selectorAnimator).Some?
      ensures selectorAnimator.Some? ==> selectorAnimator.value.animators == old(selectorAnimator).value.animators
    {
      if selectorAnimator.Some? && selectorAnimator.value.running {
        var t := selectorAnimator.value;
        selectorAnimator := Some(t.(running := false));
        t.listener.OnAnimationCancel(this);
      }
    }

    /** The running set reached its end (a frame callback of the platform): its listener's end handler runs. */
    method OnSelectorAnimationEnd()
      requires Valid()
      modifies this`selectorAnimator, this`log
      ensures Valid()
      ensures State() == Finish(old(State()), hasItemSelectedListener)
    {
      if selectorAnimator.Some? && selectorAnimator.value.running {
        var t := selectorAnimator.value;
        selectorAnimator := Some(t.(running := false));
        t.listener.OnAnimationEnd(this);
      }
    }

    /**
     * animateSelectorChange with the shared listener: cancel the previous
     * set, build a new one playing both slot animators, give it the travel
     * duration and start it.
     */
    method AnimateSelectorChange()
      requires Valid()
      modifies this`selectorAnimator, this`log
      ensures Valid()
      ensures State() == Animate(old(State()), selectorVelocity, hasItemSelectedListener)
      ensures selectorAnimator.Some? && selectorAnimator.value.animators == selectorAnimators[..]
    {
      if selectorAnimator.Some? {
        CancelSelectorAnimator();
      }
      var animators: seq<Option<BoundsAnimator>> := [];
      for i := 0 to SELECTOR_COUNT
        invariant animators == selectorAnimators[..i]
      {
        animators := animators + [selectorAnimators[i]];
      }
      var duration := 0;
      if selectorVelocity > 0 {
        var dx := selectorDestRect.CenterX() - selectorSourceRect.CenterX();
        var dy := selectorDestRect.CenterY() - selectorSourceRect.CenterY();
        duration := TravelDuration(dx, dy, selectorVelocity);
      }
      selectorAnimator := Some(Transition(animators, reusableSelectListener, duration, true));
      reusableSelectListener.OnAnimationStart(this);
    }

    /**
     * requestChildFocusInner: with an anchor selector and an idle scroll
     * state, move the highlight from the anchor's bounds to the focused
     * view's hit rectangle, pointing the shared listener at the child and at
     * the previously archived view, and archive the child.
     */
    method RequestChildFocusInner(child: View, focused: View, focusedHitRect: Rect, h: Host)
      requires Valid()
      modifies this`lastFocus, this`selectorSourceRect, this`selectorDestRect, this`selectorAnimator, this`log
      modifies reusableSelectListener
      ensures Valid()
      ensures State() == ChildFocus(old(State()), AnchorBounds(), h.scrollState, child,
                                    focusedHitRect, selectorVelocity, hasItemSelectedListener)
    {
      var refSelector := FindAnchorSelector();
      var scrollState := h.scrollState;
      if refSelector != null && scrollState == SCROLL_STATE_IDLE {
        selectorSourceRect := refSelector.bounds;
        selectorDestRect := focusedHitRect;
        reusableSelectListener.toSelect := Some(child);
        reusableSelectListener.toDeselect := lastFocus;
        AnimateSelectorChange();
        lastFocus := Some(child);
      }
    }

    /** requestChildFocus: the inner transition step, then the item-focused callback. */
    method RequestChildFocus(child: View, focused: View, focusedHitRect: Rect, h: Host)
      requires Valid()
      modifies this`lastFocus, this`selectorSourceRect, this`selectorDestRect, this`selectorAnimator, this`log
      modifies reusableSelectListener
      ensures Valid()
      ensures var t := ChildFocus(old(State()), AnchorBounds(), h.scrollState, child,
                                  focusedHitRect, selectorVelocity, hasItemSelectedListener);
        State() == t.(log := t.log + (if hasItemSelectedListener then [ItemFocused(child)] else []))
    {
      RequestChildFocusInner(child, focused, focusedHitRect, h);
      FireOnItemFocusedEvent(child);
    }

    /** onScrollStateChanged: when scrolling settles, redo the transition step for the focused child. */
    method OnScrollStateChanged(state: int, focusedHitRect: Rect, h: Host)
      requires Valid()
      modifies this`lastFocus, this`selectorSourceRect, this`selectorDestRect, this`selectorAnimator, this`log
      modifies reusableSelectListener
      ensures Valid()
      ensures state == SCROLL_STATE_IDLE && h.focusedChild.Some? ==>
        State() == ChildFocus(old(State()), AnchorBounds(), h.scrollState, h.focusedChild.value,
                              focusedHitRect, selectorVelocity, hasItemSelectedListener)
      ensures !(state == SCROLL_STATE_IDLE && h.focusedChild.Some?) ==> State() == old(State())
    {
      if state == SCROLL_STATE_IDLE {
        var focusedChild := h.focusedChild;
        if focusedChild.Some? {
          RequestChildFocusInner(focusedChild.value, focusedChild.value, focusedHitRect, h);
        }
      }
    }

    /** enforceSelectorsVisibility: every non-null selector is shown iff not in touch mode and focused. */
    method EnforceSelectorsVisibility(inTouchMode: bool, hasFocus: bool)
      requires Valid()
      modifies set i | 0 <= i < selectorDrawables.Length && selectorDrawables[i] != null :: selectorDrawables[i]
      ensures forall i :: 0 <= i < selectorDrawables.Length && selectorDrawables[i] != null ==>
        selectorDrawables[i].visible == SelectorsVisible(inTouchMode, hasFocus)
      ensures forall i :: 0 <= i < selectorDrawables.Length && selectorDrawables[i] != null ==>
        selectorDrawables[i].bounds == old(selectorDrawables[i].bounds)
    {
      var visible := !inTouchMode && hasFocus;
      for i := 0 to selectorDrawables.Length
        invariant forall j :: 0 <= j < i && selectorDrawables[j] != null ==> selectorDrawables[j].visible == visible
        invariant forall j :: 0 <= j < selectorDrawables.Length && selectorDrawables[j] != null ==>
          selectorDrawables[j].bounds == old(selectorDrawables[j].bounds)
      {
        if selectorDrawables[i] != null {
          selectorDrawables[i].visible := visible;
        }
      }
    }

    /** onGlobalFocusChanged: recompute the selectors' visibility from touch mode and focus. */
    method OnGlobalFocusChanged(oldFocus: Option<View>, newFocus: Option<View>, h: Host)
      requires Valid()
      modifies set i | 0 <= i < selectorDrawables.Length && selectorDrawables[i] != null :: selectorDrawables[i]
      ensures forall i :: 0 <= i < selectorDrawables.Length && selectorDrawables[i] != null ==>
        selectorDrawables[i].visible == SelectorsVisible(h.inTouchMode, h.hasFocus)
      ensures forall i :: 0 <= i < selectorDrawables.Length && selectorDrawables[i] != null ==>
        selectorDrawables[i].bounds == old(selectorDrawables[i].bounds)
    {
      EnforceSelectorsVisibility(h.inTouchMode, h.hasFocus);
    }

    // ---- Input ----

    /**
     * dispatchKeyEvent: returns what the platform's dispatch returned, and
     * fires item-click for the first DPAD_CENTER down on a focused child.
     */
    method DispatchKeyEvent(event: KeyEvent, superConsumed: bool, h: Host) returns (consumed: bool)
      modifies this`log
      ensures consumed == superConsumed
      ensures log == old(log) + (if ClickFires(h.focusedChild, hasItemClickListener, event)
                                 then [ItemClicked(h.focusedChild.value)] else [])
    {
      consumed := superConsumed;
      var focusedChild := h.focusedChild;
      if focusedChild.Some? && hasItemClickListener
         && event.action == ACTION_DOWN
         && event.keyCode == KEYCODE_DPAD_CENTER
         && event.repeatCount == 0 {
        FireOnItemClickEvent(focusedChild.value);
      }
    }

    /**
     * addFocusables: while the widget holds focus its descendants' focusables
     * (what the platform adds) are offered; otherwise only the widget itself,
     * and only when it is focusable.
     */
    method AddFocusables(views: seq<FocusCandidate>, descendants: seq<FocusCandidate>, h: Host)
      returns (r: seq<FocusCandidate>)
      ensures h.hasFocus ==> r == views + descendants
      ensures !h.hasFocus ==> r == views + (if focusable then [Container] else [])
    {
      if h.hasFocus {
        r := views + descendants;
      } else if focusable {
        r := views + [Container];
      } else {
        r := views;
      }
    }
  }

  /** An entry of the list addFocusables fills: the container itself or a child view. */
  datatype FocusCandidate = Container | Child(view: View)
}
