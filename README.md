# DpadAwareRecyclerView — a verified model

This project models the focus-and-selection core of `DpadAwareRecyclerView`, an
Android `RecyclerView` that can be driven by a directional pad. The widget

- keeps a **pending selection**: an adapter position to select after the next
  layout pass. It sets this from `setSelection` and from its adapter-data
  observer, which reacts to inserted, removed, moved and changed ranges.
- keeps a **focus memory** entry: the last focused child. It re-focuses that
  child when the container gains focus again, unless natural focus search is
  favoured.
- owns **two selector slots** (FOREGROUND = 0, BACKGROUND = 1). Their highlight
  is animated from its current bounds to the newly focused child. The travel
  time follows from the velocity and the distance.
- uses **one shared listener** for every transition. It marks the previous
  child deselected when a transition starts. It marks the new child selected
  when the transition ends or is cancelled.
- gates the **item-click** callback on the first DPAD_CENTER key-down. It also
  decides which focusables it offers to focus search.

Files, one module each:

- `Wrappers.dfy`: `Option`, `Result` and `Outcome`.
- `Platform.dfy`: views as ids, `Rect` with Android's centre rounding, key events,
  and the `Host` snapshot of the container's answers to queries (focused child,
  adapter positions, laid-out view per position, first child, focus, touch mode,
  scroll state, stable ids). Also the `Effect` log of commands and callbacks (scroll
  requests, focus requests, selected flags, item callbacks), and the platform
  `Drawable` class, whose bounds and visibility are mutable.
- `Travel.dfy`: `computeTravelDuration` and the duration rule of `animateSelectorChange`.
- `PendingSelection.dfy`: the observer's reactions as a function. Lemmas relate
  them to the adapter's contents before and after the change.
- `FocusRules.dfy`: the focus-gain choice, natural-search fallback, the click gate
  and its count over key-event streams, and the visibility rule.
- `SelectorTransitions.dfy`: the transition state machine as functions of the
  state. This state is the focus memory, the shared listener's two fields, the
  rectangles, the animator set and the log.
- `DpadAwareRecyclerView.dfy`: the widget as a class over that state. The two
  selector tables are arrays of length 2, and the listener is its own class.
  It is shared by reference, and every animator set points at it. Each handler
  follows the source's branches. Handlers that change the transition state are
  specified as `State() == F(old(State()), …)`, with `F` from `SelectorTransitions`.
- `Scenarios.dfy`: clients that drive the widget through concrete event sequences.

Behaviour of the code worth knowing, all of it modelled as written:

- Insertion moves the selection only when the selected position lies INSIDE the
  inserted range (line 165), not when it lies after it;
  `InsertAfterRangeNotRetargeted` shows this.
- Removal retargets to `positionStart` with no clamping (line 174);
  `RemoveAtTailIsNotClamped` shows the tail case.
- `onLayout` clears the pending position even when no view was found for it
  (lines 535-538); `LayoutDropsUnresolvedPosition` shows this.
- Item-click fires on the key-DOWN with repeat count 0 (lines 759-761). Releasing
  the key plays no part.
- The travel duration is truncated by the `(int)` cast (line 715), not rounded.
  Negative velocities are accepted and mean an instant transition.

## Model

| member | source | states |
|---|---|---|
| `Travel.Isqrt` | lib/src/main/java/net/ganin/darv/DpadAwareRecyclerView.java:714-716 | The integer square root that stands for Math.sqrt: the result r satisfies r² ≤ n < (r+1)². |
| `Travel.TravelDuration` | lib/src/main/java/net/ganin/darv/DpadAwareRecyclerView.java:714-716 | computeTravelDuration in exact arithmetic: the result d is the largest whole number of milliseconds with d·v ≤ 1000·√(dx²+dy²), i.e. the truncation of sqrt(dx²+dy²)/v·1000. |
| `Travel.TransitionDuration` | lib/src/main/java/net/ganin/darv/DpadAwareRecyclerView.java:697-704 | The duration animateSelectorChange sets is 0 whenever the velocity is ≤ 0, and the travel duration between the two rectangle centres otherwise. |
| `Travel.ExactDistanceDuration` | lib/src/main/java/net/ganin/darv/DpadAwareRecyclerView.java:714-716 | When dx²+dy² is a perfect square d², the duration is exactly ⌊1000·d / v⌋. |
| `Travel.TravelDurationExample` | lib/src/main/java/net/ganin/darv/DpadAwareRecyclerView.java:714-716 | dx = 300, dy = 400, velocity 500 gives 1000 ms. |
| `Travel.TransitionDurationExample` | lib/src/main/java/net/ganin/darv/DpadAwareRecyclerView.java:697-704 | A highlight centred at (0,0) travelling to one centred at (300,400) at velocity 500 takes 1000 ms. |
| `Travel.TransitionDurationSymmetric` | lib/src/main/java/net/ganin/darv/DpadAwareRecyclerView.java:697-702 | The duration is the same in both directions of travel. |
| `Travel.SamePlaceIsInstant` | lib/src/main/java/net/ganin/darv/DpadAwareRecyclerView.java:697-702 | A transition between rectangles with the same centre takes 0 ms. |
| `PendingSelection.ReactToRangeChange` | lib/src/main/java/net/ganin/darv/DpadAwareRecyclerView.java:135-147 | Nothing changes with stable ids; otherwise a position is made pending, never NO_POSITION: the selection when it lies in the range, else the pending position when there is one, else 0. No setSelection. |
| `PendingSelection.React` | lib/src/main/java/net/ganin/darv/DpadAwareRecyclerView.java:122-177 | The observer's decision for each notification: only the three change notifications make a position pending, and exactly when there are no stable ids, never NO_POSITION; only move, insert and remove call setSelection, and exactly when the selection lies in the moved, inserted or removed range. |
| `PendingSelection.InsertedReaction` | lib/src/main/java/net/ganin/darv/DpadAwareRecyclerView.java:162-168 | Insertion calls setSelection(s + count), scrolling there, exactly when the selected position s lies inside [start, start+count); otherwise pending and scroll requests are unchanged. |
| `PendingSelection.RemovedReaction` | lib/src/main/java/net/ganin/darv/DpadAwareRecyclerView.java:170-176 | Removal calls setSelection(start) with no clamping exactly when s lies in the removed range; otherwise nothing changes. |
| `PendingSelection.MovedReaction` | lib/src/main/java/net/ganin/darv/DpadAwareRecyclerView.java:154-160 | A move calls setSelection(s - from + to) exactly when s lies in [from, from+count); otherwise nothing changes. |
| `PendingSelection.MoveRoundTrip` | lib/src/main/java/net/ganin/darv/DpadAwareRecyclerView.java:154-160 | Moving the block back from `to` to `from` retargets the moved selection to its original position. |
| `PendingSelection.ChangedReaction` | lib/src/main/java/net/ganin/darv/DpadAwareRecyclerView.java:124-133 | onChanged without stable ids makes the selected position pending, or 0 when nothing is selected. |
| `PendingSelection.RangeChangedReaction` | lib/src/main/java/net/ganin/darv/DpadAwareRecyclerView.java:135-147 | onItemRangeChanged without stable ids makes the selection pending only if it lies in the range, then turns a pending NO_POSITION into 0. |
| `PendingSelection.ChangeLeavesPositionPending` | lib/src/main/java/net/ganin/darv/DpadAwareRecyclerView.java:124-152 | Without stable ids, every change notification leaves a real position (never NO_POSITION) pending and requests no scroll. |
| `PendingSelection.StableIdsIgnoreChanges` | lib/src/main/java/net/ganin/darv/DpadAwareRecyclerView.java:124-147 | With stable ids, change notifications leave the pending position untouched. |
| `PendingSelection.PayloadIsIgnored` | lib/src/main/java/net/ganin/darv/DpadAwareRecyclerView.java:149-152 | The payload variant of onItemRangeChanged reacts exactly like the plain one. |
| `PendingSelection.InsertRetargetFollowsItem` | lib/src/main/java/net/ganin/darv/DpadAwareRecyclerView.java:162-168 | When insertion retargets, the new pending position holds, in the updated adapter contents, the item that was selected. |
| `PendingSelection.InsertAfterRangeNotRetargeted` | lib/src/main/java/net/ganin/darv/DpadAwareRecyclerView.java:162-168 | A selection after the inserted range is not retargeted, although its item moved by the count. |
| `PendingSelection.RemoveRetargetsToSuccessor` | lib/src/main/java/net/ganin/darv/DpadAwareRecyclerView.java:170-176 | When the removed range is not at the tail, the retargeted position holds the first item after the removed range. |
| `PendingSelection.RemoveAtTailIsNotClamped` | lib/src/main/java/net/ganin/darv/DpadAwareRecyclerView.java:170-176 | When the removed range reaches the end of the adapter, the retargeted position is one past the last remaining item. |
| `PendingSelection.MoveRetargetFollowsItem` | lib/src/main/java/net/ganin/darv/DpadAwareRecyclerView.java:154-160 | When a move retargets, the new pending position holds, in the moved contents, the item that was selected. |
| `FocusRules.FavorNaturalFocus` | lib/src/main/java/net/ganin/darv/DpadAwareRecyclerView.java:588 | Natural focus is favoured exactly when focus memory is off and a previously focused rectangle was supplied. |
| `FocusRules.ClickFires` | lib/src/main/java/net/ganin/darv/DpadAwareRecyclerView.java:757-761 | A key event fires item-click only with a focused child and a click listener, and never unless it is the first DPAD_CENTER key-down (repeat count 0). |
| `FocusRules.Clicks` | lib/src/main/java/net/ganin/darv/DpadAwareRecyclerView.java:752-765 | Dispatching a stream of key events fires at most one item-click per event. |
| `FocusRules.SelectorsVisible` | lib/src/main/java/net/ganin/darv/DpadAwareRecyclerView.java:719 | Selectors are shown exactly when the widget is not in touch mode and has focus. |
| `FocusRules.FocusGainChoice` | lib/src/main/java/net/ganin/darv/DpadAwareRecyclerView.java:588-594 | Natural search is chosen iff (!rememberLastFocus && previouslyFocusedRect != null) or no view is remembered; otherwise the remembered view is re-focused. |
| `FocusRules.SearchRect` | lib/src/main/java/net/ganin/darv/DpadAwareRecyclerView.java:604-607 | Natural search starts from the supplied rectangle, or from an empty rectangle at the origin when none is supplied. |
| `FocusRules.NaturalFocusTarget` | lib/src/main/java/net/ganin/darv/DpadAwareRecyclerView.java:608-612 | The focus finder's result is used when there is one; otherwise child 0; otherwise nothing. |
| `FocusRules.RememberedViewIsRestored` | lib/src/main/java/net/ganin/darv/DpadAwareRecyclerView.java:588-594 | With focus memory on, a remembered view is re-focused whatever rectangle is passed. |
| `FocusRules.ClicksAppend` | lib/src/main/java/net/ganin/darv/DpadAwareRecyclerView.java:752-765 | The number of clicks fired over two event streams is the sum of the clicks of each. |
| `FocusRules.RepeatsDoNotClick` | lib/src/main/java/net/ganin/darv/DpadAwareRecyclerView.java:761 | Auto-repeated key-downs (repeat count ≥ 1) never fire item-click. |
| `FocusRules.PressClicksOnce` | lib/src/main/java/net/ganin/darv/DpadAwareRecyclerView.java:752-765 | One DPAD_CENTER press, held for any number of repeats and then released, fires item-click exactly once. |
| `FocusRules.ClicksPerPress` | lib/src/main/java/net/ganin/darv/DpadAwareRecyclerView.java:752-765 | n presses fire exactly n item-clicks. |
| `FocusRules.NoClickWithoutTarget` | lib/src/main/java/net/ganin/darv/DpadAwareRecyclerView.java:757-758 | Without a focused child or without a click listener, no key event sequence fires item-click. |
| `SelectorTransitions.DeselectEffects` | lib/src/main/java/net/ganin/darv/DpadAwareRecyclerView.java:184-189 | The start handler's effects are empty iff there is no view to deselect; otherwise they only mark that view not selected. |
| `SelectorTransitions.SelectEffects` | lib/src/main/java/net/ganin/darv/DpadAwareRecyclerView.java:191-196 | The end handler's effects are empty iff there is no view to select; they begin by marking it selected, and otherwise only report it selected, the latter only with a select listener. |
| `SelectorTransitions.Finish` | lib/src/main/java/net/ganin/darv/DpadAwareRecyclerView.java:191-196 | After the end of a transition none runs; a stopped one is left as it was; only the running flag and the log change, the transition stays present, and the log only grows. |
| `SelectorTransitions.Cancel` | lib/src/main/java/net/ganin/darv/DpadAwareRecyclerView.java:198-201 | After cancelling none runs, and the log gains exactly the end handler's effects for the listener's current view when a transition was running. |
| `SelectorTransitions.Animate` | lib/src/main/java/net/ganin/darv/DpadAwareRecyclerView.java:683-706 | animateSelectorChange leaves a running transition whose duration follows from the velocity and the two rectangles; the focus memory, the listener's fields and the rectangles are kept, and the log only grows. |
| `SelectorTransitions.ChildFocus` | lib/src/main/java/net/ganin/darv/DpadAwareRecyclerView.java:635-660 | Without an anchor or with a scroll in progress nothing changes; otherwise a transition runs, the child is archived, and the listener points at the child and at the previously archived view. The log only grows. |
| `SelectorTransitions.ChildFocusGate` | lib/src/main/java/net/ganin/darv/DpadAwareRecyclerView.java:635-660 | A transition starts and the child is archived exactly when an anchor selector exists and the scroll state is idle; it runs from the anchor's bounds to the child's hit rect with the computed duration, and points the listener at the child and the previously archived view. Otherwise nothing changes. |
| `SelectorTransitions.ChildFocusEffects` | lib/src/main/java/net/ganin/darv/DpadAwareRecyclerView.java:653-686 | The effects, in order: the cancellation of a running transition selects the NEW child (the shared listener is overwritten before the cancel), then the new start deselects the previously archived view. |
| `SelectorTransitions.RetargetSkipsCancelledTarget` | lib/src/main/java/net/ganin/darv/DpadAwareRecyclerView.java:653-686 | Re-targeting while a transition runs never marks the cancelled transition's target selected nor fires item-selected for it. |
| `SelectorTransitions.DeselectPrecedesSelect` | lib/src/main/java/net/ganin/darv/DpadAwareRecyclerView.java:184-196 | From a quiet state, a child-focus step then the end of its transition deselect the previously archived view before selecting the new child and firing item-selected. |
| `SelectorTransitions.FinishIdempotent` | lib/src/main/java/net/ganin/darv/DpadAwareRecyclerView.java:191-201 | Ending (or cancelling) a transition twice has the effect of doing it once; afterwards no transition runs. |
| `SelectorTransitions.FinishKeepsFocusMemory` | lib/src/main/java/net/ganin/darv/DpadAwareRecyclerView.java:191-201 | Ending a transition changes only the log and the running flag: every other field is kept, a transition stays present and keeps its duration. |
| `DpadAware.AnchorOf` | lib/src/main/java/net/ganin/darv/DpadAwareRecyclerView.java:636-643 | The anchor is null iff both selector slots are empty; otherwise it is the first non-null slot in index order. |
| `DpadAware.EnforceSelectorIndexBounds` | lib/src/main/java/net/ganin/darv/DpadAwareRecyclerView.java:426-431 | A selector index passes iff it lies in [0, 2); otherwise the index-out-of-bounds error is raised for that index. |
| `DpadAware.SelectedItemPosition` | lib/src/main/java/net/ganin/darv/DpadAwareRecyclerView.java:474-477 | The adapter position of the focused child; NO_POSITION when no child is focused. |
| `DpadAware.FirstSelectorIndex` | lib/src/main/java/net/ganin/darv/DpadAwareRecyclerView.java:636-643 | The index of the first non-null selector: all earlier slots are null and the found slot is non-null. |
| `DpadAware.SelectAnimatorListener.OnAnimationStart` | lib/src/main/java/net/ganin/darv/DpadAwareRecyclerView.java:184-189 | Starting a transition marks mToDeselect, if any, not selected. |
| `DpadAware.SelectAnimatorListener.OnAnimationEnd` | lib/src/main/java/net/ganin/darv/DpadAwareRecyclerView.java:191-196 | Ending a transition marks mToSelect, if any, selected and fires item-selected when a listener is set. |
| `DpadAware.SelectAnimatorListener.OnAnimationCancel` | lib/src/main/java/net/ganin/darv/DpadAwareRecyclerView.java:198-201 | Cancelling has exactly the effects of ending. |
| `DpadAware.DpadAwareRecyclerView.constructor` | lib/src/main/java/net/ganin/darv/DpadAwareRecyclerView.java:227-256 | A new widget has no pending position, no remembered focus, focus memory on, velocity 0, two empty selector slots, no animator set and no listeners, and is focusable with descendants after the container. |
| `DpadAware.DpadAwareRecyclerView.SetSelectorVelocity` | lib/src/main/java/net/ganin/darv/DpadAwareRecyclerView.java:318-320 | The velocity is stored as given; a value ≤ 0 later means an instant transition. |
| `DpadAware.DpadAwareRecyclerView.SetSmoothScrolling` | lib/src/main/java/net/ganin/darv/DpadAwareRecyclerView.java:338-340 | The smooth-scrolling flag is stored. |
| `DpadAware.DpadAwareRecyclerView.SetRememberLastFocus` | lib/src/main/java/net/ganin/darv/DpadAwareRecyclerView.java:506-508 | The focus-memory flag is stored. |
| `DpadAware.DpadAwareRecyclerView.SetOnItemClickListener` | lib/src/main/java/net/ganin/darv/DpadAwareRecyclerView.java:439-441 | Whether a click listener is present is stored. |
| `DpadAware.DpadAwareRecyclerView.SetOnItemSelectedListener` | lib/src/main/java/net/ganin/darv/DpadAwareRecyclerView.java:457-459 | Whether a select listener is present is stored. |
| `DpadAware.DpadAwareRecyclerView.SetEnabled` | lib/src/main/java/net/ganin/darv/DpadAwareRecyclerView.java:510-515 | Enabled: focusable, descendants focusable first. Disabled: not focusable, descendants blocked. |
| `DpadAware.DpadAwareRecyclerView.SetSelector` | lib/src/main/java/net/ganin/darv/DpadAwareRecyclerView.java:406-412 | At an index in [0, 2) the drawable and a bounds animator for it are stored in that slot and the other slot is unchanged; any other index fails with the index error and changes nothing. |
| `DpadAware.DpadAwareRecyclerView.GetSelector` | lib/src/main/java/net/ganin/darv/DpadAwareRecyclerView.java:414-418 | At an index in [0, 2) returns what the slot holds; any other index returns the index error. |
| `DpadAware.DpadAwareRecyclerView.SetBackgroundSelector` | lib/src/main/java/net/ganin/darv/DpadAwareRecyclerView.java:357-359 | Stores into slot BACKGROUND only. |
| `DpadAware.DpadAwareRecyclerView.SetForegroundSelector` | lib/src/main/java/net/ganin/darv/DpadAwareRecyclerView.java:384-386 | Stores into slot FOREGROUND only. |
| `DpadAware.DpadAwareRecyclerView.GetBackgroundSelector` | lib/src/main/java/net/ganin/darv/DpadAwareRecyclerView.java:375-377 | As written: returns slot FOREGROUND. |
| `DpadAware.DpadAwareRecyclerView.GetBackgroundSelectorCorrected` | lib/src/main/java/net/ganin/darv/DpadAwareRecyclerView.java:375-377 | As intended: returns slot BACKGROUND. |
| `DpadAware.DpadAwareRecyclerView.GetForegroundSelector` | lib/src/main/java/net/ganin/darv/DpadAwareRecyclerView.java:402-404 | Returns slot FOREGROUND. |
| `DpadAware.DpadAwareRecyclerView.SetSelection` | lib/src/main/java/net/ganin/darv/DpadAwareRecyclerView.java:485-488 | Requests a scroll to the position, then makes it the pending position. |
| `DpadAware.DpadAwareRecyclerView.OnChanged` | lib/src/main/java/net/ganin/darv/DpadAwareRecyclerView.java:124-133 | Without stable ids pending becomes the selection, or 0 if none; with stable ids it is unchanged; no scroll. |
| `DpadAware.DpadAwareRecyclerView.OnItemRangeChanged` | lib/src/main/java/net/ganin/darv/DpadAwareRecyclerView.java:135-147 | Without stable ids a selection in range becomes pending and a NO_POSITION left pending becomes 0; with stable ids nothing changes. |
| `DpadAware.DpadAwareRecyclerView.OnItemRangeChangedWithPayload` | lib/src/main/java/net/ganin/darv/DpadAwareRecyclerView.java:149-152 | Same effect as the plain variant. |
| `DpadAware.DpadAwareRecyclerView.OnItemRangeMoved` | lib/src/main/java/net/ganin/darv/DpadAwareRecyclerView.java:154-160 | A selection s in [from, from+count) becomes pending at s - from + to with a scroll there; otherwise nothing changes. |
| `DpadAware.DpadAwareRecyclerView.OnItemRangeInserted` | lib/src/main/java/net/ganin/darv/DpadAwareRecyclerView.java:162-168 | A selection s inside [start, start+count) becomes pending at s + count with a scroll there; otherwise nothing changes. |
| `DpadAware.DpadAwareRecyclerView.OnItemRangeRemoved` | lib/src/main/java/net/ganin/darv/DpadAwareRecyclerView.java:170-176 | A selection inside the removed range becomes pending at start, unclamped, with a scroll there; otherwise nothing changes. |
| `DpadAware.DpadAwareRecyclerView.SetSelectionOnLayout` | lib/src/main/java/net/ganin/darv/DpadAwareRecyclerView.java:541-551 | A laid-out view at the position is asked for focus when the widget has focus, else archived as the last focus; without such a view nothing happens. |
| `DpadAware.DpadAwareRecyclerView.OnLayout` | lib/src/main/java/net/ganin/darv/DpadAwareRecyclerView.java:531-539 | A pending position is resolved as above; in every case pending ends as NO_POSITION, also when no view was found. |
| `DpadAware.DpadAwareRecyclerView.RequestNaturalFocus` | lib/src/main/java/net/ganin/darv/DpadAwareRecyclerView.java:604-613 | Focus is requested on the finder's result from the supplied (or empty) rectangle, else on child 0, else on nothing. |
| `DpadAware.DpadAwareRecyclerView.OnFocusChanged` | lib/src/main/java/net/ganin/darv/DpadAwareRecyclerView.java:577-596 | On a focus gain: the remembered view is asked for focus, or natural search runs, as FocusGainChoice decides; on a loss nothing happens. |
| `DpadAware.DpadAwareRecyclerView.ChildSetSelected` | lib/src/main/java/net/ganin/darv/DpadAwareRecyclerView.java:743-749 | The child's selected flag is set; becoming selected also fires item-selected when a listener is set. |
| `DpadAware.DpadAwareRecyclerView.FireOnItemSelectedEvent` | lib/src/main/java/net/ganin/darv/DpadAwareRecyclerView.java:807-813 | Item-selected fires iff a select listener is set. |
| `DpadAware.DpadAwareRecyclerView.FireOnItemFocusedEvent` | lib/src/main/java/net/ganin/darv/DpadAwareRecyclerView.java:799-805 | Item-focused fires iff a select listener is set. |
| `DpadAware.DpadAwareRecyclerView.FireOnItemClickEvent` | lib/src/main/java/net/ganin/darv/DpadAwareRecyclerView.java:791-797 | Item-click fires iff a click listener is set. |
| `DpadAware.DpadAwareRecyclerView.FindAnchorSelector` | lib/src/main/java/net/ganin/darv/DpadAwareRecyclerView.java:636-643 | Returns the first non-null selector in index order, or null when both slots are empty. |
| `DpadAware.DpadAwareRecyclerView.CancelSelectorAnimator` | lib/src/main/java/net/ganin/darv/DpadAwareRecyclerView.java:684-686 | A running animator set stops and its listener's cancel handler runs with the listener's current fields; a stopped one is left alone. |
| `DpadAware.DpadAwareRecyclerView.OnSelectorAnimationEnd` | lib/src/main/java/net/ganin/darv/DpadAwareRecyclerView.java:191-196 | When the running set ends, its listener's end handler runs; the state becomes Finish of the old state. |
| `DpadAware.DpadAwareRecyclerView.AnimateSelectorChange` | lib/src/main/java/net/ganin/darv/DpadAwareRecyclerView.java:683-706 | Cancels the previous set, then starts a new one playing both slot animators with the shared listener and the computed duration; starting it deselects mToDeselect. |
| `DpadAware.DpadAwareRecyclerView.RequestChildFocusInner` | lib/src/main/java/net/ganin/darv/DpadAwareRecyclerView.java:635-660 | The new transition state is ChildFocus of the old one, given the anchor's bounds, the scroll state and the focused view's hit rect. |
| `DpadAware.DpadAwareRecyclerView.RequestChildFocus` | lib/src/main/java/net/ganin/darv/DpadAwareRecyclerView.java:615-621 | The inner transition step, then item-focused for the child, on every call. |
| `DpadAware.DpadAwareRecyclerView.OnScrollStateChanged` | lib/src/main/java/net/ganin/darv/DpadAwareRecyclerView.java:623-633 | When the scroll state becomes idle with a focused child, the inner step runs for that child; otherwise nothing changes. |
| `DpadAware.DpadAwareRecyclerView.EnforceSelectorsVisibility` | lib/src/main/java/net/ganin/darv/DpadAwareRecyclerView.java:718-726 | Every non-null selector becomes visible iff not in touch mode and the widget has focus; bounds are untouched. |
| `DpadAware.DpadAwareRecyclerView.OnGlobalFocusChanged` | lib/src/main/java/net/ganin/darv/DpadAwareRecyclerView.java:569-575 | Any focus change in the hierarchy recomputes selector visibility from touch mode and focus, leaving every selector's bounds untouched. |
| `DpadAware.DpadAwareRecyclerView.DispatchKeyEvent` | lib/src/main/java/net/ganin/darv/DpadAwareRecyclerView.java:751-765 | Returns the platform dispatch's result; item-click fires only for ACTION_DOWN of DPAD_CENTER with repeat count 0, a focused child and a click listener. |
| `DpadAware.DpadAwareRecyclerView.AddFocusables` | lib/src/main/java/net/ganin/darv/DpadAwareRecyclerView.java:781-789 | With focus, the descendants' focusables are offered; without focus, the widget itself only if focusable, else nothing. |
| `Scenarios.SelectThenLayoutWhileUnfocused` | lib/src/main/java/net/ganin/darv/DpadAwareRecyclerView.java:531-551 | setSelection(3) on an unfocused widget, then layout with 5 items: item 3's view is archived, no focus is requested, pending is NO_POSITION. |
| `Scenarios.SelectThenLayoutWhileFocused` | lib/src/main/java/net/ganin/darv/DpadAwareRecyclerView.java:531-551 | The same with focus: focus is requested on item 3's view and nothing is archived. |
| `Scenarios.RemoveRangeHoldingSelection` | lib/src/main/java/net/ganin/darv/DpadAwareRecyclerView.java:170-176 | Item 1 focused, items [0, 2) removed: a scroll to 0 and pending 0. |
| `Scenarios.LayoutDropsUnresolvedPosition` | lib/src/main/java/net/ganin/darv/DpadAwareRecyclerView.java:535-538 | A pending position without a laid-out view is dropped by the layout pass. |
| `Scenarios.RetargetDuringTransition` | lib/src/main/java/net/ganin/darv/DpadAwareRecyclerView.java:653-706 | Focus on item 1 then item 2 before the first transition ends: item 2 is selected by the cancel and again by the end (item-selected fires twice), item 1 is deselected in between and never selected. |
| `Scenarios.FocusFirstChild` | lib/src/main/java/net/ganin/darv/DpadAwareRecyclerView.java:635-660 | A new widget with one foreground selector, focused on item 1: its transition runs, item 1 is archived and nothing is logged yet. |
| `Scenarios.RetargetTrace` | lib/src/main/java/net/ganin/darv/DpadAwareRecyclerView.java:653-706 | For any running transition towards `prev` with an empty log, moving focus to `child` and ending the new transition logs: select `child`, item-selected `child`, deselect `prev`, select `child`, item-selected `child`. |
| `Scenarios.ChildFocusWithoutSelector` | lib/src/main/java/net/ganin/darv/DpadAwareRecyclerView.java:635-660 | Without a selector, requestChildFocus starts no transition, archives nothing and only fires item-focused. |
| `Scenarios.BackgroundSelectorNotReadBack` | lib/src/main/java/net/ganin/darv/DpadAwareRecyclerView.java:375-377 | After setBackgroundSelector(d) on a new widget, getBackgroundSelector returns null, not d. |
| `Scenarios.BackgroundSelectorRoundTrip` | lib/src/main/java/net/ganin/darv/DpadAwareRecyclerView.java:357-377 | With the corrected getter, getBackgroundSelector returns what setBackgroundSelector stored. |
| `Scenarios.SelectorRoundTrip` | lib/src/main/java/net/ganin/darv/DpadAwareRecyclerView.java:406-418 | getSelector returns what setSelector stored at a valid index; both reject any other index with the index error. |
| `Scenarios.DisabledWidgetOffersNoFocusables` | lib/src/main/java/net/ganin/darv/DpadAwareRecyclerView.java:510-515 | After setEnabled(false), an unfocused widget offers nothing to focus search. |

## Findings

| source | as written | input that shows it | evidently intended | confidence | as-written member | corrected member |
|---|---|---|---|---|---|---|
| lib/src/main/java/net/ganin/darv/DpadAwareRecyclerView.java:375-377 | `getBackgroundSelector` returns `getSelector(FOREGROUND)` | `setBackgroundSelector(d)` on a new widget, then `getBackgroundSelector()` returns null instead of `d` | return `getSelector(BACKGROUND)`, the slot `setBackgroundSelector` writes | high; not executed | `Scenarios.BackgroundSelectorNotReadBack` | `DpadAware.DpadAwareRecyclerView.GetBackgroundSelectorCorrected` |

The corrected getter's round trip with `setBackgroundSelector` is proved in
`Scenarios.BackgroundSelectorRoundTrip`.

## Left out

- Drawing: `onDraw`, `drawSelectorIfVisible`, the drawable callback and `setSelectorCallback` (lines 210-225, 662-678, 737-741) are rendering and platform I/O, and so is `init`'s `setWillNotDraw(false)` (line 310). The draw order (background, then foreground) is not modelled.
- Attribute and resource loading: `init`'s attribute parsing, `getDrawableResource`, and the resource-id overloads of `setBackgroundSelector` and `setForegroundSelector` (lines 282-306, 366-368, 393-395, 728-735). The constructor models the first two of `init`'s last three calls, `setFocusable(true)` and `setDescendantFocusability(FOCUS_BEFORE_DESCENDANTS)`.
- Animation frames: the model does not produce the interpolated bounds. So a drawable's bounds change only when the platform sets them, not at the end of a transition. The `ObjectAnimator` references to the shared source and destination `Rect` objects are not modelled either.
- The platform's own ordering of animator callbacks is not modelled. On the platform, cancelling an `AnimatorSet` may deliver `onAnimationEnd` after `onAnimationCancel`. The model delivers the cancel handler once and the end of a running transition as a separate event.
- DpadAware.DpadAwareRecyclerView.AnimateSelectorChange: takes no listener parameter and always uses the shared listener. Its only caller passes exactly that listener (line 656).
- `FocusFinder.findNextFocusFromRect` (line 608) is a function parameter (an oracle). `getHitRect` and the results of `super.dispatchKeyEvent` and `super.addFocusables` are parameters too.
- `requestFocus` on a view is logged as a command. The platform's resulting `requestChildFocus` callback is a separate event that the environment delivers.
- Floating point: `Math.sqrt` and the division of `computeTravelDuration` are taken in exact arithmetic. Double rounding is not modelled.
- Travel.TravelDuration: does not model 32-bit overflow of `dx * dx + dy * dy` or the saturation of the `(int)` cast, because positions and rectangles are unbounded integers.
- PendingSelection.React: does not model 32-bit overflow of `s + count` and `s - from + to`, for the same reason.
- Registration plumbing: `setAdapter`, the attach/detach observer registration and `addView`'s `setClickable` (lines 517-529, 553-567, 767-774). `getFocusedRect` (lines 776-779) is platform plumbing too.
- The fire methods compute the item's position and id (lines 791-813). The model records only the view in the log entry.
- Listeners are modelled only as present or absent. The trivial getters (lines 327-329, 348-350, 447-449, 465-467, 496-498) are reads of the fields the model exposes.
- `FocusArchivist` is not part of this model, beyond one optional last-focused view per container. The weak reference that drops a detached view is not modelled.
- The `super` calls of `onLayout`, `onFocusChanged`, `requestChildFocus`, `onScrollStateChanged` and `setEnabled` are platform behaviour. The `Host` snapshot a handler receives stands for the state after them.
