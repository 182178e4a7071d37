/**
 * The selector-transition state machine of the widget as a function of its
 * state: the focus memory entry, the two fields of the ONE shared select
 * listener, the source and destination rectangles, the current animator set
 * and the log of effects. The widget's methods are specified by these
 * functions; the lemmas below state what they guarantee.
 *
 * The listener is shared by every transition, so cancelling the previous
 * transition runs its end handler with the fields the NEW request has just
 * written; `FocusState` holds one copy of those fields for that reason.
 */
module SelectorTransitions {
  import opened Wrappers
  import opened Platform
  import opened Travel

  /** An animator set: its duration and whether it is still running. */
  datatype Run = Run(duration: nat, running: bool)

  datatype FocusState = FocusState(
    lastFocus: Option<View>,     // the focus memory entry of the container
    toSelect: Option<View>,      // the shared listener's view to select at the end
    toDeselect: Option<View>,    // the shared listener's view to deselect at the start
    source: Rect,                // the selector's bounds when the transition was built
    dest: Rect,                  // the hit rectangle of the newly focused view
    transition: Option<Run>,     // the last animator set built, if any
    log: seq<Effect>)

  /** A transition is in flight. */
  predicate Running(s: FocusState) {
    s.transition.Some? && s.transition.value.running
  }

  /** onAnimationStart: the view to deselect is marked not selected. */
  function DeselectEffects(toDeselect: Option<View>): (r: seq<Effect>)
    ensures r == [] <==> toDeselect.None?
    ensures forall e :: e in r ==> e.SetSelected? && !e.selected && toDeselect == Some(e.view)
  {
    if toDeselect.Some? then [SetSelected(toDeselect.value, false)] else []
  }

  /** onAnimationEnd: the view to select is marked selected and the item-selected callback fires. */
  function SelectEffects(toSelect: Option<View>, hasItemSelectedListener: bool): (r: seq<Effect>)
    ensures r == [] <==> toSelect.None?
    ensures forall e :: e in r ==>
      (e.SetSelected? && e.selected && toSelect == Some(e.view))
      || (e.ItemSelected? && hasItemSelectedListener && toSelect == Some(e.view))
    ensures toSelect.Some? ==> r[0] == SetSelected(toSelect.value, true)
  {
    if toSelect.None? then []
    else [SetSelected(toSelect.value, true)] + (if hasItemSelectedListener then [ItemSelected(toSelect.value)] else [])
  }

  /** The running transition finishes: the listener's end handler runs with its current fields. */
  function Finish(s: FocusState, hasItemSelectedListener: bool): (r: FocusState)
    ensures !Running(r)
    ensures !Running(s) ==> r == s
    ensures r == s.(transition := r.transition, log := r.log)
    ensures r.transition.Some? <==> s.transition.Some?
    ensures |s.log| <= |r.log| && r.log[..|s.log|] == s.log
  {
    if Running(s) then
      s.(transition := Some(s.transition.value.(running := false)),
         log := s.log + SelectEffects(s.toSelect, hasItemSelectedListener))
    else s
  }

  /** Cancelling the animator set: onAnimationCancel behaves as onAnimationEnd. */
  function Cancel(s: FocusState, hasItemSelectedListener: bool): (r: FocusState)
    ensures !Running(r)
    ensures r.log == s.log + (if Running(s) then SelectEffects(s.toSelect, hasItemSelectedListener) else [])
  {
    Finish(s, hasItemSelectedListener)
  }

  /**
   * animateSelectorChange: cancel the previous set, then start a new one whose
   * duration follows from the velocity and the two rectangles; starting it
   * runs the listener's start handler.
   */
  function Animate(s: FocusState, velocity: int, hasItemSelectedListener: bool): (r: FocusState)
    ensures Running(r) && r.transition.value.duration == TransitionDuration(velocity, s.source, s.dest)
    ensures r.lastFocus == s.lastFocus && r.toSelect == s.toSelect && r.toDeselect == s.toDeselect
    ensures r.source == s.source && r.dest == s.dest
    ensures |s.log| <= |r.log| && r.log[..|s.log|] == s.log
  {
    var c := if s.transition.Some? then Cancel(s, hasItemSelectedListener) else s;
    c.(transition := Some(Run(TransitionDuration(velocity, c.source, c.dest), true)),
       log := c.log + DeselectEffects(c.toDeselect))
  }

  /**
   * requestChildFocusInner: with an anchor selector (its bounds given) and an
   * idle scroll state, record the source and destination rectangles, point
   * the shared listener at the new child and the previously archived view,
   * animate, and archive the child. Otherwise nothing changes.
   */
  function ChildFocus(s: FocusState, anchorBounds: Option<Rect>, scrollState: int, child: View,
                      hitRect: Rect, velocity: int, hasItemSelectedListener: bool): (t: FocusState)
    ensures !(anchorBounds.Some? && scrollState == SCROLL_STATE_IDLE) ==> t == s
    ensures anchorBounds.Some? && scrollState == SCROLL_STATE_IDLE ==>
      Running(t) && t.lastFocus == Some(child) && t.toSelect == Some(child) && t.toDeselect == s.lastFocus
    ensures |s.log| <= |t.log| && t.log[..|s.log|] == s.log
  {
    if anchorBounds.Some? && scrollState == SCROLL_STATE_IDLE then
      var s1 := s.(source := anchorBounds.value, dest := hitRect,
                   toSelect := Some(child), toDeselect := s.lastFocus);
      Animate(s1, velocity, hasItemSelectedListener).(lastFocus := Some(child))
    else s
  }

  // ---- Properties ----

  /**
   * A transition starts, and the child is archived, exactly when an anchor
   * selector exists and the scroll state is idle; then the new transition
   * runs from the anchor's bounds to the child's hit rectangle.
   */
  lemma ChildFocusGate(s: FocusState, anchorBounds: Option<Rect>, scrollState: int, child: View,
                       hitRect: Rect, velocity: int, hasItemSelectedListener: bool)
    ensures var t := ChildFocus(s, anchorBounds, scrollState, child, hitRect, velocity, hasItemSelectedListener);
      if anchorBounds.Some? && scrollState == SCROLL_STATE_IDLE then
        Running(t) && t.lastFocus == Some(child)
        && t.toSelect == Some(child) && t.toDeselect == s.lastFocus
        && t.source == anchorBounds.value && t.dest == hitRect
        && t.transition.value.duration == TransitionDuration(velocity, anchorBounds.value, hitRect)
      else t == s
  {
  }

  /**
   * The effects of a child-focus step, in order: if a transition was running,
   * its cancellation selects the NEW child (the shared listener was already
   * overwritten), then the start of the new transition deselects the view
   * archived before.
   */
  lemma ChildFocusEffects(s: FocusState, anchor: Rect, child: View, hitRect: Rect,
                          velocity: int, hasItemSelectedListener: bool)
    ensures ChildFocus(s, Some(anchor), SCROLL_STATE_IDLE, child, hitRect, velocity, hasItemSelectedListener).log
         == s.log
            + (if Running(s) then SelectEffects(Some(child), hasItemSelectedListener) else [])
            + DeselectEffects(s.lastFocus)
  {
  }

  /**
   * Re-targeting while a transition runs never selects the view the
   * cancelled transition was heading to (when it differs from the new child).
   */
  lemma RetargetSkipsCancelledTarget(s: FocusState, anchor: Rect, child: View, hitRect: Rect,
                                     velocity: int, hasItemSelectedListener: bool, target: View)
    requires Running(s) && s.toSelect == Some(target) && target != child
    ensures var t := ChildFocus(s, Some(anchor), SCROLL_STATE_IDLE, child, hitRect, velocity, hasItemSelectedListener);
      |t.log| >= |s.log| && t.log[..|s.log|] == s.log
      && SetSelected(target, true) !in t.log[|s.log|..]
      && ItemSelected(target) !in t.log[|s.log|..]
  {
    var t := ChildFocus(s, Some(anchor), SCROLL_STATE_IDLE, child, hitRect, velocity, hasItemSelectedListener);
    ChildFocusEffects(s, anchor, child, hitRect, velocity, hasItemSelectedListener);
    var added := SelectEffects(Some(child), hasItemSelectedListener) + DeselectEffects(s.lastFocus);
    assert t.log == s.log + added;
    assert t.log[|s.log|..] == added;
    EffectsAvoid(child, s.lastFocus, hasItemSelectedListener, target);
  }

  /** Selecting `child` and deselecting `last` never select `target` or report it selected. */
  lemma EffectsAvoid(child: View, last: Option<View>, hasItemSelectedListener: bool, target: View)
    requires target != child
    ensures var added := SelectEffects(Some(child), hasItemSelectedListener) + DeselectEffects(last);
      SetSelected(target, true) !in added && ItemSelected(target) !in added
  {
  }

  /**
   * From a quiet state, a child-focus step followed by the end of its
   * transition deselects the previously archived view before it selects the
   * new child.
   */
  lemma DeselectPrecedesSelect(s: FocusState, anchor: Rect, child: View, hitRect: Rect,
                               velocity: int, hasItemSelectedListener: bool)
    requires !Running(s)
    ensures var t := ChildFocus(s, Some(anchor), SCROLL_STATE_IDLE, child, hitRect, velocity, hasItemSelectedListener);
      Finish(t, hasItemSelectedListener).log
        == s.log + DeselectEffects(s.lastFocus) + SelectEffects(Some(child), hasItemSelectedListener)
      && !Running(Finish(t, hasItemSelectedListener))
  {
  }

  /** A finished transition has nothing more to report: finishing twice is finishing once. */
  lemma FinishIdempotent(s: FocusState, hasItemSelectedListener: bool)
    ensures Finish(Finish(s, hasItemSelectedListener), hasItemSelectedListener) == Finish(s, hasItemSelectedListener)
    ensures !Running(Finish(s, hasItemSelectedListener))
  {
  }

  /** Only the log and the running flag change when a transition finishes. */
  lemma FinishKeepsFocusMemory(s: FocusState, hasItemSelectedListener: bool)
    ensures var t := Finish(s, hasItemSelectedListener);
      t == s.(transition := t.transition, log := t.log)
      && (s.transition.Some? <==> t.transition.Some?)
      && (s.transition.Some? ==> t.transition.value.duration == s.transition.value.duration)
  {
  }
}
