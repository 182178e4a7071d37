/**
 * The decisions the widget takes on focus and key input that depend only on
 * their inputs: which strategy a focus gain follows, where natural focus
 * search lands, whether a key event fires the item-click callback, and
 * whether the selectors are shown.
 */
module FocusRules {
  import opened Wrappers
  import opened Platform

  /**
   * Natural focus is favoured when the last focus is not to be remembered
   * and the platform supplied a previously focused rectangle.
   */
  function FavorNaturalFocus(rememberLastFocus: bool, previouslyFocusedRect: Option<Rect>): (b: bool)
    ensures rememberLastFocus ==> !b
    ensures previouslyFocusedRect.None? ==> !b
    ensures !rememberLastFocus && previouslyFocusedRect.Some? ==> b
  {
    !rememberLastFocus && previouslyFocusedRect.Some?
  }

  /** How a gained focus is passed on to a child. */
  datatype FocusGain = NaturalSearch | Restore(view: View)

  /** onFocusChanged's choice between natural search and the remembered view. */
  function FocusGainChoice(rememberLastFocus: bool, previouslyFocusedRect: Option<Rect>, lastFocus: Option<View>): (g: FocusGain)
    ensures g.NaturalSearch? <==> FavorNaturalFocus(rememberLastFocus, previouslyFocusedRect) || lastFocus.None?
    ensures g.Restore? ==> lastFocus == Some(g.view)
  {
    if FavorNaturalFocus(rememberLastFocus, previouslyFocusedRect) || lastFocus.None? then NaturalSearch
    else Restore(lastFocus.value)
  }

  /** The rectangle natural search starts from: the supplied one, or an empty rectangle at the origin. */
  function SearchRect(previouslyFocusedRect: Option<Rect>): (r: Rect)
    ensures previouslyFocusedRect.Some? ==> r == previouslyFocusedRect.value
    ensures previouslyFocusedRect.None? ==> r == EMPTY_RECT
  {
    match previouslyFocusedRect
    case Some(rect) => rect
    case None => EMPTY_RECT
  }

  /** The view natural search focuses: the one the finder found, else the first child, else none. */
  function NaturalFocusTarget(found: Option<View>, firstChild: Option<View>): (t: Option<View>)
    ensures found.Some? ==> t == found
    ensures found.None? ==> t == firstChild
  {
    if found.Some? then found else firstChild
  }

  /** With focus memory on, a remembered view is re-focused whatever rectangle the platform passes. */
  lemma RememberedViewIsRestored(previouslyFocusedRect: Option<Rect>, last: View)
    ensures FocusGainChoice(true, previouslyFocusedRect, Some(last)) == Restore(last)
  {
  }

  // ---- The click gate of dispatchKeyEvent ----

  /** A key event fires item-click: the first DPAD_CENTER down, on a focused child, with a listener. */
  function ClickFires(focusedChild: Option<View>, hasClickListener: bool, event: KeyEvent): (b: bool)
    ensures b ==> focusedChild.Some? && hasClickListener
    ensures event.action != ACTION_DOWN || event.keyCode != KEYCODE_DPAD_CENTER || event.repeatCount > 0 ==> !b
  {
    focusedChild.Some? && hasClickListener
    && event.action == ACTION_DOWN
    && event.keyCode == KEYCODE_DPAD_CENTER
    && event.repeatCount == 0
  }

  /** How many item-click callbacks dispatching `events` fires while `focusedChild` keeps focus. */
  function Clicks(events: seq<KeyEvent>, focusedChild: Option<View>, hasClickListener: bool): (n: nat)
    ensures n <= |events|
    decreases |events|
  {
    if events == [] then 0
    else
      var first := if ClickFires(focusedChild, hasClickListener, events[0]) then 1 else 0;
      first + Clicks(events[1..], focusedChild, hasClickListener)
  }

  /** Clicks adds up over concatenated event streams. */
  lemma {:induction false} ClicksAppend(a: seq<KeyEvent>, b: seq<KeyEvent>, focusedChild: Option<View>, hasClickListener: bool)
    ensures Clicks(a + b, focusedChild, hasClickListener)
         == Clicks(a, focusedChild, hasClickListener) + Clicks(b, focusedChild, hasClickListener)
    decreases |a|
  {
    if a != [] {
      assert (a + b)[1..] == a[1..] + b;
      ClicksAppend(a[1..], b, focusedChild, hasClickListener);
    } else {
      assert a + b == b;
    }
  }

  /** The auto-repeated DPAD_CENTER downs with repeat counts first .. first + n - 1. */
  function Repeats(first: nat, n: nat): (r: seq<KeyEvent>)
    ensures |r| == n
    decreases n
  {
    if n == 0 then [] else [KeyEvent(ACTION_DOWN, KEYCODE_DPAD_CENTER, first)] + Repeats(first + 1, n - 1)
  }

  /** One press of DPAD_CENTER held for `held` auto-repeats, then released. */
  function Press(held: nat): seq<KeyEvent> {
    [KeyEvent(ACTION_DOWN, KEYCODE_DPAD_CENTER, 0)] + Repeats(1, held) + [KeyEvent(ACTION_UP, KEYCODE_DPAD_CENTER, 0)]
  }

  /** A sequence of presses, each held for the given number of repeats. */
  function Presses(helds: seq<nat>): seq<KeyEvent>
    decreases |helds|
  {
    if helds == [] then [] else Press(helds[0]) + Presses(helds[1..])
  }

  /** Auto-repeats never click. */
  lemma {:induction false} RepeatsDoNotClick(first: nat, n: nat, focusedChild: Option<View>, hasClickListener: bool)
    requires first >= 1
    ensures Clicks(Repeats(first, n), focusedChild, hasClickListener) == 0
    decreases n
  {
    if n > 0 {
      var r := Repeats(first, n);
      assert r[1..] == Repeats(first + 1, n - 1);
      RepeatsDoNotClick(first + 1, n - 1, focusedChild, hasClickListener);
    }
  }

  /** A press clicks exactly once however long it is held (not per repeat, not on release). */
  lemma PressClicksOnce(held: nat, child: View)
    ensures Clicks(Press(held), Some(child), true) == 1
  {
    var down := [KeyEvent(ACTION_DOWN, KEYCODE_DPAD_CENTER, 0)];
    var up := [KeyEvent(ACTION_UP, KEYCODE_DPAD_CENTER, 0)];
    ClicksAppend(down + Repeats(1, held), up, Some(child), true);
    ClicksAppend(down, Repeats(1, held), Some(child), true);
    RepeatsDoNotClick(1, held, Some(child), true);
    assert Clicks(up, Some(child), true) == 0 by {
      assert up[1..] == [];
    }
    assert Clicks(down, Some(child), true) == 1 by {
      assert down[1..] == [];
    }
  }

  /** n presses fire n clicks. */
  lemma {:induction false} ClicksPerPress(helds: seq<nat>, child: View)
    ensures Clicks(Presses(helds), Some(child), true) == |helds|
    decreases |helds|
  {
    if helds != [] {
      ClicksAppend(Press(helds[0]), Presses(helds[1..]), Some(child), true);
      PressClicksOnce(helds[0], child);
      ClicksPerPress(helds[1..], child);
    }
  }

  /** Without a focused child or without a listener nothing clicks. */
  lemma {:induction false} NoClickWithoutTarget(events: seq<KeyEvent>, focusedChild: Option<View>, hasClickListener: bool)
    requires focusedChild.None? || !hasClickListener
    ensures Clicks(events, focusedChild, hasClickListener) == 0
    decreases |events|
  {
    if events != [] {
      NoClickWithoutTarget(events[1..], focusedChild, hasClickListener);
    }
  }

  // ---- Selector visibility ----

  /** enforceSelectorsVisibility: selectors are shown outside touch mode while the widget has focus. */
  function SelectorsVisible(inTouchMode: bool, hasFocus: bool): (b: bool)
    ensures inTouchMode ==> !b
    ensures !hasFocus ==> !b
    ensures !inTouchMode && hasFocus ==> b
  {
    !inTouchMode && hasFocus
  }
}
