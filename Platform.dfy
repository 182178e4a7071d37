/**
 * The parts of the Android platform the widget talks to, reduced to values:
 * views are integer ids, rectangles are records, the container's current
 * answers to its queries are one snapshot (`Host`), and every command the
 * widget issues or callback it fires is an `Effect` appended to a log.
 */
module Platform {
  import opened Wrappers

  /** An item view, identified by an id. */
  type View = nat

  /** RecyclerView.NO_POSITION. */
  const NO_POSITION: int := -1

  /** RecyclerView.SCROLL_STATE_IDLE; any other value means a scroll is in progress. */
  const SCROLL_STATE_IDLE: int := 0

  /** KeyEvent.ACTION_DOWN and KeyEvent.ACTION_UP. */
  const ACTION_DOWN: int := 0
  const ACTION_UP: int := 1

  /** KeyEvent.KEYCODE_DPAD_CENTER. */
  const KEYCODE_DPAD_CENTER: int := 23

  /** android.graphics.Rect. */
  datatype Rect = Rect(left: int, top: int, right: int, bottom: int) {
    /** Rect.centerX(): `(left + right) >> 1`, which rounds toward minus infinity. */
    function CenterX(): int { (left + right) / 2 }
    /** Rect.centerY(): `(top + bottom) >> 1`. */
    function CenterY(): int { (top + bottom) / 2 }
  }

  const EMPTY_RECT: Rect := Rect(0, 0, 0, 0)

  /** A key event: its action, key code and repeat count. */
  datatype KeyEvent = KeyEvent(action: int, keyCode: int, repeatCount: nat)

  /** ViewGroup descendant focusability modes the widget switches between. */
  datatype DescendantFocusability = FocusBeforeDescendants | FocusAfterDescendants | FocusBlockDescendants

  /**
   * What the container reports at the moment a handler runs: its focused
   * child, the adapter position of each child view (getChildAdapterPosition),
   * the item view laid out at each adapter position
   * (findViewHolderForAdapterPosition), its first child (getChildAt(0)),
   * whether it or a descendant holds focus, touch mode, its scroll state and
   * whether the adapter has stable ids.
   */
  datatype Host = Host(
    focusedChild: Option<View>,
    positions: map<View, int>,
    holders: map<int, View>,
    firstChild: Option<View>,
    hasFocus: bool,
    inTouchMode: bool,
    scrollState: int,
    hasStableIds: bool)
  {
    /** getChildAdapterPosition: NO_POSITION for a view without a view holder or for null. */
    function AdapterPosition(child: Option<View>): (p: int)
      ensures child.None? ==> p == NO_POSITION
      ensures child.Some? && child.value !in positions ==> p == NO_POSITION
      ensures child.Some? && child.value in positions ==> p == positions[child.value]
    {
      match child
      case None => NO_POSITION
      case Some(v) => if v in positions then positions[v] else NO_POSITION
    }

    /** findViewHolderForAdapterPosition(position).itemView, if any. */
    function HolderView(position: int): (v: Option<View>)
      ensures v.Some? <==> position in holders
      ensures v.Some? ==> v.value == holders[position]
    {
      if position in holders then Some(holders[position]) else None
    }
  }

  /** A command sent to the platform or a listener callback fired by the widget. */
  datatype Effect =
    | ScrollToPosition(position: int)
    | RequestFocus(view: View)
    | SetSelected(view: View, selected: bool)
    | ItemClicked(view: View)
    | ItemSelected(view: View)
    | ItemFocused(view: View)

  /** A platform drawable: its bounds and its visibility flag are updated in place. */
  class Drawable {
    var bounds: Rect
    var visible: bool

    constructor (bounds: Rect)
      ensures this.bounds == bounds && visible
    {
      this.bounds := bounds;
      visible := true;
    }
  }
}
