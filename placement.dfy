/**
 * Where the popup window opens when the global shortcut is pressed (the
 * shortcut handler in `run`, src-tauri/src/lib.rs): on the first monitor that
 * contains the scaled cursor, flipped to the left of or above the cursor when
 * it would run off that monitor's right or bottom edge.
 */
module Placement {
  import opened Common

  /** A monitor: top-left corner, size, and scale factor already truncated to an integer. */
  datatype Monitor = Monitor(x: int, y: int, width: nat, height: nat, scale: int)

  /** The popup window's outer size. */
  datatype WindowSize = WindowSize(width: nat, height: nat)

  /** The monitor's half-open rectangle contains the point. */
  predicate Contains(m: Monitor, px: int, py: int): (r: bool)
    ensures r <==> 0 <= px - m.x < m.width && 0 <= py - m.y < m.height
    ensures r ==> m.width > 0 && m.height > 0
  {
    m.x <= px < m.x + m.width && m.y <= py < m.y + m.height
  }

  /** The cursor, scaled by this monitor's own factor, lies on this monitor. */
  predicate HoldsCursor(m: Monitor, cx: int, cy: int): (r: bool)
    ensures r <==> 0 <= cx * m.scale - m.x < m.width && 0 <= cy * m.scale - m.y < m.height
    ensures r ==> m.width > 0 && m.height > 0
    ensures m.scale == 1 ==> (r <==> Contains(m, cx, cy))
  {
    Contains(m, cx * m.scale, cy * m.scale)
  }

  /**
   * The rectangle is half-open: its top-left corner belongs to it unless it
   * is empty, and its right and bottom edges never do.
   */
  lemma ContainsHalfOpen(m: Monitor, px: int, py: int)
    ensures Contains(m, m.x, m.y) <==> m.width > 0 && m.height > 0
    ensures !Contains(m, m.x + m.width, py)
    ensures !Contains(m, px, m.y + m.height)
  {
  }

  /** Index of the first monitor holding the cursor. */
  function FirstHolding(ms: seq<Monitor>, cx: int, cy: int): (r: Option<nat>)
    ensures r.Some? ==> r.value < |ms| && HoldsCursor(ms[r.value], cx, cy)
    ensures r.Some? ==> forall j :: 0 <= j < r.value ==> !HoldsCursor(ms[j], cx, cy)
    ensures r.None? ==> forall j :: 0 <= j < |ms| ==> !HoldsCursor(ms[j], cx, cy)
  {
    if ms == [] then None
    else if HoldsCursor(ms[0], cx, cy) then Some(0)
    else match FirstHolding(ms[1..], cx, cy)
      case None => None
      case Some(k) => Some(k + 1)
  }

  /**
   * One axis of the placement: keep the cursor coordinate `p` when a window of
   * `size` fits before `end`, else put the window's far edge at the cursor.
   */
  function Axis(p: int, size: nat, end: int): (r: int)
    ensures p + size <= end ==> r == p
    ensures p + size > end ==> r == p - size
    ensures p < end ==> r + size <= end
    ensures r <= p <= r + size
  {
    if p + size > end then p - size else p
  }

  /**
   * Where the popup goes. With no monitor list, or an empty one, the cursor
   * as reported; on the first monitor holding the cursor, the scaled cursor,
   * flipped per axis when a window size is known; otherwise the cursor scaled
   * by the last monitor's factor.
   */
  function PopupPosition(cx: int, cy: int, monitors: Option<seq<Monitor>>, window: Option<WindowSize>): (r: (int, int))
    ensures monitors.None? || monitors == Some([]) ==> r == (cx, cy)
    ensures monitors.Some? && FirstHolding(monitors.value, cx, cy).Some? && window.Some? ==>
      var m := monitors.value[FirstHolding(monitors.value, cx, cy).value];
      r.0 + window.value.width <= m.x + m.width && r.1 + window.value.height <= m.y + m.height
    ensures monitors.Some? && FirstHolding(monitors.value, cx, cy).Some? && window.None? ==>
      var m := monitors.value[FirstHolding(monitors.value, cx, cy).value];
      r == (cx * m.scale, cy * m.scale) && Contains(m, r.0, r.1)
  {
    match monitors
    case None => (cx, cy)
    case Some(ms) =>
      match FirstHolding(ms, cx, cy)
      case Some(i) =>
        var m := ms[i];
        var x, y := cx * m.scale, cy * m.scale;
        if window.None? then (x, y)
        else (Axis(x, window.value.width, m.x + m.width), Axis(y, window.value.height, m.y + m.height))
      case None =>
        if ms == [] then (cx, cy) else (cx * ms[|ms| - 1].scale, cy * ms[|ms| - 1].scale)
  }

  /**
   * The position loop of the shortcut handler. `monitors` is `None` when the
   * monitor list could not be read and `window` is `None` when the window's
   * outer size could not be read.
   */
  method PlacePopup(cx: int, cy: int, monitors: Option<seq<Monitor>>, window: Option<WindowSize>)
    returns (finalX: int, finalY: int)
    ensures (finalX, finalY) == PopupPosition(cx, cy, monitors, window)
  {
    finalX, finalY := cx, cy;
    if monitors.Some? {
      var ms := monitors.value;
      var i := 0;
      while i < |ms|
        invariant 0 <= i <= |ms|
        invariant forall j :: 0 <= j < i ==> !HoldsCursor(ms[j], cx, cy)
        invariant i == 0 ==> finalX == cx && finalY == cy
        invariant i > 0 ==> finalX == cx * ms[i - 1].scale && finalY == cy * ms[i - 1].scale
      {
        var m := ms[i];
        var x := cx * m.scale;
        var y := cy * m.scale;
        finalX, finalY := x, y;
        if m.x <= x < m.x + m.width && m.y <= y < m.y + m.height {
          if window.Some? {
            var w, h := window.value.width, window.value.height;
            if x + w > m.x + m.width {
              finalX := x - w;
            }
            if y + h > m.y + m.height {
              finalY := y - h;
            }
          }
          assert FirstHolding(ms, cx, cy) == Some(i);
          return;
        }
        i := i + 1;
      }
    }
  }

  /**
   * On the monitor that holds the cursor, with the window size known, the
   * popup's right and bottom edges stay on that monitor, the scaled cursor
   * stays on the popup's border or inside it, and an axis that fits is left
   * unflipped.
   */
  lemma PopupOnHoldingMonitor(cx: int, cy: int, ms: seq<Monitor>, w: WindowSize, i: nat)
    requires FirstHolding(ms, cx, cy) == Some(i)
    ensures var m, p := ms[i], PopupPosition(cx, cy, Some(ms), Some(w));
      var x, y := cx * m.scale, cy * m.scale;
      && p.0 + w.width <= m.x + m.width && p.1 + w.height <= m.y + m.height
      && p.0 <= x <= p.0 + w.width && p.1 <= y <= p.1 + w.height
      && (x + w.width <= m.x + m.width ==> p.0 == x)
      && (y + w.height <= m.y + m.height ==> p.1 == y)
  {
  }

  /**
   * Flip rule, both directions: the popup moves left of (above) the cursor
   * exactly when, opened at the cursor, it would overrun the right (bottom) edge.
   */
  lemma FlipIff(cx: int, cy: int, ms: seq<Monitor>, w: WindowSize, i: nat)
    requires FirstHolding(ms, cx, cy) == Some(i)
    ensures var m, p := ms[i], PopupPosition(cx, cy, Some(ms), Some(w));
      var x, y := cx * m.scale, cy * m.scale;
      && (p.0 < x <==> x + w.width > m.x + m.width)
      && (p.1 < y <==> y + w.height > m.y + m.height)
      && (p.0 == x || p.0 == x - w.width) && (p.1 == y || p.1 == y - w.height)
  {
  }

  /** With no monitor holding the cursor, the popup opens at the cursor scaled by the last monitor's factor. */
  lemma PopupFallback(cx: int, cy: int, ms: seq<Monitor>, window: Option<WindowSize>)
    requires ms != []
    requires forall j :: 0 <= j < |ms| ==> !HoldsCursor(ms[j], cx, cy)
    ensures PopupPosition(cx, cy, Some(ms), window) == (cx * ms[|ms| - 1].scale, cy * ms[|ms| - 1].scale)
  {
  }
}
