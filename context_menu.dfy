/** The right-click menu of `src/ui/NorunoContextMenu.tsx`: before the first
    paint it moves itself back into the viewport when it would overflow to
    the right or the bottom, and an item click always closes the menu. */
module ContextMenu {

  /** The gap the menu keeps from the viewport edge once moved. */
  const Margin: real := 8.0

  function RMax(a: real, b: real): real { if a < b then b else a }

  datatype Position = Position(left: real, top: real)

  /** One coordinate of the clamp: kept when the menu fits before the
      viewport edge, otherwise pulled back to `Margin` from that edge but
      never past `Margin` from the other one. */
  function Clamp(p: real, size: real, viewport: real): (r: real)
    ensures p + size <= viewport ==> r == p
    ensures p + size > viewport ==> r >= Margin
    ensures p + size > viewport && viewport - size >= 2.0 * Margin ==> r + size == viewport - Margin
    ensures p + size > viewport && viewport - size < 2.0 * Margin ==> r == Margin
    ensures p + size > viewport && p >= Margin ==> r <= p
  {
    if p + size > viewport then RMax(Margin, viewport - size - Margin) else p
  }

  /** Only right and bottom overflow are corrected: a menu that fits stays
      where it was opened, even closer than `Margin` to the left or top. */
  lemma FittingMenuUntouched(x: real, y: real, width: real, height: real, vw: real, vh: real)
    requires x + width <= vw && y + height <= vh
    ensures Position(Clamp(x, width, vw), Clamp(y, height, vh)) == Position(x, y)
  {
  }

  /** A menu wider than the viewport minus both margins still overflows
      after the correction: 500 wide in a 400 viewport lands at 8. */
  lemma WideMenuStillOverflows()
    ensures Clamp(100.0, 500.0, 400.0) == 8.0
    ensures Clamp(100.0, 500.0, 400.0) + 500.0 > 400.0
  {
  }

  /** What `handleItemClick` does, in order. */
  datatype Step = RunItem | LogError | CloseMenu

  class Menu {
    const x: real
    const y: real
    var pos: Position

    /** The first render sits at the click point. */
    constructor (x: real, y: real)
      ensures this.x == x && this.y == y && pos == Position(x, y)
    {
      this.x := x;
      this.y := y;
      pos := Position(x, y);
    }

    /** The layout effect: with the element mounted, measure it (`width` by
        `height`) against the viewport (`vw` by `vh`) and store the clamped
        position; unmounted, keep the current one. */
    method LayoutEffect(mounted: bool, width: real, height: real, vw: real, vh: real)
      modifies this
      ensures mounted ==> pos == Position(Clamp(x, width, vw), Clamp(y, height, vh))
      ensures !mounted ==> pos == old(pos)
    {
      if !mounted {
        return;
      }
      var left := x;
      var top := y;
      if left + width > vw {
        left := RMax(Margin, vw - width - Margin);
      }
      if top + height > vh {
        top := RMax(Margin, vh - height - Margin);
      }
      pos := Position(left, top);
    }
  }

  /** `handleItemClick`: the item runs; if it throws, the error is logged;
      either way the menu closes exactly once, last. */
  method HandleItemClick(throws: bool) returns (trace: seq<Step>)
    ensures |trace| >= 2 && trace[0] == RunItem && trace[|trace| - 1] == CloseMenu
    ensures forall i :: 0 <= i < |trace| - 1 ==> trace[i] != CloseMenu
    ensures LogError in trace <==> throws
  {
    trace := [RunItem];
    if throws {
      trace := trace + [LogError];
    }
    trace := trace + [CloseMenu];
  }
}
