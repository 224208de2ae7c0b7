/**
 * The list-scrolling rule of the shell (app_internal.cpp,
 * keep_cursor_in_view): given the cursor row, the current first visible
 * row, the number of rows and the window height, pick the new first
 * visible row.
 */
module Scroll {

  /** The largest first row that still fills the window, or 0 for a short list. */
  function MaxScroll(count: nat, visible: int): nat
  {
    if count - visible < 0 then 0 else count - visible
  }

  /**
   * keep_cursor_in_view. The source aborts when `visible <= 0`, so that is
   * a precondition here; the three rows are uint8 values.
   */
  function KeepCursorInView(cursor: nat, scroll: nat, count: nat, visible: int): (s: nat)
    requires cursor < 256 && scroll < 256 && count < 256 && visible > 0
    ensures s < 256 && s <= MaxScroll(count, visible)
    // a cursor inside the list ends up inside the window
    ensures cursor < count ==> s <= cursor < s + visible
    // already in view: the window does not move
    ensures scroll <= cursor < scroll + visible && scroll <= MaxScroll(count, visible) ==> s == scroll
    // above the window: the window starts at the cursor
    ensures cursor < scroll && cursor <= MaxScroll(count, visible) ==> s == cursor
    // below the window: the cursor becomes the last visible row
    ensures scroll + visible <= cursor && cursor - visible + 1 <= MaxScroll(count, visible) ==>
              s == cursor - visible + 1
    // past the end: the window is pinned to the end of the list
    ensures MaxScroll(count, visible) < cursor - visible + 1 ==> s == MaxScroll(count, visible)
  {
    var scr0: int := scroll;
    var cur: int := cursor;
    var scr1 := if cur < scr0 then cur else scr0;
    var lastVisible := scr1 + visible - 1;
    var scr2 := if cur > lastVisible then cur - (visible - 1) else scr1;
    var maxScroll := if count - visible < 0 then 0 else count - visible;
    var scr3 := if scr2 < 0 then 0 else scr2;
    var scr4 := if scr3 > maxScroll then maxScroll else scr3;
    scr4
  }

  /** Scrolling again with the row just chosen keeps it. */
  lemma KeepCursorIdempotent(cursor: nat, scroll: nat, count: nat, visible: int)
    requires cursor < 256 && scroll < 256 && count < 256 && visible > 0
    ensures KeepCursorInView(cursor, KeepCursorInView(cursor, scroll, count, visible), count, visible)
            == KeepCursorInView(cursor, scroll, count, visible)
  {
    var s := KeepCursorInView(cursor, scroll, count, visible);
    if cursor - visible + 1 > MaxScroll(count, visible) {
      assert s == MaxScroll(count, visible);
    } else {
      assert s <= cursor < s + visible;
    }
  }
}
