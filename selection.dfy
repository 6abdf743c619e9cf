/**
  `_fix_selection`: after the list is refilled, make sure the current row is a
  selectable (card) row if there is one, preferring the current row, then the
  nearest selectable row below it, then the nearest one above it. Rows outside
  the list count as not selectable, as `listbox.item(row)` is then `None`.
 */
module Selection {

  predicate SelectableAt(selectable: seq<bool>, i: int)
  {
    0 <= i < |selectable| && selectable[i]
  }

  /**
    Returns the new current row (-1 for none). `current` is the widget's
    current row before the call, -1 when there is none.
   */
  method FixSelection(selectable: seq<bool>, current: int) returns (row: int)
    ensures row == -1 || SelectableAt(selectable, row)
    ensures row == -1 <==> forall i :: 0 <= i < |selectable| ==> !selectable[i]
    ensures current == -1 ==> forall i :: 0 <= i < row ==> !SelectableAt(selectable, i)
    ensures current != -1 && SelectableAt(selectable, current) ==> row == current
    ensures current != -1 && row > current ==> forall i :: current <= i < row ==> !SelectableAt(selectable, i)
    ensures current != -1 && 0 <= row < current ==>
      && (forall i :: i >= current ==> !SelectableAt(selectable, i))
      && (forall i :: row < i < current ==> !SelectableAt(selectable, i))
  {
    var n := |selectable|;
    row := current;
    if row == -1 {
      var idx := 0;
      while idx < n
        invariant 0 <= idx <= n
        invariant forall i :: 0 <= i < idx ==> !selectable[i]
      {
        if selectable[idx] {
          row := idx;
          return;
        }
        idx := idx + 1;
      }
      return;
    }
    if SelectableAt(selectable, row) {
      return;
    }
    var next := current + 1;
    while next < n
      invariant current < next
      invariant forall i :: current <= i < next ==> !SelectableAt(selectable, i)
    {
      if SelectableAt(selectable, next) {
        row := next;
        return;
      }
      next := next + 1;
    }
    var prev := current - 1;
    while prev >= 0
      invariant prev < current
      invariant forall i :: prev < i ==> !SelectableAt(selectable, i)
    {
      if SelectableAt(selectable, prev) {
        row := prev;
        return;
      }
      prev := prev - 1;
    }
    forall i | 0 <= i < n ensures !selectable[i] {
      assert !SelectableAt(selectable, i);
    }
    row := -1;
  }
}
