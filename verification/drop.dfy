/**
 * Where a drop lands in a list: before the first child, other than the node being
 * dragged, whose vertical midpoint lies below the pointer, or at the end.
 * Layout is an input: `mid(c)` is child `c`'s midpoint, `y` the pointer position.
 */
module DropResolution {
  import opened Wrappers
  import opened Siblings

  /** Child `c` takes part in the search: it is not the node carrying `.dragging`. */
  predicate Candidate(c: Id, dragging: Option<Id>) {
    dragging != Some(c)
  }

  /**
   * The first candidate child whose midpoint exceeds the pointer. None exactly
   * when every candidate's midpoint is at or above it.
   */
  function FirstBelowPointer(children: seq<Id>, dragging: Option<Id>, mid: Id -> int, y: int): (r: Option<Id>)
    ensures r.None? <==> forall j :: 0 <= j < |children| && Candidate(children[j], dragging) ==> mid(children[j]) <= y
    ensures r.Some? ==> r.value in children && Candidate(r.value, dragging) && y < mid(r.value)
    ensures r.Some? ==> forall j :: 0 <= j < IndexOf(children, r.value) && Candidate(children[j], dragging) ==> mid(children[j]) <= y
  {
    if children == [] then None
    else if Candidate(children[0], dragging) && y < mid(children[0]) then Some(children[0])
    else
      var r := FirstBelowPointer(children[1..], dragging, mid, y);
      assert forall j :: 1 <= j < |children| ==> children[j] == children[1..][j - 1];
      r
  }

  /** `getInsertionReference`: scan the children in order and stop at the first hit. */
  method GetInsertionReference(children: seq<Id>, dragging: Option<Id>, mid: Id -> int, y: int) returns (r: Option<Id>)
    ensures r == FirstBelowPointer(children, dragging, mid, y)
  {
    var i := 0;
    while i < |children|
      invariant 0 <= i <= |children|
      invariant FirstBelowPointer(children[i..], dragging, mid, y) == FirstBelowPointer(children, dragging, mid, y)
    {
      var c := children[i];
      if Candidate(c, dragging) && y < mid(c) {
        return Some(c);
      }
      assert children[i..][1..] == children[i + 1..];
      i := i + 1;
    }
    return None;
  }
}
