/** Linear search (linear_search.py): the first position holding the
    target, or -1. */
module LinearSearch {

  /** `linear_search(values, target)`: -1 exactly when the target does not
      occur (an empty list included); otherwise the first position where
      it occurs. */
  method LinearSearch<T(==)>(values: seq<T>, target: T) returns (i: int)
    ensures -1 <= i < |values|
    ensures i == -1 <==> target !in values
    ensures 0 <= i ==> values[i] == target
    ensures 0 <= i ==> forall k :: 0 <= k < i ==> values[k] != target
  {
    for k := 0 to |values|
      invariant target !in values[..k]
    {
      if values[k] == target {
        return k;
      }
    }
    assert values[..|values|] == values;
    return -1;
  }

  /** The driver's list: the first 7 sits at position 10. */
  method Example() returns (i: int)
    ensures i == 10
  {
    var values := [4, 1, 8, 6, 3, 0, 4, 9, -5, 3, 7, 10, 7, 5];
    i := LinearSearch(values, 7);
    assert values[10] == 7;
  }
}
