/** In-place selection sort (selection_sort.py): position i receives the
    first minimum of values[i..], by one swap. */
module SelectionSort {
  import opened StableSort

  /** Exchanging two entries keeps the same entries. */
  lemma SwapKeepsMultiset(a: seq<int>, i: int, m: int)
    requires 0 <= i < |a| && 0 <= m < |a|
    ensures multiset(a[i := a[m]][m := a[i]]) == multiset(a)
  {
  }

  /** The inner loop: the first position of a minimum of r[i..]. */
  method FirstMinimum(r: seq<int>, i: int) returns (m: int)
    requires 0 <= i < |r|
    ensures i <= m < |r|
    ensures forall t :: i <= t < |r| ==> r[m] <= r[t]
    ensures forall t :: i <= t < m ==> r[t] > r[m]
  {
    m := i;
    for j := i + 1 to |r|
      invariant i <= m < j
      invariant forall t :: i <= t < j ==> r[m] <= r[t]
      invariant forall t :: i <= t < m ==> r[t] > r[m]
    {
      if r[j] < r[m] {
        m := j;
      }
    }
  }

  /** r[..i] in order and no larger than anything after it. */
  predicate SortedUpTo(r: seq<int>, i: int)
    requires 0 <= i <= |r|
  {
    && (forall k, l :: 0 <= k < l < i ==> r[k] <= r[l])
    && (forall k, l :: 0 <= k < i <= l < |r| ==> r[k] <= r[l])
  }

  /** Swapping the minimum of r[i..] into position i extends the sorted
      prefix by one. */
  lemma SwapExtends(r: seq<int>, i: int, m: int)
    requires 0 <= i <= m < |r| && SortedUpTo(r, i)
    requires forall t :: i <= t < |r| ==> r[m] <= r[t]
    ensures SortedUpTo(r[i := r[m]][m := r[i]], i + 1)
  {
  }

  /** `selection_sort(values)`: the result is the input rearranged into
      ascending order; input already in order comes back unchanged. */
  method SelectionSort(values: seq<int>) returns (r: seq<int>)
    ensures |r| == |values|
    ensures Ordered(r, false)
    ensures multiset(r) == multiset(values)
    ensures Ordered(values, false) ==> r == values
  {
    r := values;
    for i := 0 to |r|
      invariant |r| == |values|
      invariant multiset(r) == multiset(values)
      invariant SortedUpTo(r, i)
      invariant Ordered(values, false) ==> r == values
    {
      var m := FirstMinimum(r, i);
      SwapKeepsMultiset(r, i, m);
      SwapExtends(r, i, m);
      r := r[i := r[m]][m := r[i]];
    }
  }

  /** The driver's list comes back in ascending order. */
  method Example() returns (r: seq<int>)
    ensures multiset(r) == multiset([4, 10, -3, 5, 200, 0, 4, 8, 9, 4, 12])
    ensures Ordered(r, false)
  {
    r := SelectionSort([4, 10, -3, 5, 200, 0, 4, 8, 9, 4, 12]);
  }
}
