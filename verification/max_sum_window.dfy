/** Sliding window (max_sum_k_successive.py): the k successive values
    with the largest sum, and where that window starts. */
module MaxSumWindow {

  /** sum(s[lo:hi]). */
  function Sum(s: seq<int>, lo: int, hi: int): int
    requires 0 <= lo <= hi <= |s|
    decreases hi - lo
  {
    if lo == hi then 0 else s[lo] + Sum(s, lo + 1, hi)
  }

  /** The sum of the k values starting at position w. */
  function WindowSum(s: seq<int>, w: int, k: int): int
    requires 0 <= w && 0 <= k && w + k <= |s|
  {
    Sum(s, w, w + k)
  }

  /** Extending the range by one value on the right adds that value. */
  lemma {:induction false} SumSnoc(s: seq<int>, lo: int, hi: int)
    requires 0 <= lo <= hi < |s|
    ensures Sum(s, lo, hi + 1) == Sum(s, lo, hi) + s[hi]
    decreases hi - lo
  {
    if lo < hi {
      SumSnoc(s, lo + 1, hi);
    }
  }

  /** Sliding the window one step right drops s[lo] and adds s[lo + k]. */
  lemma SumSlide(s: seq<int>, lo: int, k: int)
    requires 0 <= lo && 0 <= k && lo + k < |s|
    ensures WindowSum(s, lo + 1, k) == WindowSum(s, lo, k) + s[lo + k] - s[lo]
  {
    SumSnoc(s, lo, lo + k);
  }

  /** `max_sum_k_successive(values, k)`: the list must be non-empty and
      1 <= k <= len(values). The answer is the start of the earliest
      window of k values whose sum no other window exceeds, and that sum. */
  method MaxSumKSuccessive(values: seq<int>, k: int) returns (idx: int, maxSum: int)
    requires |values| > 0
    requires 1 <= k <= |values|
    ensures 0 <= idx <= |values| - k
    ensures maxSum == WindowSum(values, idx, k)
    ensures forall w :: 0 <= w <= |values| - k ==> WindowSum(values, w, k) <= maxSum
    ensures forall w :: 0 <= w < idx ==> WindowSum(values, w, k) < maxSum
    ensures k == |values| ==> idx == 0 && maxSum == Sum(values, 0, |values|)
  {
    var curr := WindowSum(values, 0, k);
    maxSum, idx := curr, 0;
    for i := 1 to |values| - k + 1
      invariant curr == WindowSum(values, i - 1, k)
      invariant 0 <= idx < i
      invariant maxSum == WindowSum(values, idx, k)
      invariant forall w :: 0 <= w < i ==> WindowSum(values, w, k) <= maxSum
      invariant forall w :: 0 <= w < idx ==> WindowSum(values, w, k) < maxSum
    {
      SumSlide(values, i - 1, k);
      curr := curr + values[i + k - 1] - values[i - 1];
      if curr > maxSum {
        maxSum, idx := curr, i;
      }
    }
  }

  /** The list of the command-line run with k = 4: the window 3, 80, 2, 44 at index 8. */
  method Example() returns (idx: int, maxSum: int)
    ensures idx == 8 && maxSum == 129
  {
    var values := [5, 2, 8, 0, 5, 100, 2, 8, 3, 80, 2, 44, 2];
    idx, maxSum := MaxSumKSuccessive(values, 4);
    assert WindowSum(values, 8, 4) == 129;
    assert forall w :: 0 <= w < 8 ==> WindowSum(values, w, 4) < 129;
    assert WindowSum(values, 9, 4) < 129;
  }
}
