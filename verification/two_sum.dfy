/** Two pointers over a sorted list (two_sum.py): find i < j whose
    values add up to the target. */
module TwoSum {
  import opened StableSort

  /** Some pair of distinct positions i < j adds up to target. */
  predicate HasPair(values: seq<int>, target: int)
  {
    exists a, b :: 0 <= a < b < |values| && values[a] + values[b] == target
  }

  /** `two_sum(values, target)`: the list must be non-empty and sorted
      ascending. The answer is (-1, -1) exactly when no pair exists;
      otherwise it is a pair of positions i < j that adds up to target. */
  method TwoSum(values: seq<int>, target: int) returns (i: int, j: int)
    requires |values| > 0
    requires Ordered(values, false)
    ensures (i, j) == (-1, -1) || (0 <= i < j < |values| && values[i] + values[j] == target)
    ensures (i, j) == (-1, -1) <==> !HasPair(values, target)
  {
    i, j := 0, |values| - 1;
    while i < j
      invariant 0 <= i <= j < |values|
      // no solution uses a position left of i or right of j
      invariant forall a, b :: 0 <= a < b < |values| && values[a] + values[b] == target ==> i <= a && b <= j
      decreases j - i
    {
      if values[i] + values[j] == target {
        return;
      } else if values[i] + values[j] < target {
        i := i + 1;
      } else {
        j := j - 1;
      }
    }
    i, j := -1, -1;
  }

  /** The list of the command-line run. */
  const DriverValues: seq<int> := [1, 4, 5, 5, 8, 12, 15, 16, 25, 36, 37, 40, 42, 43, 66, 71]

  /** With target 58 a pair is found (16 + 42 is one). */
  method Example() returns (i: int, j: int)
    ensures 0 <= i < j < |DriverValues| && DriverValues[i] + DriverValues[j] == 58
  {
    assert DriverValues[7] + DriverValues[12] == 58;
    i, j := TwoSum(DriverValues, 58);
  }
}
