# animated-algorithms, logical core in Dafny

animated-algorithms draws classic data structures and algorithms with
manim. Under the drawing sit three pieces of plain logic, and this project
models them and proves properties about them:

- **Containers.** Two array classes (`data_structures/oned_array.py` and
  `data_structures/1d_array.py`) and a stack (`data_structures/stack.py`).
  Each keeps a Python `values` list, a counter `n` and one drawn element per
  value. The arrays label each element with its position.
- **Algorithms.** The plain functions next to each animated driver:
  two-pointer `two_sum`, sliding-window `max_sum_k_successive`, stack-based
  `valid_parentheses`, in-place `selection_sort` and `linear_search`.
- **Graham scan.** From `graham_scan.py`: the orientation test, the choice of
  the lowest point, and the hull-stack loop.

A container is an immutable record, and each of its public calls is a
pure function from record to record. An array is `Array(values, n, elems)`.
Each element keeps three fields:
- `value`: the value it was built with;
- `text`: the value it shows;
- `index`: its integer label.

Where a call also hands back an animation (the stack's `push` and `pop`), the
animation is returned as data. The algorithms are methods with loop
invariants. The Graham scan works on exact `real` coordinates.

## Modules

| file | module | models |
|---|---|---|
| `wrappers.dfy` | `Wrappers` | `Option` and `Result` |
| `permutations.dfy` | `Permutations` | index lists `[s[i] for i in p]` with Python's negative-index wrap, permutations, multiset preservation, and uniqueness of a permutation that lists a strict total order |
| `stable_sort.dfy` | `StableSort` | `sorted(range(n), key=..., reverse=...)` as a stable insertion sort; with `reverse=True`, equal keys keep their original order |
| `array_state.dfy` | `ArrayState` | the array record, its constructor, the invariant `Valid` (`n == len(values) == len(elems)`, label k at slot k, slot k shows `values[k]`), and `append` and `switch`, which both classes implement identically |
| `oned_array.py` → `oned_array.dfy` | `OnedArray` | insert, pop, `_reorder`, sort, shuffle |
| `1d_array.py` → `array_1d.dfy` | `Array1D` | the stub insert, pop, `_reorder` (which rebuilds the elements), sort, shuffle |
| `stack.py` → `stack.dfy` | `Stacks` | constructor, push, pop, LIFO |
| `two_sum.dfy`, `max_sum_window.dfy`, `valid_parentheses.dfy`, `selection_sort.dfy`, `linear_search.dfy` | one module each | the five algorithm functions |
| `graham_scan.dfy` | `GrahamScan` | orientation, lowest point, hull loop |

Points where the code behaves in a way worth spelling out:

- **Index lists in `_reorder`.** `_reorder` takes any list of in-range
  indices, not only a permutation.
  - `oned_array.py` reads `elems[k]` for every position k of the list while
    animating (line 120), so the list has at most `n` entries, and
    `OnedArray.Reorder` requires that. With a shorter or repeating list it
    relabels the elements one after another (a later label overwrites an
    earlier one), then sorts them by label. `OnedArray.Reorder` does the same.
  - `1d_array.py` never updates `n`. `Array1D.Reorder` models the call
    without a scene, which accepts a list of any length, and states that `n`
    agrees with the lists again exactly when the index list has `n` entries.
- **`switch` and `ArrayElement.value`.** `switch` swaps only the displayed
  texts. Each element's `value` field keeps the value it was built with, so
  the invariant is stated on the text.
- **Stack constructor.** A missing list (`values=None`) makes the assertion
  fail. This is modelled as the error result `ValuesNotAList`.

Python's assertions on the inputs of the algorithm functions become
`requires` clauses: sorted input for `two_sum`, `1 <= k <= len` for the window,
only brackets for `valid_parentheses`, more than two points for `graham`.

## Model

| member | source | states |
|---|---|---|
| ArrayState.Init | data_structures/oned_array.py:28-32 | the new array is valid: n equals the number of values, element i is labelled i and shows values[i], and each element's value field is its value (1d_array.py:28-33 builds the same) |
| ArrayState.Append | data_structures/oned_array.py:39-45 | values gain v at the end, n grows by one, earlier elements are untouched, the new element is labelled n-1 after the increment, validity is kept (1d_array.py:43-50 does the same) |
| OnedArray.Insert | data_structures/oned_array.py:48-69 | idx > n or idx < -n leaves the whole state unchanged; any other idx adds exactly one value; validity (labels exactly 0..n) is kept |
| OnedArray.InsertNegativeIndex | data_structures/oned_array.py:51-52 | for -n <= idx < 0, insert(idx) is insert(idx + n) |
| OnedArray.InsertAtEndAppends | data_structures/oned_array.py:53-54 | insert(n, v) is exactly append(v) |
| OnedArray.InsertSplices | data_structures/oned_array.py:56-69 | for 0 <= i <= n the values become old[..i] + [v] + old[i..]; earlier elements stay; the new element has label i; every later element moves up one slot with its label one higher |
| OnedArray.Pop | data_structures/oned_array.py:72-90 | idx >= n or idx < -n leaves the state unchanged; otherwise exactly one value goes; validity is kept |
| OnedArray.PopNegativeIndex | data_structures/oned_array.py:75-76 | for -n <= idx < 0, pop(idx) is pop(idx + n) |
| OnedArray.PopRemoves | data_structures/oned_array.py:77-90 | for 0 <= i < n the value and element at i are removed, earlier elements stay, and later elements move down one slot with their labels one lower |
| OnedArray.PopDefaultRemovesLast | data_structures/oned_array.py:72-90 | the default pop(-1) drops the last value and element, and does nothing on an empty array |
| OnedArray.InsertThenPop | data_structures/oned_array.py:48-90 | insert(i, v) then pop(i) restores values, n, elements and labels |
| ArrayState.Switch | data_structures/oned_array.py:93-115 | acts only for 0 <= i, j < n with i != j: exchanges values[i] and values[j] and the two displayed texts; every box, label and value field stays; other slots are untouched; validity is kept (1d_array.py:64-83 does the same) |
| ArrayState.SwitchTwice | data_structures/oned_array.py:93-115 | switching the same pair twice is the identity |
| OnedArray.Reorder | data_structures/oned_array.py:117-125 | for an index list of at most n in-range entries, values become [values[i] for i in p]; n is unchanged; the element list is a rearrangement of the relabelled elements |
| OnedArray.AssignLabelsSpec | data_structures/oned_array.py:123-124 | after the relabelling loop over a permutation p, element p[k] carries label k and nothing else changed |
| OnedArray.SortByIndexRanks | data_structures/oned_array.py:125 | sorting elements with distinct labels in 0..n-1 by label puts the element labelled k in slot k, and every slot holds one of the elements |
| OnedArray.ReorderPlacesElements | data_structures/oned_array.py:117-125 | for a permutation p, slot k receives the old element p[k] relabelled k and the value values[p[k]]; labels are 0..n-1; the values are a permutation of the old ones; each slot still shows its value |
| OnedArray.ReorderIdentity | data_structures/oned_array.py:117-125 | reordering a valid array by the identity changes nothing |
| OnedArray.SortOrders | data_structures/oned_array.py:127-129 | after sort(reverse) the values are in the requested order and are a permutation of the old values; equal values keep their original relative order; every element moves with its value and is relabelled with its new slot |
| OnedArray.SortOfOrderedIsIdentity | data_structures/oned_array.py:127-129 | sorting a valid array whose values are already in the requested order changes nothing |
| OnedArray.ShufflePermutes | data_structures/oned_array.py:131-133 | shuffle permutes the values, moves every element with its value and relabels it; validity is kept |
| OnedArray.ShuffleReachesEveryPermutation | data_structures/oned_array.py:131-133 | for every permutation q some draws make shuffle reorder by exactly q |
| OnedArray.RunKeepsValid | data_structures/oned_array.py:28-133 | after any sequence of append, insert, pop, switch, sort and shuffle calls, n == len(values) == len(elems), element k is labelled k and shows values[k] |
| Permutations.ApplyPreservesMultiset | data_structures/oned_array.py:118 | reading a list through a permutation keeps exactly the same entries with the same multiplicities |
| Permutations.OrderedPermutationUnique | data_structures/oned_array.py:128 | two permutations that both list the positions in the same strict total order are equal |
| StableSort.SortIndices | data_structures/oned_array.py:128 | the sort yields a permutation of range(n) in which every earlier index precedes every later one: strictly smaller key (larger with reverse), or an equal key and a smaller original position |
| StableSort.StablySortedMeansOrdered | data_structures/oned_array.py:128 | the keys read through the sorted indices are in order, and equal keys keep their original relative order, with or without reverse |
| StableSort.SortPrefixOfOrdered | data_structures/oned_array.py:128 | sorting keys that are already in order yields the identity permutation |
| StableSort.SortIndicesUnique | data_structures/oned_array.py:128 | the stable sort is the only permutation listing the indices in that order |
| Array1D.Insert | data_structures/1d_array.py:40-41 | insert is a stub: the state is unchanged whatever the value and index |
| Array1D.Pop | data_structures/1d_array.py:54-59 | with n == 0 nothing changes; otherwise exactly the last value and the last element go and n drops by one; validity is kept |
| Array1D.AppendThenPop | data_structures/1d_array.py:43-59 | append(v) then pop() restores the state |
| Array1D.Reorder | data_structures/1d_array.py:85-94 | values become [values[i] for i in p]; the elements are fresh, labelled 0..len-1 and showing the new values; n is not touched, so n agrees with the lists exactly when p has n entries |
| Array1D.ReorderExample | data_structures/1d_array.py:86 | a stand-alone worked example: reordering a fresh array of [20, 35, 1, 8, 100, 2, 5] by [0, 5, 6, 2, 3, 1, 4] gives [20, 2, 5, 1, 8, 35, 100] |
| Array1D.Sort | data_structures/1d_array.py:98-100 | the result is valid, in the requested order, and a permutation of the old values |
| Array1D.SortIsStable | data_structures/1d_array.py:98-100 | the sort reorders by a permutation under which equal values keep their original relative order, and the elements are exactly those the constructor builds for the new values |
| Array1D.SortOfOrdered | data_structures/1d_array.py:94-100 | sorting values already in order keeps the values and rebuilds the elements as the constructor would |
| Array1D.Shuffle | data_structures/1d_array.py:102-104 | the result is valid and a permutation of the old values |
| Array1D.ShuffleReachesEveryPermutation | data_structures/1d_array.py:102-104 | for every permutation q some draws make shuffle reorder by exactly q |
| Array1D.RunKeepsValid | data_structures/1d_array.py:28-104 | after any sequence of calls, n == len(values) == len(elems), element k is labelled k and shows values[k] |
| Stacks.Init | data_structures/stack.py:52-68 | without a list the constructor fails, and only then; with a list there is one unlabelled element per value and n == len(values) |
| Stacks.Push | data_structures/stack.py:92-109 | v goes on top and n grows by one; the lower part is unchanged; the returned animation fades in an unlabelled element for v; validity is kept |
| Stacks.Pop | data_structures/stack.py:111-119 | on an empty stack the state is unchanged and the answer is a wait; otherwise the top value and element go, n drops by one, and the popped element fades out |
| Stacks.PushThenPop | data_structures/stack.py:92-119 | push(v) then pop() restores the stack and fades out the element that was pushed |
| Stacks.PushAllThenPopAll | data_structures/stack.py:92-119 | pushing a list and popping as many times gives back the stack and hands the values out in reverse order |
| Stacks.TestScene | data_structures/stack.py:122-134 | push 45, pop, push 88, pop on an empty stack ends empty; pushing 45 and 88 and popping once leaves [45] |
| TwoSum.TwoSum | two_sum.py:131-146 | on a non-empty ascending list the answer is (-1, -1) exactly when no pair i < j sums to the target; otherwise it is such a pair |
| TwoSum.Example | two_sum.py:149-152 | on the command-line list and target 58 the answer is a pair of positions i < j whose values sum to 58 |
| MaxSumWindow.SumSlide | max_sum_k_successive.py:167 | moving the window one step right adds the entering value and subtracts the leaving one |
| MaxSumWindow.MaxSumKSuccessive | max_sum_k_successive.py:160-170 | for 1 <= k <= len the index is in [0, len-k]; the sum is that window's sum; no window sums more; every earlier window sums strictly less; for k == len the answer is (0, sum(values)) |
| MaxSumWindow.Example | max_sum_k_successive.py:173-176 | on the command-line list with k = 4 the answer is (8, 129) |
| ValidParentheses.OpenerFor | valid_parentheses.py:116 | every closer maps to an opener |
| ValidParentheses.Scan | valid_parentheses.py:122-130 | started from a stack of openers, the loop only ever holds openers |
| ValidParentheses.ScanIffBalanced | valid_parentheses.py:122-130 | the loop ends with an empty stack exactly for the well-nested strings of the bracket grammar |
| ValidParentheses.BalancedEven | valid_parentheses.py:130 | a valid string has even length |
| ValidParentheses.RejectedPrefixNeverValid | valid_parentheses.py:125-126 | once a closer meets an empty stack or the wrong opener, no continuation of the string is valid, so returning False at once is right |
| ValidParentheses.IsValid | valid_parentheses.py:113-130 | on a bracket-only string the answer is True exactly when the string is well nested, and then its length is even |
| ValidParentheses.EmptyExample | valid_parentheses.py:130 | the empty string is valid |
| SelectionSort.FirstMinimum | selection_sort.py:50-53 | the inner loop finds the first position of a minimum of values[i..] |
| SelectionSort.SelectionSort | selection_sort.py:48-55 | the result is ascending and a permutation of the input, and input already ascending comes back unchanged |
| SelectionSort.Example | selection_sort.py:58-60 | the command-line list comes back ascending with the same entries |
| LinearSearch.LinearSearch | linear_search.py:56-60 | the answer is -1 exactly when the target is absent, empty list included; otherwise it is the first position holding the target |
| LinearSearch.Example | linear_search.py:63-66 | on the command-line list the first 7 is at position 10 |
| GrahamScan.Orientation | graham_scan.py:7-17 | the answer is COUNTERCLOCKWISE, COLLINEAR or CLOCKWISE by the sign of the signed area (p2 - p1) × (p3 - p1) |
| GrahamScan.OrientationReverse | graham_scan.py:14-17 | reversing the triple negates the orientation |
| GrahamScan.OrientationRotate | graham_scan.py:14-17 | starting the triple at its second point keeps the orientation |
| GrahamScan.OrientationDegenerate | graham_scan.py:14-17 | a triple with a repeated point is collinear |
| GrahamScan.LowestPoint | graham_scan.py:77 | the first position of a point minimal in (y, x): no point is lower, and every earlier point is strictly higher |
| GrahamScan.HullScan | graham_scan.py:107-154 | the hull starts with p0, which is never popped; it ends with the last point; every three consecutive hull points turn strictly counter-clockwise; past p0 the hull is a subsequence of the points |
| GrahamScan.Graham | graham_scan.py:40-154 | for more than two points the hull starts at a lowest point, ends with the last sorted point, turns strictly left at every point, and uses only input points |

## Left out

- Everything manim draws: scenes, `play`, `.animate`, transforms, fades,
  camera framing, colours, positions, timings. The animations `push` and
  `pop` return are kept only as data saying which element fades in or out.
- `data_structures/element.py` and `data_structures/pointer.py`: drawing
  only. The stack's elements are modelled by their value and their (absent)
  label.
- `StackElement` geometry, `_update_styles_after_scaling`, the stack's
  label text and its debugging `print`: layout and output.
- `graham_scan.py`: `find_best_direction`, `dist` and `polar_angle` (cos, sin,
  atan2 and sqrt floats), and the polar sort at line 91. `Graham` takes the
  sorted list as a parameter that must be a rearrangement of the points.
  None of the proved hull properties depend on the sort.
- GrahamScan.HullScan: proves the left-turn and subsequence invariants but
  not that the result is the convex hull, since that depends on the polar
  sort, which is not modelled.
- GrahamScan.Graham: the closing edge back to p0 (lines 158-160) is drawing
  only.
- `random.random()` in `shuffle`: the drawn keys are an integer parameter,
  one per position. Only their order matters to the stable sort.
- Numbers: array values and the algorithms' inputs are `int`, and the
  Graham coordinates are `real`. Python floats, with their rounding, are not
  modelled.
- OnedArray.Sort: values are `int` rather than any comparable Python type.
- Array1D.Sort: values are `int` rather than any comparable Python type.
- OnedArray.Reorder: an index list longer than `n` makes line 120 raise
  `IndexError`. The model requires at most `n` entries instead of modelling
  the exception.
- Array1D.Reorder: with a scene, an index list longer than `n` makes line 89
  raise `IndexError`. The model covers the call without a scene only.
- SelectionSort.SelectionSort: `selection_sort` swaps inside the caller's
  list and returns that same list object. The model returns the sorted
  sequence and says nothing about the caller's list being changed.
- Python aliasing: each container stores the caller's list itself, so the
  caller's later changes would show through. The model copies.
- The animated `Algorithm` driver methods: they repeat the plain functions'
  logic around drawing calls.
