/** The array class that relabels in place (data_structures/oned_array.py):
    insert and pop shift the labels of later elements by one, switch
    exchanges two content texts, and reorder relabels every element with
    its new position and then sorts the elements by label. */
module OnedArray {
  import opened Permutations
  import opened StableSort
  import opened ArrayState

  /** `insert(idx, value)`: out-of-range indices are ignored, a negative
      index counts from the end, and `idx == n` appends. Otherwise the new
      element takes label idx and every later label goes up by one. */
  function Insert<T(==)>(a: Array<T>, idx: int, v: T): (r: Array<T>)
    requires Sized(a)
    ensures Sized(r)
    ensures idx > a.n || idx < -a.n ==> r == a
    ensures -a.n <= idx <= a.n ==> r.n == a.n + 1
    ensures Valid(a) ==> Valid(r)
  {
    if idx > a.n || idx < -a.n then a
    else
      var i := Normalize(idx, a.n);
      if i == a.n then Append(a, v)
      else
        Array(a.values[..i] + [v] + a.values[i..], a.n + 1,
              a.elems[..i] + [NewElement(v, i)] + Shift(a.elems[i..], 1))
  }

  /** `pop(idx=-1)`: out-of-range indices are ignored, a negative index
      counts from the end; every label after the removed slot goes down by one. */
  function Pop<T(==)>(a: Array<T>, idx: int): (r: Array<T>)
    requires Sized(a)
    ensures Sized(r)
    ensures idx >= a.n || idx < -a.n ==> r == a
    ensures -a.n <= idx < a.n ==> r.n == a.n - 1
    ensures Valid(a) ==> Valid(r)
  {
    if idx >= a.n || idx < -a.n then a
    else
      var i := Normalize(idx, a.n);
      Array(a.values[..i] + a.values[i+1..], a.n - 1,
            a.elems[..i] + Shift(a.elems[i+1..], -1))
  }

  /** The relabelling loop of `_reorder`: for k = 0, 1, ..., m-1 in turn,
      the element at position p[k] gets label k. */
  function AssignLabels<T>(es: seq<ArrayElement<T>>, p: seq<int>, m: nat): (r: seq<ArrayElement<T>>)
    requires m <= |p|
    requires IndicesIn(p, |es|)
    ensures |r| == |es|
  {
    if m == 0 then es
    else
      var prev := AssignLabels(es, p, m - 1);
      var q := Normalize(p[m-1], |es|);
      prev[q := prev[q].(index := m - 1)]
  }

  /** Labels never decrease along the list. */
  predicate IndexSorted<T>(s: seq<ArrayElement<T>>)
  {
    forall k, l :: 0 <= k < l < |s| ==> s[k].index <= s[l].index
  }

  /** No two elements carry the same label. */
  predicate DistinctIndices<T>(s: seq<ArrayElement<T>>)
  {
    forall k, l :: 0 <= k < l < |s| ==> s[k].index != s[l].index
  }

  /** One step of a stable insertion sort by label: e goes after every
      element whose label is not larger. */
  function InsertByIndex<T>(s: seq<ArrayElement<T>>, e: ArrayElement<T>): (r: seq<ArrayElement<T>>)
    ensures |r| == |s| + 1
    ensures multiset(r) == multiset(s) + multiset{e}
  {
    if |s| == 0 then [e]
    else if e.index < s[0].index then [e] + s
    else
      assert s == [s[0]] + s[1..];
      [s[0]] + InsertByIndex(s[1..], e)
  }

  /** `elems.submobjects.sort(key=label)`: a stable sort on the labels. */
  function SortByIndex<T>(es: seq<ArrayElement<T>>): (r: seq<ArrayElement<T>>)
    ensures |r| == |es|
    ensures multiset(r) == multiset(es)
  {
    if |es| == 0 then []
    else
      assert es == es[..|es|-1] + [es[|es|-1]];
      InsertByIndex(SortByIndex(es[..|es|-1]), es[|es|-1])
  }

  /** `_reorder(p)`: values become `[values[i] for i in p]`; elements are
      relabelled by AssignLabels and then sorted by label. The counter n is
      left as it was. The animation reads `elems[k]` for every position k of
      p, so p has at most n entries. */
  function Reorder<T(==)>(a: Array<T>, p: seq<int>): (r: Array<T>)
    requires Sized(a)
    requires IndicesIn(p, a.n) && |p| <= a.n
    ensures r.n == a.n && |r.elems| == a.n
    ensures r.values == Apply(a.values, p)
    ensures multiset(r.elems) == multiset(AssignLabels(a.elems, p, |p|))
  {
    Array(Apply(a.values, p), a.n, SortByIndex(AssignLabels(a.elems, p, |p|)))
  }

  /** `sort(reverse)`: reorder by the stable sort of the values. */
  function Sort(a: Array<int>, reverse: bool): (r: Array<int>)
    requires Sized(a)
  {
    Reorder(a, SortIndices(a.values, reverse))
  }

  /** `shuffle()`: reorder by sorting the positions on the keys that
      `random.random()` drew, one per position. */
  function Shuffle<T(==)>(a: Array<T>, draws: seq<int>): (r: Array<T>)
    requires Sized(a)
    requires |draws| == a.n
  {
    Reorder(a, SortIndices(draws, false))
  }

  // ---------------------------------------------------------------------
  // Insert and pop

  /** A negative index in range is the same as counting from the end. */
  lemma InsertNegativeIndex<T>(a: Array<T>, idx: int, v: T)
    requires Sized(a)
    requires -a.n <= idx < 0
    ensures Insert(a, idx, v) == Insert(a, idx + a.n, v)
  {
  }

  /** Inserting at n is exactly appending. */
  lemma InsertAtEndAppends<T>(a: Array<T>, v: T)
    requires Sized(a)
    ensures Insert(a, a.n, v) == Append(a, v)
  {
  }

  /** Inserting at an index in range splices the value in, gives the new
      element label i, moves the later elements up one slot with labels
      one higher, and leaves the earlier ones alone. */
  lemma InsertSplices<T>(a: Array<T>, i: int, v: T)
    requires Sized(a)
    requires 0 <= i <= a.n
    ensures var r := Insert(a, i, v);
      && r.values == a.values[..i] + [v] + a.values[i..]
      && r.elems[..i] == a.elems[..i]
      && r.elems[i] == NewElement(v, i)
      && (forall k :: i < k <= a.n ==> r.elems[k] == a.elems[k-1].(index := a.elems[k-1].index + 1))
  {
    if i == a.n {
      assert a.values[i..] == [] && a.values[..i] == a.values;
    }
  }

  /** A negative pop index in range is the same as counting from the end. */
  lemma PopNegativeIndex<T>(a: Array<T>, idx: int)
    requires Sized(a)
    requires -a.n <= idx < 0
    ensures Pop(a, idx) == Pop(a, idx + a.n)
  {
  }

  /** Popping at an index in range removes that value and that element
      and lowers the later labels by one. */
  lemma PopRemoves<T>(a: Array<T>, i: int)
    requires Sized(a)
    requires 0 <= i < a.n
    ensures var r := Pop(a, i);
      && r.values == a.values[..i] + a.values[i+1..]
      && r.elems[..i] == a.elems[..i]
      && (forall k :: i <= k < a.n - 1 ==> r.elems[k] == a.elems[k+1].(index := a.elems[k+1].index - 1))
  {
  }

  /** The default `pop()` removes the last element, and does nothing on
      an empty array. */
  lemma PopDefaultRemovesLast<T>(a: Array<T>)
    requires Sized(a)
    ensures a.n == 0 ==> Pop(a, -1) == a
    ensures a.n > 0 ==> Pop(a, -1) == Array(a.values[..a.n-1], a.n - 1, a.elems[..a.n-1])
  {
    if a.n > 0 {
      var r := Pop(a, -1);
      assert a.values[a.n..] == [] && a.elems[a.n..] == [];
      assert Shift(a.elems[a.n..], -1) == [];
    }
  }

  /** `insert(i, v)` followed by `pop(i)` restores the whole state:
      values, counter, elements and labels. */
  lemma InsertThenPop<T>(a: Array<T>, i: int, v: T)
    requires Sized(a)
    requires 0 <= i <= a.n
    ensures Pop(Insert(a, i, v), i) == a
  {
    var r := Insert(a, i, v);
    InsertSplices(a, i, v);
    PopRemoves(r, i);
    var s := Pop(r, i);
    assert s.values == a.values by {
      assert r.values[..i] == a.values[..i];
      assert r.values[i+1..] == a.values[i..];
      assert a.values[..i] + a.values[i..] == a.values;
    }
    assert s.elems == a.elems by {
      forall k | 0 <= k < a.n ensures s.elems[k] == a.elems[k] {
        if k >= i {
          assert s.elems[k] == r.elems[k+1].(index := r.elems[k+1].index - 1);
        }
      }
    }
  }

  // ---------------------------------------------------------------------
  // Reorder

  /** After the first m rounds of the relabelling loop, the element at
      p[k] (k < m) carries label k and every other element is untouched. */
  lemma {:induction false} AssignLabelsSpec<T>(es: seq<ArrayElement<T>>, p: seq<int>, m: nat)
    requires IsPermutation(p, |es|)
    requires m <= |p|
    ensures forall k :: 0 <= k < m ==> AssignLabels(es, p, m)[p[k]] == es[p[k]].(index := k)
    ensures forall q :: 0 <= q < |es| && q !in p[..m] ==> AssignLabels(es, p, m)[q] == es[q]
  {
    if m > 0 {
      AssignLabelsSpec(es, p, m - 1);
      var prev := AssignLabels(es, p, m - 1);
      var r := AssignLabels(es, p, m);
      assert r == prev[p[m-1] := prev[p[m-1]].(index := m - 1)];
      assert p[..m] == p[..m-1] + [p[m-1]];
      assert p[m-1] !in p[..m-1];
    }
  }

  /** Inserting into a label-sorted list keeps it label-sorted. */
  lemma {:induction false} InsertByIndexSorted<T>(s: seq<ArrayElement<T>>, e: ArrayElement<T>)
    requires IndexSorted(s)
    ensures IndexSorted(InsertByIndex(s, e))
  {
    if |s| > 0 && e.index >= s[0].index {
      InsertByIndexSorted(s[1..], e);
      var t := InsertByIndex(s[1..], e);
      forall l | 0 <= l < |t| ensures s[0].index <= t[l].index {
        assert t[l] in multiset(t);
        assert t[l] == e || t[l] in multiset(s[1..]);
        if t[l] != e {
          var j :| 0 <= j < |s[1..]| && s[1..][j] == t[l];
          assert s[j+1] == t[l];
        }
      }
    }
  }

  /** Inserting an element with a new label keeps labels distinct. */
  lemma {:induction false} InsertByIndexDistinct<T>(s: seq<ArrayElement<T>>, e: ArrayElement<T>)
    requires DistinctIndices(s)
    requires forall k :: 0 <= k < |s| ==> s[k].index != e.index
    ensures DistinctIndices(InsertByIndex(s, e))
  {
    if |s| > 0 && e.index >= s[0].index {
      var s' := s[1..];
      assert forall k :: 0 <= k < |s'| ==> s'[k] == s[k+1];
      InsertByIndexDistinct(s', e);
      var t := InsertByIndex(s', e);
      forall l | 0 <= l < |t| ensures s[0].index != t[l].index {
        assert t[l] in multiset(t);
        assert t[l] == e || t[l] in multiset(s');
        if t[l] != e {
          var j :| 0 <= j < |s'| && s'[j] == t[l];
        }
      }
    }
  }

  /** The label sort produces labels in non-decreasing order. */
  lemma {:induction false} SortByIndexSorted<T>(es: seq<ArrayElement<T>>)
    ensures IndexSorted(SortByIndex(es))
  {
    if |es| > 0 {
      SortByIndexSorted(es[..|es|-1]);
      InsertByIndexSorted(SortByIndex(es[..|es|-1]), es[|es|-1]);
    }
  }

  /** The label sort keeps distinct labels distinct. */
  lemma {:induction false} SortByIndexDistinct<T>(es: seq<ArrayElement<T>>)
    requires DistinctIndices(es)
    ensures DistinctIndices(SortByIndex(es))
  {
    if |es| > 0 {
      var init := es[..|es|-1];
      var e := es[|es|-1];
      SortByIndexDistinct(init);
      var s := SortByIndex(init);
      forall k | 0 <= k < |s| ensures s[k].index != e.index {
        assert s[k] in multiset(s);
        var j :| 0 <= j < |init| && init[j] == s[k];
      }
      InsertByIndexDistinct(s, e);
    }
  }

  /** A list of length n whose labels strictly increase and lie in [0, n)
      is labelled by position. */
  lemma {:induction false} StrictRanks<T>(s: seq<ArrayElement<T>>, k: int)
    requires IndexSorted(s) && DistinctIndices(s)
    requires forall j :: 0 <= j < |s| ==> 0 <= s[j].index < |s|
    requires 0 <= k < |s|
    ensures s[k].index >= k
    ensures s[|s| - 1 - k].index <= |s| - 1 - k
  {
    if k > 0 {
      StrictRanks(s, k - 1);
      assert s[k-1].index < s[k].index;
      assert s[|s| - 1 - k].index < s[|s| - k].index;
    }
  }

  /** After the whole relabelling loop, slot x carries label k exactly
      when p[k] == x, so the labels are distinct and lie in [0, n). */
  lemma AssignedLabels<T>(es: seq<ArrayElement<T>>, p: seq<int>)
    requires IsPermutation(p, |es|)
    ensures var L := AssignLabels(es, p, |p|);
      && (forall k :: 0 <= k < |es| ==> L[p[k]] == es[p[k]].(index := k))
      && (forall x :: 0 <= x < |es| ==> 0 <= L[x].index < |es| && p[L[x].index] == x)
      && DistinctIndices(L)
  {
    var n := |es|;
    var L := AssignLabels(es, p, n);
    AssignLabelsSpec(es, p, n);
    forall x | 0 <= x < n ensures 0 <= L[x].index < n && p[L[x].index] == x {
      assert x in p;
      var j :| 0 <= j < n && p[j] == x;
      assert L[p[j]].index == j;
    }
  }

  /** Sorting elements whose labels are exactly 0..n-1, each once, puts
      the element labelled k into slot k. */
  lemma SortByIndexRanks<T>(L: seq<ArrayElement<T>>)
    requires DistinctIndices(L)
    requires forall x :: 0 <= x < |L| ==> 0 <= L[x].index < |L|
    ensures forall k :: 0 <= k < |L| ==> SortByIndex(L)[k].index == k
    ensures forall k :: 0 <= k < |L| ==> SortByIndex(L)[k] in L
  {
    var n := |L|;
    var S := SortByIndex(L);
    SortByIndexSorted(L);
    SortByIndexDistinct(L);
    forall k | 0 <= k < n ensures S[k] in L {
      assert S[k] in multiset(S);
    }
    forall k | 0 <= k < n ensures S[k].index == k {
      forall j | 0 <= j < n ensures 0 <= S[j].index < n {
        assert S[j] in multiset(L);
        var x :| 0 <= x < n && L[x] == S[j];
      }
      StrictRanks(S, k);
      StrictRanks(S, n - 1 - k);
    }
  }

  /** Slot k of r holds element p[k] of es, relabelled k. */
  ghost predicate PlacedBy<T>(r: seq<ArrayElement<T>>, es: seq<ArrayElement<T>>, p: seq<int>)
    requires |r| == |p| && forall k :: 0 <= k < |p| ==> 0 <= p[k] < |es|
  {
    forall k :: 0 <= k < |p| ==> r[k] == es[p[k]].(index := k)
  }

  /** The relabel-then-sort of `_reorder` places element p[k] in slot k. */
  lemma RelabelSortPlaces<T>(es: seq<ArrayElement<T>>, p: seq<int>)
    requires IsPermutation(p, |es|)
    ensures PlacedBy(SortByIndex(AssignLabels(es, p, |p|)), es, p)
  {
    var n := |es|;
    var L := AssignLabels(es, p, n);
    AssignedLabels(es, p);
    SortByIndexRanks(L);
    var S := SortByIndex(L);
    forall k | 0 <= k < n ensures S[k] == es[p[k]].(index := k) {
      OnlyOneWithLabel(L, es, p, S[k], k);
    }
  }

  /** After relabelling, the only element carrying label k is element
      p[k]. */
  lemma OnlyOneWithLabel<T>(L: seq<ArrayElement<T>>, es: seq<ArrayElement<T>>, p: seq<int>, e: ArrayElement<T>, k: int)
    requires |L| == |es| == |p| && 0 <= k < |p|
    requires forall x :: 0 <= x < |L| ==> 0 <= L[x].index < |p| && p[L[x].index] == x
    requires forall j :: 0 <= j < |p| ==> 0 <= p[j] < |es| && L[p[j]] == es[p[j]].(index := j)
    requires e in L && e.index == k
    ensures e == es[p[k]].(index := k)
  {
    var x :| 0 <= x < |L| && L[x] == e;
  }

  /** For a permutation p, `_reorder(p)` moves element p[k] into slot k and
      relabels it k: the labels are 0..n-1 again, the values are permuted
      alongside, and each element still shows its slot's value. */
  lemma ReorderPlacesElements<T>(a: Array<T>, p: seq<int>)
    requires Sized(a)
    requires IsPermutation(p, a.n)
    ensures Sized(Reorder(a, p))
    ensures PlacedBy(Reorder(a, p).elems, a.elems, p)
    ensures Labelled(Reorder(a, p).elems)
    ensures forall k :: 0 <= k < a.n ==> Reorder(a, p).values[k] == a.values[p[k]]
    ensures multiset(Reorder(a, p).values) == multiset(a.values)
    ensures Shows(a.elems, a.values) ==> Shows(Reorder(a, p).elems, Reorder(a, p).values)
  {
    RelabelSortPlaces(a.elems, p);
    ApplyPreservesMultiset(a.values, p);
  }

  // ---------------------------------------------------------------------
  // Sort and shuffle

  /** `sort(reverse)` leaves the values in the requested order, as a
      permutation of the old ones; values that tie keep their original
      relative order; every element moves with its value, relabelled with
      its new position. */
  lemma SortOrders(a: Array<int>, reverse: bool)
    requires Sized(a)
    ensures Sized(Sort(a, reverse)) && Labelled(Sort(a, reverse).elems)
    ensures Ordered(Sort(a, reverse).values, reverse)
    ensures multiset(Sort(a, reverse).values) == multiset(a.values)
    ensures PlacedBy(Sort(a, reverse).elems, a.elems, SortIndices(a.values, reverse))
    ensures forall k, l :: 0 <= k < l < a.n && Sort(a, reverse).values[k] == Sort(a, reverse).values[l] ==>
      SortIndices(a.values, reverse)[k] < SortIndices(a.values, reverse)[l]
    ensures Shows(a.elems, a.values) ==> Shows(Sort(a, reverse).elems, Sort(a, reverse).values)
  {
    var p := SortIndices(a.values, reverse);
    ReorderPlacesElements(a, p);
    StablySortedMeansOrdered(a.values, reverse, p);
  }

  /** Sorting values that are already in order changes nothing. */
  lemma SortOfOrderedIsIdentity(a: Array<int>, reverse: bool)
    requires Valid(a)
    requires Ordered(a.values, reverse)
    ensures Sort(a, reverse) == a
  {
    SortPrefixOfOrdered(a.values, reverse, a.n);
    ReorderIdentity(a);
  }

  /** Reordering by the identity changes nothing on a valid array. */
  lemma ReorderIdentity<T>(a: Array<T>)
    requires Valid(a)
    ensures Reorder(a, Identity(a.n)) == a
  {
    IdentityIsPermutation(a.n);
    var id := Identity(a.n);
    ReorderPlacesElements(a, id);
    var r := Reorder(a, id);
    assert r.values == a.values;
    assert r.elems == a.elems;
  }

  /** `shuffle()` permutes the values and moves every element with its
      value, relabelled with its new position. */
  lemma ShufflePermutes<T>(a: Array<T>, draws: seq<int>)
    requires Sized(a)
    requires |draws| == a.n
    ensures Sized(Shuffle(a, draws)) && Labelled(Shuffle(a, draws).elems)
    ensures multiset(Shuffle(a, draws).values) == multiset(a.values)
    ensures PlacedBy(Shuffle(a, draws).elems, a.elems, SortIndices(draws, false))
    ensures Shows(a.elems, a.values) ==> Shows(Shuffle(a, draws).elems, Shuffle(a, draws).values)
  {
    ReorderPlacesElements(a, SortIndices(draws, false));
  }

  /** Every permutation is some shuffle: drawing key k for the position
      that should land in slot k makes `shuffle()` reorder by exactly q. */
  lemma ShuffleReachesEveryPermutation<T>(a: Array<T>, q: seq<int>)
    requires Sized(a)
    requires IsPermutation(q, a.n)
    ensures exists draws :: |draws| == a.n && Shuffle(a, draws) == Reorder(a, q)
  {
    var draws := Inverse(q, a.n);
    forall k, l | 0 <= k < l < a.n ensures Precedes(draws, false, q[k], q[l]) {
      assert draws[q[k]] == k && draws[q[l]] == l;
    }
    SortIndicesUnique(draws, false, q);
    assert Shuffle(a, draws) == Reorder(a, q);
  }

  // ---------------------------------------------------------------------
  // Any sequence of calls

  /** One public call on an integer array. `random.random()` is the
      stream `draw`, read once per position by `shuffle()`. */
  datatype Op =
    | AppendOp(v: int)
    | InsertOp(idx: int, v: int)
    | PopOp(idx: int)
    | SwitchOp(i: int, j: int)
    | SortOp(reverse: bool)
    | ShuffleOp(draw: int -> int)

  /** The state after one call. */
  function Step(a: Array<int>, op: Op): (r: Array<int>)
    requires Sized(a)
    ensures Sized(r)
  {
    match op
    case AppendOp(v) => Append(a, v)
    case InsertOp(idx, v) => Insert(a, idx, v)
    case PopOp(idx) => Pop(a, idx)
    case SwitchOp(i, j) => Switch(a, i, j)
    case SortOp(reverse) => SortOrders(a, reverse); Sort(a, reverse)
    case ShuffleOp(draw) =>
      var draws := seq(a.n, i => draw(i));
      ShufflePermutes(a, draws);
      Shuffle(a, draws)
  }

  /** The state after a sequence of calls. */
  function Run(a: Array<int>, ops: seq<Op>): Array<int>
    requires Sized(a)
    decreases |ops|
  {
    if |ops| == 0 then a else Run(Step(a, ops[0]), ops[1..])
  }

  /** After any sequence of calls, n matches both lists, every label is
      its element's position, and every element shows its slot's value. */
  lemma {:induction false} RunKeepsValid(a: Array<int>, ops: seq<Op>)
    requires Valid(a)
    ensures Valid(Run(a, ops))
    decreases |ops|
  {
    if |ops| > 0 {
      var b := Step(a, ops[0]);
      match ops[0] {
        case SortOp(reverse) => SortOrders(a, reverse);
        case ShuffleOp(draw) => ShufflePermutes(a, seq(a.n, i => draw(i)));
        case _ =>
      }
      assert Valid(b);
      RunKeepsValid(b, ops[1..]);
    }
  }
}
