/** The array class that rebuilds its elements (data_structures/1d_array.py):
    only the last element can be popped, `insert` is an unfinished stub,
    and `_reorder` throws the old elements away and builds fresh ones from
    the reordered values, labelled 0..n-1 as the constructor does. */
module Array1D {
  import opened Permutations
  import opened StableSort
  import opened ArrayState

  /** `insert(value, index)` has an empty body. */
  function Insert<T>(a: Array<T>, v: T, index: int): (r: Array<T>)
    ensures r == a
  {
    a
  }

  /** `pop()`: removes the last value and the last element when n > 0. */
  function Pop<T(==)>(a: Array<T>): (r: Array<T>)
    requires Sized(a)
    ensures Sized(r)
    ensures a.n == 0 ==> r == a
    ensures a.n > 0 ==> r.n == a.n - 1 && a.values == r.values + [a.values[a.n-1]] && a.elems == r.elems + [a.elems[a.n-1]]
    ensures Valid(a) ==> Valid(r)
  {
    if a.n > 0 then
      Array(a.values[..|a.values|-1], a.n - 1, a.elems[..|a.elems|-1])
    else a
  }

  /** `_reorder(indices)`: values become `[values[i] for i in indices]`
      and the elements are rebuilt from them as the constructor builds
      them. The counter n is not touched, so it stays in step with the
      lists exactly when `indices` has n entries. */
  function Reorder<T(==)>(a: Array<T>, p: seq<int>): (r: Array<T>)
    requires Sized(a)
    requires IndicesIn(p, a.n)
    ensures r.n == a.n
    ensures r.values == Apply(a.values, p)
    ensures Labelled(r.elems) && Shows(r.elems, r.values)
    ensures forall k :: 0 <= k < |p| ==> r.elems[k].value == r.values[k]
    ensures Sized(r) <==> |p| == a.n
  {
    var vs := Apply(a.values, p);
    Array(vs, a.n, Init(vs).elems)
  }

  /** `sort(reverse)`: reorder by the stable sort of the values. */
  function Sort(a: Array<int>, reverse: bool): (r: Array<int>)
    requires Sized(a)
    ensures Valid(r)
    ensures Ordered(r.values, reverse)
    ensures multiset(r.values) == multiset(a.values)
  {
    var p := SortIndices(a.values, reverse);
    StablySortedMeansOrdered(a.values, reverse, p);
    ApplyPreservesMultiset(a.values, p);
    Reorder(a, p)
  }

  /** `shuffle()`: reorder by sorting the positions on the keys that
      `random.random()` drew, one per position. */
  function Shuffle<T(==)>(a: Array<T>, draws: seq<int>): (r: Array<T>)
    requires Sized(a)
    requires |draws| == |a.values|
    ensures Valid(r)
    ensures multiset(r.values) == multiset(a.values)
  {
    var p := SortIndices(draws, false);
    ApplyPreservesMultiset(a.values, p);
    Reorder(a, p)
  }

  // ---------------------------------------------------------------------
  // Properties

  /** Appending and then popping restores the state. */
  lemma AppendThenPop<T>(a: Array<T>, v: T)
    requires Sized(a)
    ensures Pop(Append(a, v)) == a
  {
    var b := Append(a, v);
    assert b.values[..|b.values|-1] == a.values;
    assert b.elems[..|b.elems|-1] == a.elems;
  }

  /** Equal values keep their original relative order under `sort`, and
      the elements are exactly those the constructor would build. */
  lemma SortIsStable(a: Array<int>, reverse: bool)
    requires Sized(a)
    ensures var p := SortIndices(a.values, reverse);
      && IsPermutation(p, a.n)
      && Sort(a, reverse).values == Apply(a.values, p)
      && (forall k, l :: 0 <= k < l < a.n && a.values[p[k]] == a.values[p[l]] ==> p[k] < p[l])
    ensures Sort(a, reverse).elems == Init(Sort(a, reverse).values).elems
  {
    var p := SortIndices(a.values, reverse);
    StablySortedMeansOrdered(a.values, reverse, p);
  }

  /** Sorting values already in order keeps them and rebuilds the
      elements as the constructor would. */
  lemma SortOfOrdered(a: Array<int>, reverse: bool)
    requires Sized(a)
    requires Ordered(a.values, reverse)
    ensures Sort(a, reverse).values == a.values
    ensures Sort(a, reverse).elems == Init(a.values).elems
  {
    SortPrefixOfOrdered(a.values, reverse, a.n);
    assert Apply(a.values, Identity(a.n)) == a.values;
  }

  /** Every permutation is some shuffle. */
  lemma ShuffleReachesEveryPermutation<T>(a: Array<T>, q: seq<int>)
    requires Sized(a)
    requires IsPermutation(q, a.n)
    ensures exists draws :: |draws| == a.n && Shuffle(a, draws) == Reorder(a, q)
  {
    var draws := Inverse(q, a.n);
    forall k, l | 0 <= k < l < a.n ensures Precedes(draws, false, q[k], q[l]) {
      assert draws[q[k]] == k && draws[q[l]] == l;
    }
    SortIndicesUnique(draws, false, q);
    assert Shuffle(a, draws) == Reorder(a, q);
  }

  /** One public call on an integer array; `random.random()` is the
      stream `draw`, read once per position by `shuffle()`. */
  datatype Op =
    | InsertOp(v: int, index: int)
    | AppendOp(v: int)
    | PopOp
    | SwitchOp(i: int, j: int)
    | SortOp(reverse: bool)
    | ShuffleOp(draw: int -> int)

  /** The state after one call. */
  function Step(a: Array<int>, op: Op): (r: Array<int>)
    requires Sized(a)
    ensures Sized(r)
    ensures Valid(a) ==> Valid(r)
  {
    match op
    case InsertOp(v, index) => Insert(a, v, index)
    case AppendOp(v) => Append(a, v)
    case PopOp => Pop(a)
    case SwitchOp(i, j) => Switch(a, i, j)
    case SortOp(reverse) => Sort(a, reverse)
    case ShuffleOp(draw) => Shuffle(a, seq(|a.values|, i => draw(i)))
  }

  /** The state after a sequence of calls. */
  function Run(a: Array<int>, ops: seq<Op>): Array<int>
    requires Sized(a)
    decreases |ops|
  {
    if |ops| == 0 then a else Run(Step(a, ops[0]), ops[1..])
  }

  /** After any sequence of calls n == len(values) == len(elems), the
      labels are 0..n-1 and every element shows its slot's value. */
  lemma {:induction false} RunKeepsValid(a: Array<int>, ops: seq<Op>)
    requires Valid(a)
    ensures Valid(Run(a, ops))
    decreases |ops|
  {
    if |ops| > 0 {
      RunKeepsValid(Step(a, ops[0]), ops[1..]);
    }
  }

  /** `_reorder([0, 5, 6, 2, 3, 1, 4])` on [20, 35, 1, 8, 100, 2, 5]. */
  lemma ReorderExample()
    ensures Reorder(Init([20, 35, 1, 8, 100, 2, 5]), [0, 5, 6, 2, 3, 1, 4]).values == [20, 2, 5, 1, 8, 35, 100]
  {
  }
}
