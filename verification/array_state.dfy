/** The logical state shared by both animated array classes: the value
    list, the element count `n`, and one element wrapper per slot; and the
    two calls both classes implement identically, `append` and `switch`. */
module ArrayState {

  /** One slot of the array on screen: the value it was built with, the
      value its content text shows, and its index label. */
  datatype ArrayElement<T> = ArrayElement(value: T, text: T, index: int)

  /** A freshly built element: its text shows its value. */
  function NewElement<T>(value: T, index: int): ArrayElement<T>
  {
    ArrayElement(value, value, index)
  }

  /** The array: Python's `values` list, the counter `n`, and `elems`. */
  datatype Array<T> = Array(values: seq<T>, n: int, elems: seq<ArrayElement<T>>)

  /** The counter agrees with both lists. */
  predicate Sized<T>(a: Array<T>)
  {
    a.n == |a.values| && a.n == |a.elems|
  }

  /** Every element is labelled with its own position. */
  predicate Labelled<T>(es: seq<ArrayElement<T>>)
  {
    forall k :: 0 <= k < |es| ==> es[k].index == k
  }

  /** Element k shows values[k]. */
  predicate Shows<T(==)>(es: seq<ArrayElement<T>>, values: seq<T>)
  {
    |es| == |values| && forall k :: 0 <= k < |es| ==> es[k].text == values[k]
  }

  /** Logical list and picture agree: sizes, labels and texts. */
  predicate Valid<T(==)>(a: Array<T>)
  {
    Sized(a) && Labelled(a.elems) && Shows(a.elems, a.values)
  }

  /** The constructor: one element per value, labelled 0..n-1. */
  function Init<T(==)>(values: seq<T>): (a: Array<T>)
    ensures Valid(a) && a.values == values
    ensures forall k :: 0 <= k < |values| ==> a.elems[k].value == values[k]
  {
    Array(values, |values|, seq(|values|, i requires 0 <= i < |values| => NewElement(values[i], i)))
  }

  /** Adds delta to every index label, as the relabelling loops do with
      `str(int(label) + 1)` and `str(int(label) - 1)`. */
  function Shift<T>(es: seq<ArrayElement<T>>, delta: int): (r: seq<ArrayElement<T>>)
    ensures |r| == |es|
    ensures forall k :: 0 <= k < |es| ==> r[k] == es[k].(index := es[k].index + delta)
  {
    seq(|es|, k requires 0 <= k < |es| => es[k].(index := es[k].index + delta))
  }

  /** `append(value)`, the same in both array classes: the new element is
      labelled n-1 after the increment. */
  function Append<T(==)>(a: Array<T>, v: T): (r: Array<T>)
    requires Sized(a)
    ensures Sized(r) && r.n == a.n + 1
    ensures r.values == a.values + [v]
    ensures r.elems[..a.n] == a.elems
    ensures r.elems[a.n] == NewElement(v, r.n - 1)
    ensures Valid(a) ==> Valid(r)
  {
    var n := a.n + 1;
    Array(a.values + [v], n, a.elems + [NewElement(v, n - 1)])
  }

  /** `switch(i, j)`, the same in both array classes: exchanges two values
      and the two content texts; boxes, labels and the elements' own
      `value` fields stay in place. */
  function Switch<T(==)>(a: Array<T>, i: int, j: int): (r: Array<T>)
    requires Sized(a)
    ensures Sized(r)
    ensures !(0 <= i < a.n && 0 <= j < a.n && i != j) ==> r == a
    ensures 0 <= i < a.n && 0 <= j < a.n ==>
      && r.values == a.values[i := a.values[j]][j := a.values[i]]
      && r.elems[i].text == a.elems[j].text && r.elems[j].text == a.elems[i].text
    ensures forall k :: 0 <= k < a.n ==>
      && r.elems[k].index == a.elems[k].index
      && r.elems[k].value == a.elems[k].value
      && (k != i && k != j ==> r.elems[k] == a.elems[k])
    ensures Valid(a) ==> Valid(r)
  {
    if 0 <= i < a.n && 0 <= j < a.n && i != j then
      var ei, ej := a.elems[i], a.elems[j];
      Array(a.values[i := a.values[j]][j := a.values[i]], a.n,
            a.elems[i := ei.(text := ej.text)][j := ej.(text := ei.text)])
    else a
  }

  /** Switching the same two slots twice changes nothing. */
  lemma SwitchTwice<T>(a: Array<T>, i: int, j: int)
    requires Sized(a)
    ensures Switch(Switch(a, i, j), i, j) == a
  {
    if 0 <= i < a.n && 0 <= j < a.n && i != j {
      var b := Switch(Switch(a, i, j), i, j);
      assert b.values == a.values;
      assert b.elems == a.elems;
    }
  }
}
