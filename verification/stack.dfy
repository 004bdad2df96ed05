/** The animated stack (data_structures/stack.py): a values list, a count
    n and one unlabelled box per value. `push` and `pop` work on the top
    and hand back the animation that shows the change. */
module Stacks {
  import opened Wrappers

  /** A box drawn for one value. Stack boxes are built with label None. */
  datatype Element<T> = Element(value: T, indexLabel: Option<int>)

  datatype Stack<T> = Stack(values: seq<T>, n: int, elems: seq<Element<T>>)

  /** The animation a call returns: the pushed box fading in, the popped
      box fading out, or a pause when there was nothing to pop. */
  datatype Animation<T> = FadeIn(elem: Element<T>) | FadeOut(elem: Element<T>) | Wait

  /** The constructor's assertion that `values` is a list. */
  datatype StackError = ValuesNotAList

  /** n agrees with both lists. */
  predicate Sized<T>(s: Stack<T>)
  {
    s.n == |s.values| == |s.elems|
  }

  /** Sized, and box k shows values[k] and carries no label. */
  predicate Valid<T(==)>(s: Stack<T>)
  {
    && Sized(s)
    && forall k :: 0 <= k < s.n ==> s.elems[k] == Element(s.values[k], None)
  }

  /** `Stack(values)`: `values` defaults to None, which fails the
      assertion; a list gives one unlabelled box per value. */
  function Init<T(==)>(values: Option<seq<T>>): (r: Result<Stack<T>, StackError>)
    ensures values.None? <==> r.Err?
    ensures r.Ok? ==> Valid(r.value) && r.value.values == values.value
  {
    match values
    case None => Err(ValuesNotAList)
    case Some(vs) => Ok(Stack(vs, |vs|, seq(|vs|, k requires 0 <= k < |vs| => Element(vs[k], None))))
  }

  /** `push(v)`: v goes on top; its box fades in. */
  function Push<T(==)>(s: Stack<T>, v: T): (r: (Stack<T>, Animation<T>))
    requires Sized(s)
    ensures Sized(r.0) && r.0.n == s.n + 1
    ensures r.0.values[..s.n] == s.values && r.0.elems[..s.n] == s.elems
    ensures r.0.values[s.n] == v
    ensures r.1 == FadeIn(r.0.elems[s.n]) && r.1.elem == Element(v, None)
    ensures Valid(s) ==> Valid(r.0)
  {
    var e := Element(v, None);
    (Stack(s.values + [v], s.n + 1, s.elems + [e]), FadeIn(e))
  }

  /** `pop()`: on an empty stack nothing changes and the call pauses;
      otherwise the top value and box go and the box fades out. */
  function Pop<T(==)>(s: Stack<T>): (r: (Stack<T>, Animation<T>))
    requires Sized(s)
    ensures Sized(r.0)
    ensures s.n == 0 ==> r.0 == s && r.1 == Wait
    ensures s.n > 0 ==>
      && r.0.n == s.n - 1
      && s.values == r.0.values + [s.values[s.n - 1]]
      && s.elems == r.0.elems + [s.elems[s.n - 1]]
      && r.1 == FadeOut(s.elems[s.n - 1])
    ensures Valid(s) ==> Valid(r.0)
  {
    if s.n == 0 then (s, Wait)
    else
      var top := s.elems[|s.elems| - 1];
      (Stack(s.values[..|s.values| - 1], s.n - 1, s.elems[..|s.elems| - 1]), FadeOut(top))
  }

  // ---------------------------------------------------------------------
  // Properties

  /** Pushing and then popping restores the stack and fades out the box
      that was pushed. */
  lemma PushThenPop<T>(s: Stack<T>, v: T)
    requires Sized(s)
    ensures Pop(Push(s, v).0) == (s, FadeOut(Element(v, None)))
  {
    var t := Push(s, v).0;
    assert t.values[..|t.values| - 1] == s.values;
    assert t.elems[..|t.elems| - 1] == s.elems;
  }

  /** The stack after pushing vs in order. */
  function PushAll<T(==)>(s: Stack<T>, vs: seq<T>): (r: Stack<T>)
    requires Sized(s)
    ensures Sized(r) && r.n == s.n + |vs|
    ensures Valid(s) ==> Valid(r)
  {
    if |vs| == 0 then s else Push(PushAll(s, vs[..|vs| - 1]), vs[|vs| - 1]).0
  }

  /** The stack after k pops, and the values of the boxes that faded out,
      in the order they went. */
  function PopMany<T(==)>(s: Stack<T>, k: nat): (r: (Stack<T>, seq<T>))
    requires Sized(s)
    ensures Sized(r.0)
    ensures |r.1| <= k
    decreases k
  {
    if k == 0 then (s, [])
    else
      var (t, anim) := Pop(s);
      var (u, out) := PopMany(t, k - 1);
      (u, if anim.FadeOut? then [anim.elem.value] + out else out)
  }

  /** vs back to front. */
  function Reverse<T>(vs: seq<T>): (r: seq<T>)
    ensures |r| == |vs|
    ensures forall k :: 0 <= k < |vs| ==> r[k] == vs[|vs| - 1 - k]
  {
    if |vs| == 0 then [] else [vs[|vs| - 1]] + Reverse(vs[..|vs| - 1])
  }

  /** Last in, first out: popping as many times as values were pushed
      gives the stack back and hands the values out in reverse order. */
  lemma {:induction false} PushAllThenPopAll<T>(s: Stack<T>, vs: seq<T>)
    requires Sized(s)
    ensures PopMany(PushAll(s, vs), |vs|) == (s, Reverse(vs))
  {
    if |vs| > 0 {
      var init := vs[..|vs| - 1];
      PushThenPop(PushAll(s, init), vs[|vs| - 1]);
      PushAllThenPopAll(s, init);
    }
  }

  /** The stack scene: on an empty stack push 45, pop, push 88, pop. The
      stack ends empty, both boxes fade out, and pushing 45 and 88 before
      one pop leaves only 45. */
  lemma TestScene()
    ensures Init<int>(Some([])).Ok?
    ensures var s := Init<int>(Some([])).value;
      && Pop(Push(Pop(Push(s, 45).0).0, 88).0) == (s, FadeOut(Element(88, None)))
      && Pop(Push(s, 45).0).1 == FadeOut(Element(45, None))
      && Pop(Push(Push(s, 45).0, 88).0).0.values == [45]
  {
    var s: Stack<int> := Init<int>(Some([])).value;
    PushThenPop(s, 45);
    PushThenPop(s, 88);
    PushThenPop(Push(s, 45).0, 88);
  }
}
