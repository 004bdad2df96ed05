/** The permutation both array classes compute with
    `sorted(range(n), key=..., reverse=...)`: Python's sort is stable, and
    with `reverse=True` it still keeps equal keys in their original order. */
module StableSort {
  import opened Permutations

  /** Index a comes before index b in the stable sort of `keys`: its key is
      strictly earlier in the requested direction, or the keys tie and a is
      the earlier original position. */
  predicate Precedes(keys: seq<int>, reverse: bool, a: int, b: int)
    requires 0 <= a < |keys| && 0 <= b < |keys|
  {
    if keys[a] == keys[b] then a < b
    else if reverse then keys[a] > keys[b]
    else keys[a] < keys[b]
  }

  /** Every earlier entry of p precedes every later one. */
  predicate StablySorted(keys: seq<int>, reverse: bool, p: seq<int>)
    requires forall k :: 0 <= k < |p| ==> 0 <= p[k] < |keys|
  {
    forall k, l :: 0 <= k < l < |p| ==> Precedes(keys, reverse, p[k], p[l])
  }

  /** `keys` is already in the requested order. */
  predicate Ordered(keys: seq<int>, reverse: bool)
  {
    forall a, b :: 0 <= a < b < |keys| ==> if reverse then keys[a] >= keys[b] else keys[a] <= keys[b]
  }

  /** One insertion step: m goes before the first entry it precedes. */
  function InsertIndex(keys: seq<int>, reverse: bool, s: seq<int>, m: int): (r: seq<int>)
    requires 0 <= m < |keys|
    requires forall k :: 0 <= k < |s| ==> 0 <= s[k] < |keys|
    ensures |r| == |s| + 1
    ensures forall x :: x in r <==> x in s || x == m
  {
    if |s| == 0 then [m]
    else if Precedes(keys, reverse, m, s[0]) then [m] + s
    else [s[0]] + InsertIndex(keys, reverse, s[1..], m)
  }

  /** Inserting a new index keeps the entries pairwise distinct. */
  lemma {:induction false} InsertIndexDistinct(keys: seq<int>, reverse: bool, s: seq<int>, m: int)
    requires 0 <= m < |keys|
    requires forall k :: 0 <= k < |s| ==> 0 <= s[k] < |keys|
    requires m !in s
    requires Distinct(s)
    ensures Distinct(InsertIndex(keys, reverse, s, m))
  {
    if |s| > 0 && !Precedes(keys, reverse, m, s[0]) {
      var s' := s[1..];
      assert forall k :: 0 <= k < |s'| ==> s'[k] == s[k+1];
      InsertIndexDistinct(keys, reverse, s', m);
      var t := InsertIndex(keys, reverse, s', m);
      var r := [s[0]] + t;
      assert InsertIndex(keys, reverse, s, m) == r;
      assert s[0] in s && s[0] !in s';
      forall k, l | 0 <= k < l < |r| ensures r[k] != r[l] {
        assert r[l] == t[l-1] && t[l-1] in t;
        if k > 0 {
          assert r[k] == t[k-1];
        }
      }
    }
  }

  /** Inserting a new index into a stably sorted list keeps it stably sorted. */
  lemma {:induction false} InsertIndexSorted(keys: seq<int>, reverse: bool, s: seq<int>, m: int)
    requires 0 <= m < |keys|
    requires forall k :: 0 <= k < |s| ==> 0 <= s[k] < |keys|
    requires m !in s
    requires StablySorted(keys, reverse, s)
    ensures var r := InsertIndex(keys, reverse, s, m);
      forall k :: 0 <= k < |r| ==> 0 <= r[k] < |keys|
    ensures StablySorted(keys, reverse, InsertIndex(keys, reverse, s, m))
  {
    var r := InsertIndex(keys, reverse, s, m);
    assert forall k :: 0 <= k < |r| ==> r[k] in r;
    if |s| == 0 {
    } else if Precedes(keys, reverse, m, s[0]) {
      forall x | x in s ensures Precedes(keys, reverse, m, x) {
        var k :| 0 <= k < |s| && s[k] == x;
        if k > 0 { PrecedesTransitive(keys, reverse, m, s[0], s[k]); }
      }
      ConsSorted(keys, reverse, m, s);
      assert r == [m] + s;
    } else {
      var s' := s[1..];
      assert forall k :: 0 <= k < |s'| ==> s'[k] == s[k+1];
      InsertIndexSorted(keys, reverse, s', m);
      HeadPrecedesInserted(keys, reverse, s, m);
      var t := InsertIndex(keys, reverse, s', m);
      assert forall k :: 0 <= k < |t| ==> t[k] in t;
      ConsSorted(keys, reverse, s[0], t);
      assert r == [s[0]] + t;
    }
  }

  /** A head that precedes every entry of a stably sorted list extends it. */
  lemma ConsSorted(keys: seq<int>, reverse: bool, h: int, t: seq<int>)
    requires 0 <= h < |keys|
    requires forall k :: 0 <= k < |t| ==> 0 <= t[k] < |keys|
    requires forall x :: x in t ==> Precedes(keys, reverse, h, x)
    requires StablySorted(keys, reverse, t)
    ensures forall k :: 0 <= k < |[h] + t| ==> 0 <= ([h] + t)[k] < |keys|
    ensures StablySorted(keys, reverse, [h] + t)
  {
    var r := [h] + t;
    forall k, l | 0 <= k < l < |r| ensures Precedes(keys, reverse, r[k], r[l]) {
      assert r[l] == t[l-1] && t[l-1] in t;
      if k > 0 { assert r[k] == t[k-1]; }
    }
  }

  /** When m does not go first, the old head precedes everything inserted
      after it. */
  lemma HeadPrecedesInserted(keys: seq<int>, reverse: bool, s: seq<int>, m: int)
    requires 0 <= m < |keys|
    requires forall k :: 0 <= k < |s| ==> 0 <= s[k] < |keys|
    requires |s| > 0 && m != s[0] && !Precedes(keys, reverse, m, s[0])
    requires StablySorted(keys, reverse, s)
    ensures forall x :: x in InsertIndex(keys, reverse, s[1..], m) ==>
      0 <= x < |keys| && Precedes(keys, reverse, s[0], x)
  {
    var s' := s[1..];
    assert forall k :: 0 <= k < |s'| ==> s'[k] == s[k+1];
    forall x | x in InsertIndex(keys, reverse, s', m)
      ensures 0 <= x < |keys| && Precedes(keys, reverse, s[0], x)
    {
      if x != m {
        var j :| 0 <= j < |s'| && s'[j] == x;
        assert s[j+1] == x;
      }
    }
  }

  /** Precedes is transitive. */
  lemma PrecedesTransitive(keys: seq<int>, reverse: bool, a: int, b: int, c: int)
    requires 0 <= a < |keys| && 0 <= b < |keys| && 0 <= c < |keys|
    requires Precedes(keys, reverse, a, b) && Precedes(keys, reverse, b, c)
    ensures Precedes(keys, reverse, a, c)
  {
  }

  /** The stable sort of the first m indices, built by insertion. */
  function SortPrefix(keys: seq<int>, reverse: bool, m: nat): (r: seq<int>)
    requires m <= |keys|
    ensures IsPermutation(r, m)
    ensures StablySorted(keys, reverse, r)
  {
    if m == 0 then []
    else
      var s := SortPrefix(keys, reverse, m - 1);
      var r := InsertIndex(keys, reverse, s, m - 1);
      InsertIndexPermutation(keys, reverse, s, m - 1);
      InsertIndexSorted(keys, reverse, s, m - 1);
      r
  }

  /** Inserting the next index into a permutation of [0, m) gives a
      permutation of [0, m + 1). */
  lemma InsertIndexPermutation(keys: seq<int>, reverse: bool, s: seq<int>, m: int)
    requires 0 <= m < |keys|
    requires IsPermutation(s, m)
    ensures IsPermutation(InsertIndex(keys, reverse, s, m), m + 1)
  {
    var r := InsertIndex(keys, reverse, s, m);
    assert m !in s;
    InsertIndexDistinct(keys, reverse, s, m);
    assert forall k :: 0 <= k < |r| ==> r[k] in r;
    forall j | 0 <= j < m + 1 ensures j in r {
      if j < m { assert j in s; }
    }
  }

  /** `sorted(range(len(keys)), key=lambda i: keys[i], reverse=reverse)`. */
  function SortIndices(keys: seq<int>, reverse: bool): (p: seq<int>)
    ensures IsPermutation(p, |keys|)
    ensures StablySorted(keys, reverse, p)
  {
    SortPrefix(keys, reverse, |keys|)
  }

  /** The entries of a stably sorted index list, read through it, are in
      order, and equal entries keep their original relative order. */
  lemma StablySortedMeansOrdered(keys: seq<int>, reverse: bool, p: seq<int>)
    requires IsPermutation(p, |keys|)
    requires StablySorted(keys, reverse, p)
    ensures Ordered(Apply(keys, p), reverse)
    ensures forall k, l :: 0 <= k < l < |p| && keys[p[k]] == keys[p[l]] ==> p[k] < p[l]
  {
    var v := Apply(keys, p);
    forall a, b | 0 <= a < b < |v|
      ensures if reverse then v[a] >= v[b] else v[a] <= v[b]
    {
      assert Precedes(keys, reverse, p[a], p[b]);
    }
  }

  /** Inserting an index that no entry follows appends it. */
  lemma {:induction false} InsertLast(keys: seq<int>, reverse: bool, s: seq<int>, m: int)
    requires 0 <= m < |keys|
    requires forall k :: 0 <= k < |s| ==> 0 <= s[k] < |keys|
    requires m !in s
    requires forall k :: 0 <= k < |s| ==> !Precedes(keys, reverse, m, s[k])
    ensures InsertIndex(keys, reverse, s, m) == s + [m]
  {
    if |s| > 0 {
      InsertLast(keys, reverse, s[1..], m);
      assert [s[0]] + (s[1..] + [m]) == s + [m];
    }
  }

  /** Sorting keys that are already in order yields the identity permutation. */
  lemma {:induction false} SortPrefixOfOrdered(keys: seq<int>, reverse: bool, m: nat)
    requires m <= |keys|
    requires Ordered(keys, reverse)
    ensures SortPrefix(keys, reverse, m) == Identity(m)
  {
    if m > 0 {
      SortPrefixOfOrdered(keys, reverse, m - 1);
      var s := Identity(m - 1);
      NothingFollowsLast(keys, reverse, m - 1);
      InsertLast(keys, reverse, s, m - 1);
      IdentityGrows(m - 1);
    }
  }

  /** In keys that are already in order, index i precedes no earlier index. */
  lemma NothingFollowsLast(keys: seq<int>, reverse: bool, i: int)
    requires 0 <= i < |keys|
    requires Ordered(keys, reverse)
    ensures var s := Identity(i);
      && (forall k :: 0 <= k < |s| ==> 0 <= s[k] < |keys|)
      && i !in s
      && (forall k :: 0 <= k < |s| ==> !Precedes(keys, reverse, i, s[k]))
  {
    var s := Identity(i);
    forall k | 0 <= k < |s|
      ensures !Precedes(keys, reverse, i, s[k])
    {
      assert s[k] == k < i;
      assert if reverse then keys[k] >= keys[i] else keys[k] <= keys[i];
    }
  }

  /** The order Precedes as a relation on positions. */
  ghost function Before(keys: seq<int>, reverse: bool): (int, int) -> bool
  {
    (a, b) => 0 <= a < |keys| && 0 <= b < |keys| && Precedes(keys, reverse, a, b)
  }

  /** Precedes is a strict total order on the positions of keys. */
  lemma PrecedesStrictTotal(keys: seq<int>, reverse: bool)
    ensures StrictTotal(|keys|, Before(keys, reverse))
  {
  }

  /** The stable sort is the only permutation listing the positions in
      Precedes order. */
  lemma SortIndicesUnique(keys: seq<int>, reverse: bool, q: seq<int>)
    requires IsPermutation(q, |keys|)
    requires StablySorted(keys, reverse, q)
    ensures SortIndices(keys, reverse) == q
  {
    var p := SortIndices(keys, reverse);
    var before := Before(keys, reverse);
    PrecedesStrictTotal(keys, reverse);
    assert ListedInOrder(p, before);
    assert ListedInOrder(q, before);
    OrderedPermutationUnique(p, q, |keys|, before);
  }
}
