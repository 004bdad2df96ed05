/** Index permutations, the way the containers use them: a list `p` of
    positions read as "slot k receives old entry p[k]". */
module Permutations {

  /** Python's normalisation of an index into a sequence of length n:
      a negative index counts from the end. */
  function Normalize(idx: int, n: int): int
  {
    if idx < 0 then idx + n else idx
  }

  /** Every entry of p is an index Python accepts for a list of length n. */
  predicate IndicesIn(p: seq<int>, n: int)
  {
    forall k :: 0 <= k < |p| ==> -n <= p[k] < n
  }

  /** No entry of s occurs twice. */
  predicate Distinct<T(==)>(s: seq<T>)
  {
    forall k, l :: 0 <= k < l < |s| ==> s[k] != s[l]
  }

  /** p lists every position of [0, n) exactly once. */
  predicate IsPermutation(p: seq<int>, n: int)
  {
    && |p| == n
    && (forall k :: 0 <= k < |p| ==> 0 <= p[k] < n)
    && Distinct(p)
    && (forall j :: 0 <= j < n ==> j in p)
  }

  /** The identity permutation [0, 1, ..., n-1]. */
  function Identity(n: nat): (p: seq<int>)
    ensures |p| == n
    ensures forall k :: 0 <= k < n ==> p[k] == k
  {
    seq(n, k => k)
  }

  /** The identity lists every position once. */
  lemma IdentityIsPermutation(n: nat)
    ensures IsPermutation(Identity(n), n)
  {
    var p := Identity(n);
    forall j | 0 <= j < n ensures j in p {
      assert p[j] == j;
    }
  }

  /** The identity on m + 1 positions extends the identity on m. */
  lemma IdentityGrows(m: nat)
    ensures Identity(m) + [m] == Identity(m + 1)
  {
  }

  /** The inverse of a permutation: r[q[k]] == k. */
  ghost function Inverse(q: seq<int>, n: int): (r: seq<int>)
    requires IsPermutation(q, n)
    ensures |r| == n
    ensures forall k :: 0 <= k < n ==> r[q[k]] == k
  {
    var r := seq(n, x requires 0 <= x < n => assert x in q; var k :| 0 <= k < n && q[k] == x; k);
    assert forall k :: 0 <= k < n ==> r[q[k]] == k by {
      forall k | 0 <= k < n ensures r[q[k]] == k {
        var k' := r[q[k]];
        assert 0 <= k' < n && q[k'] == q[k];
      }
    }
    r
  }

  /** `[s[i] for i in p]`, with Python's wrap-around for negative indices. */
  function Apply<T>(s: seq<T>, p: seq<int>): (r: seq<T>)
    requires IndicesIn(p, |s|)
    ensures |r| == |p|
    ensures forall k :: 0 <= k < |p| ==> r[k] == s[Normalize(p[k], |s|)]
  {
    seq(|p|, k requires 0 <= k < |p| => s[Normalize(p[k], |s|)])
  }

  /** Dropping the position that holds n-1 from a permutation of [0, n)
      leaves a permutation of [0, n-1). */
  lemma DropLargest(p: seq<int>, n: int, j: int)
    requires n > 0 && IsPermutation(p, n)
    requires 0 <= j < n && p[j] == n - 1
    ensures IsPermutation(p[..j] + p[j+1..], n - 1)
  {
    var q := p[..j] + p[j+1..];
    assert forall k :: 0 <= k < j ==> q[k] == p[k];
    assert forall k :: j <= k < n - 1 ==> q[k] == p[k+1];
    forall x | 0 <= x < n - 1
      ensures x in q
    {
      assert x in p;
      var k :| 0 <= k < n && p[k] == x;
      if k < j {
        assert q[k] == x;
      } else {
        assert k != j;
        assert q[k-1] == x;
      }
    }
  }

  /** Removing the slot that receives the last entry of s splits the
      reordering into a reordering of the shorter sequence. */
  lemma ApplySplit<T>(s: seq<T>, p: seq<int>, j: int)
    requires |s| > 0 && IsPermutation(p, |s|)
    requires 0 <= j < |s| && p[j] == |s| - 1
    requires IsPermutation(p[..j] + p[j+1..], |s| - 1)
    ensures Apply(s, p) == Apply(s[..|s|-1], p[..j] + p[j+1..])[..j] + [s[|s|-1]] + Apply(s[..|s|-1], p[..j] + p[j+1..])[j..]
  {
    var n := |s|;
    var q := p[..j] + p[j+1..];
    var a' := Apply(s[..n-1], q);
    var b := a'[..j] + [s[n-1]] + a'[j..];
    assert |b| == n;
    forall k | 0 <= k < n
      ensures Apply(s, p)[k] == b[k]
    {
      if k < j {
        assert q[k] == p[k];
      } else if k > j {
        assert q[k-1] == p[k];
      }
    }
  }

  /** Putting x into a sequence anywhere adds one copy of x to its multiset. */
  lemma MultisetAround<T>(a: seq<T>, j: int, x: T)
    requires 0 <= j <= |a|
    ensures multiset(a[..j] + [x] + a[j..]) == multiset(a) + multiset{x}
  {
    assert a == a[..j] + a[j..];
  }

  /** Reordering by a permutation keeps exactly the same entries. */
  lemma {:induction false} ApplyPreservesMultiset<T>(s: seq<T>, p: seq<int>)
    requires IsPermutation(p, |s|)
    ensures multiset(Apply(s, p)) == multiset(s)
  {
    var n := |s|;
    if n > 0 {
      assert n - 1 in p;
      var j :| 0 <= j < n && p[j] == n - 1;
      DropLargest(p, n, j);
      var q := p[..j] + p[j+1..];
      var s' := s[..n-1];
      ApplyPreservesMultiset(s', q);
      ApplySplit(s, p, j);
      var a' := Apply(s', q);
      MultisetAround(a', j, s[n-1]);
      MultisetOfSnoc(s);
    }
  }

  /** A non-empty sequence is its prefix plus its last entry. */
  lemma MultisetOfSnoc<T>(s: seq<T>)
    requires |s| > 0
    ensures multiset(s) == multiset(s[..|s|-1]) + multiset{s[|s|-1]}
  {
    assert s == s[..|s|-1] + [s[|s|-1]];
  }

  /** An order `before` on [0, n) that is irreflexive, transitive and total. */
  ghost predicate StrictTotal(n: int, before: (int, int) -> bool)
  {
    && (forall a :: 0 <= a < n ==> !before(a, a))
    && (forall a, b, c :: 0 <= a < n && 0 <= b < n && 0 <= c < n && before(a, b) && before(b, c) ==> before(a, c))
    && (forall a, b :: 0 <= a < n && 0 <= b < n && a != b ==> before(a, b) || before(b, a))
  }

  /** p lists its entries in increasing `before` order. */
  ghost predicate ListedInOrder(p: seq<int>, before: (int, int) -> bool)
  {
    forall k, l :: 0 <= k < l < |p| ==> before(p[k], p[l])
  }

  /** Two permutations of [0, n) that both list [0, n) in a strict total
      order agree on their first k entries. */
  lemma {:induction false} OrderedPermutationsAgree(p: seq<int>, q: seq<int>, n: int, before: (int, int) -> bool, k: int)
    requires IsPermutation(p, n) && IsPermutation(q, n)
    requires StrictTotal(n, before)
    requires ListedInOrder(p, before) && ListedInOrder(q, before)
    requires 0 <= k <= n
    ensures p[..k] == q[..k]
  {
    if k > 0 {
      OrderedPermutationsAgree(p, q, n, before, k - 1);
      var i := k - 1;
      // q[i] sits in p at a position m, and p[i] in q at a position m';
      // neither can lie before i, where the two lists already agree, so
      // unless p[i] == q[i] each would have to precede the other.
      assert q[i] in p && p[i] in q;
      var m :| 0 <= m < n && p[m] == q[i];
      var m' :| 0 <= m' < n && q[m'] == p[i];
      assert p[..k] == p[..i] + [p[i]] && q[..k] == q[..i] + [q[i]];
    }
  }

  /** A permutation is determined by the strict total order it lists. */
  lemma OrderedPermutationUnique(p: seq<int>, q: seq<int>, n: int, before: (int, int) -> bool)
    requires IsPermutation(p, n) && IsPermutation(q, n)
    requires StrictTotal(n, before)
    requires ListedInOrder(p, before) && ListedInOrder(q, before)
    ensures p == q
  {
    OrderedPermutationsAgree(p, q, n, before, n);
    assert p == p[..n] && q == q[..n];
  }
}
