/** The Graham-scan kernel (graham_scan.py): the orientation test, the
    choice of the lowest point and the hull-stack loop. Coordinates are
    exact reals. */
module GrahamScan {

  datatype Point = Point(x: real, y: real)

  const CounterClockwise: int := 1
  const Collinear: int := 0
  const Clockwise: int := -1

  /** Twice the signed area of the triangle p1 p2 p3: the cross product of
      p2 - p1 and p3 - p1, positive when the turn at p2 is to the left. */
  function Det(p1: Point, p2: Point, p3: Point): real
  {
    (p2.x - p1.x) * (p3.y - p1.y) - (p2.y - p1.y) * (p3.x - p1.x)
  }

  /** `orientation(p1, p2, p3)`: COUNTERCLOCKWISE, CLOCKWISE or COLLINEAR
      by the sign of the signed area. */
  function Orientation(p1: Point, p2: Point, p3: Point): (r: int)
    ensures r == CounterClockwise || r == Collinear || r == Clockwise
    ensures r == CounterClockwise <==> Det(p1, p2, p3) > 0.0
    ensures r == Clockwise <==> Det(p1, p2, p3) < 0.0
    ensures r == Collinear <==> Det(p1, p2, p3) == 0.0
  {
    var diff := (p3.y - p2.y) * (p2.x - p1.x) - (p2.y - p1.y) * (p3.x - p2.x);
    assert diff == Det(p1, p2, p3) by {
      assert (p3.y - p2.y) * (p2.x - p1.x) == (p3.y - p1.y) * (p2.x - p1.x) - (p2.y - p1.y) * (p2.x - p1.x);
      assert (p2.y - p1.y) * (p3.x - p2.x) == (p2.y - p1.y) * (p3.x - p1.x) - (p2.y - p1.y) * (p2.x - p1.x);
    }
    if diff > 0.0 then CounterClockwise else if diff < 0.0 then Clockwise else Collinear
  }

  /** Walking the triple backwards turns the other way. */
  lemma OrientationReverse(p1: Point, p2: Point, p3: Point)
    ensures Orientation(p3, p2, p1) == -Orientation(p1, p2, p3)
  {
    assert Det(p3, p2, p1) == -Det(p1, p2, p3);
  }

  /** Starting the triple at its second point keeps the turn. */
  lemma OrientationRotate(p1: Point, p2: Point, p3: Point)
    ensures Orientation(p2, p3, p1) == Orientation(p1, p2, p3)
  {
    assert Det(p2, p3, p1) == Det(p1, p2, p3);
  }

  /** A triple with a repeated point is collinear. */
  lemma OrientationDegenerate(p1: Point, p2: Point, p3: Point)
    requires p1 == p2 || p2 == p3 || p1 == p3
    ensures Orientation(p1, p2, p3) == Collinear
  {
  }

  /** The key `(y, x)` by which `min` picks the lowest point. */
  predicate LowerThan(p: Point, q: Point)
  {
    p.y < q.y || (p.y == q.y && p.x < q.x)
  }

  /** `min(range(len(points)), key=(y, x))`: the first position of the
      lowest point, leftmost among the lowest. */
  method LowestPoint(points: seq<Point>) returns (idx: int)
    requires |points| > 0
    ensures 0 <= idx < |points|
    ensures forall k :: 0 <= k < |points| ==> !LowerThan(points[k], points[idx])
    ensures forall k :: 0 <= k < idx ==> LowerThan(points[idx], points[k])
  {
    idx := 0;
    for k := 1 to |points|
      invariant 0 <= idx < k
      invariant forall t :: 0 <= t < k ==> !LowerThan(points[t], points[idx])
      invariant forall t :: 0 <= t < idx ==> LowerThan(points[idx], points[t])
    {
      if LowerThan(points[k], points[idx]) {
        idx := k;
      }
    }
  }

  /** Every three consecutive hull points make a strict left turn. */
  predicate LeftTurns(hull: seq<Point>)
  {
    forall k :: 0 <= k < |hull| - 2 ==> Orientation(hull[k], hull[k + 1], hull[k + 2]) == CounterClockwise
  }

  /** hull[k + 1] == points[picks[k]] with picks strictly increasing and
      never 0: past its first point, the hull is a subsequence of
      points[1..]. */
  predicate Picks(points: seq<Point>, hull: seq<Point>, picks: seq<int>)
  {
    && |picks| + 1 == |hull|
    && (forall k :: 0 <= k < |picks| ==> 1 <= picks[k] < |points| && hull[k + 1] == points[picks[k]])
    && (forall k, l :: 0 <= k < l < |picks| ==> picks[k] < picks[l])
  }

  /** The hull loop over the polar-sorted points: the hull starts as [p0];
      each point after the first pops the top while the last two hull
      points and it fail to turn counter-clockwise, and is then pushed.
      p0 is never popped, since a pop needs two hull points. */
  method HullScan(p0: Point, points: seq<Point>) returns (hull: seq<Point>)
    requires |points| > 2
    ensures |hull| >= 2 && hull[0] == p0
    ensures hull[|hull| - 1] == points[|points| - 1]
    ensures LeftTurns(hull)
    ensures exists picks :: Picks(points, hull, picks)
  {
    hull := [p0];
    ghost var picks := [];
    for i := 1 to |points|
      invariant |hull| >= 1 && hull[0] == p0
      invariant i > 1 ==> |hull| >= 2 && hull[|hull| - 1] == points[i - 1]
      invariant LeftTurns(hull)
      invariant Picks(points, hull, picks)
      invariant forall k :: 0 <= k < |picks| ==> picks[k] < i
    {
      while |hull| >= 2 && Orientation(hull[|hull| - 2], hull[|hull| - 1], points[i]) != CounterClockwise
        invariant |hull| >= 1 && hull[0] == p0
        invariant LeftTurns(hull)
        invariant Picks(points, hull, picks)
        invariant forall k :: 0 <= k < |picks| ==> picks[k] < i
        decreases |hull|
      {
        hull := hull[..|hull| - 1];
        picks := picks[..|picks| - 1];
      }
      hull := hull + [points[i]];
      picks := picks + [i];
    }
  }

  /** `graham(points)` without drawing: more than two points; `sorted` is
      the list after the polar sort, a rearrangement of the points. The
      hull starts at the lowest point and ends with the last sorted point,
      every turn along it is a strict left turn and every hull point is
      one of the input points. */
  method Graham(points: seq<Point>, sorted: seq<Point>) returns (hull: seq<Point>)
    requires |points| > 2
    requires multiset(sorted) == multiset(points)
    ensures |hull| >= 2
    ensures forall k :: 0 <= k < |points| ==> !LowerThan(points[k], hull[0])
    ensures hull[|hull| - 1] == sorted[|sorted| - 1]
    ensures LeftTurns(hull)
    ensures forall k :: 0 <= k < |hull| ==> hull[k] in points
  {
    var p0Idx := LowestPoint(points);
    var p0 := points[p0Idx];
    assert |sorted| == |points| by {
      assert |multiset(sorted)| == |multiset(points)|;
    }
    hull := HullScan(p0, sorted);
    ghost var picks :| Picks(sorted, hull, picks);
    forall k | 0 <= k < |hull| ensures hull[k] in points {
      if k > 0 {
        assert sorted[picks[k - 1]] in multiset(sorted);
      }
    }
  }
}
