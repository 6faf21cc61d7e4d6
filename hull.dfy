/** Graham scan. The source first sorts the points by y (a stable sort, so
    the pivot is the first point of least y) and then by the polar angle
    atan2 around the pivot; the angle sort is floating point and is replaced
    here by the property it provides, `AngleSorted`. */
module Hull {
  import opened Geometry

  /** The index of the first point with the least y: what the stable sort
      by y puts in front. */
  function PivotIndex(points: seq<Point>): (k: nat)
    requires |points| > 0
    ensures k < |points|
    ensures forall j :: 0 <= j < |points| ==> points[k].y <= points[j].y
    ensures forall j :: 0 <= j < k ==> points[j].y > points[k].y
  {
    if |points| == 1 then 0
    else
      var k := PivotIndex(points[..|points| - 1]);
      if points[|points| - 1].y < points[k].y then |points| - 1 else k
  }

  /** Sorted by angle around the first point: every later point is turned
      counter-clockwise (or collinear) from every earlier one, seen from
      s[0]. */
  predicate AngleSorted(s: seq<Point>) {
    forall i, j :: 0 < j < i < |s| ==> NotClockwise(s[0], s[j], s[i])
  }

  /** a, b, c turn counter-clockwise or are collinear. */
  predicate NotClockwise(a: Point, b: Point, c: Point) {
    Rotate(a, b, c) >= 0
  }

  /** Strictly increasing indices into a sequence of length n. */
  predicate IncreasingIndices(indexes: seq<nat>, n: nat) {
    (forall k :: 0 <= k < |indexes| ==> indexes[k] < n)
    && (forall k, l :: 0 <= k < l < |indexes| ==> indexes[k] < indexes[l])
  }

  /** Every three consecutive kept points turn counter-clockwise or are
      collinear. */
  predicate NoRightTurn(s: seq<Point>, indexes: seq<nat>)
    requires forall k :: 0 <= k < |indexes| ==> indexes[k] < |s|
  {
    forall k :: 0 <= k < |indexes| - 2 ==>
      NotClockwise(s[indexes[k]], s[indexes[k + 1]], s[indexes[k + 2]])
  }

  /** All entries are indices into a sequence of length n. */
  predicate IndicesBelow(stack: seq<nat>, n: nat) {
    forall k :: 0 <= k < |stack| ==> stack[k] < n
  }

  /** The inner loop of the scan: the top index is popped while the top two
      points and point i make a clockwise turn (Rotate < 0). Popping stops
      at two entries; with an angle-sorted input whose stack starts at 0 the
      first two entries never make that turn, so the stop is never reached
      (`PopStep`). */
  function Pop(s: seq<Point>, stack: seq<nat>, i: nat): (r: seq<nat>)
    requires i < |s| && IndicesBelow(stack, |s|)
    ensures r <= stack
    ensures |stack| >= 2 ==> |r| >= 2
    decreases |stack|
  {
    if |stack| > 2 && !NotClockwise(s[stack[|stack| - 2]], s[stack[|stack| - 1]], s[i]) then
      Pop(s, stack[..|stack| - 1], i)
    else
      stack
  }

  /** The index stack once the scan has handled the points before i: each
      point from 2 on pops the stack and is then pushed. */
  function ScanTo(s: seq<Point>, i: nat): (r: seq<nat>)
    requires 2 <= i <= |s|
    ensures IndicesBelow(r, i)
    ensures 2 <= |r|
  {
    if i == 2 then [0, 1] else Pop(s, ScanTo(s, i - 1), i - 1) + [i - 1]
  }

  /** The inner loop of the scan: pops the stack while its top two points
      and point i turn clockwise. The stack keeps its shape, and its top two
      points no longer turn clockwise with point i. */
  method PopClockwise(s: seq<Point>, stack: seq<nat>, i: nat) returns (popped: seq<nat>)
    requires i < |s| && AngleSorted(s)
    requires |stack| >= 2 && stack[0] == 0
    requires IncreasingIndices(stack, i) && NoRightTurn(s, stack)
    ensures popped == Pop(s, stack, i)
    ensures 2 <= |popped| && popped[0] == 0
    ensures IncreasingIndices(popped, i) && NoRightTurn(s, popped)
    ensures NotClockwise(s[popped[|popped| - 2]], s[popped[|popped| - 1]], s[i])
  {
    popped := stack;
    while Rotate(s[popped[|popped| - 2]], s[popped[|popped| - 1]], s[i]) < 0
      invariant 2 <= |popped| <= |stack|
      invariant popped[0] == 0
      invariant IncreasingIndices(popped, i) && NoRightTurn(s, popped)
      invariant Pop(s, popped, i) == Pop(s, stack, i)
      decreases |popped|
    {
      PopStep(s, popped, i);
      PopKeepsShape(s, popped, i);
      popped := popped[..|popped| - 1];
    }
    PopStep(s, popped, i);
  }

  /** The index stack of the scan. Points are pushed in order; the top is
      popped while it makes a clockwise turn (Rotate < 0) with the new
      point, so collinear points stay. The result is the scan of the whole
      sequence; it keeps the first and the last point, selects points in
      increasing order, and turns only counter-clockwise. */
  method Scan(s: seq<Point>) returns (indexes: seq<nat>)
    requires |s| >= 2
    requires AngleSorted(s)
    ensures indexes == ScanTo(s, |s|)
    ensures 2 <= |indexes| <= |s|
    ensures indexes[0] == 0 && indexes[|indexes| - 1] == |s| - 1
    ensures IncreasingIndices(indexes, |s|)
    ensures NoRightTurn(s, indexes)
  {
    indexes := [0, 1];
    for i: nat := 2 to |s|
      invariant 2 <= |indexes| <= i
      invariant indexes[0] == 0 && indexes[|indexes| - 1] == i - 1
      invariant IncreasingIndices(indexes, i)
      invariant NoRightTurn(s, indexes)
      invariant indexes == ScanTo(s, i)
    {
      indexes := ScanPoint(s, indexes, i);
    }
  }

  /** The body of the scan's for loop: pops for point i, then pushes i. */
  method ScanPoint(s: seq<Point>, stack: seq<nat>, i: nat) returns (next: seq<nat>)
    requires i < |s| && AngleSorted(s)
    requires 2 <= |stack| <= i && stack[0] == 0
    requires IncreasingIndices(stack, i) && NoRightTurn(s, stack)
    ensures next == Pop(s, stack, i) + [i]
    ensures 2 <= |next| <= i + 1 && next[0] == 0 && next[|next| - 1] == i
    ensures IncreasingIndices(next, i + 1) && NoRightTurn(s, next)
  {
    var popped := PopClockwise(s, stack, i);
    PushKeepsShape(s, popped, i);
    next := popped + [i];
  }

  /** One pop of the scan: on an angle-sorted input with a stack of
      increasing indices starting at 0, `Pop` pops exactly when the top two
      points and point i turn clockwise, with no stop at two entries. */
  lemma PopStep(s: seq<Point>, stack: seq<nat>, i: nat)
    requires i < |s| && AngleSorted(s)
    requires |stack| >= 2 && stack[0] == 0 && IncreasingIndices(stack, i)
    ensures !NotClockwise(s[stack[|stack| - 2]], s[stack[|stack| - 1]], s[i]) ==>
      |stack| > 2 && Pop(s, stack, i) == Pop(s, stack[..|stack| - 1], i)
    ensures NotClockwise(s[stack[|stack| - 2]], s[stack[|stack| - 1]], s[i]) ==>
      Pop(s, stack, i) == stack
  {
    if |stack| == 2 {
      assert 0 < stack[1] < i;
      assert NotClockwise(s[0], s[stack[1]], s[i]);
    }
  }

  lemma PopKeepsShape(s: seq<Point>, indexes: seq<nat>, n: nat)
    requires n <= |s| && |indexes| > 0
    requires IncreasingIndices(indexes, n) && NoRightTurn(s, indexes)
    ensures IncreasingIndices(indexes[..|indexes| - 1], n)
    ensures NoRightTurn(s, indexes[..|indexes| - 1])
  {
    var t := indexes[..|indexes| - 1];
    forall k | 0 <= k < |t| - 2
      ensures NotClockwise(s[t[k]], s[t[k + 1]], s[t[k + 2]])
    {
      assert t[k] == indexes[k] && t[k + 1] == indexes[k + 1] && t[k + 2] == indexes[k + 2];
    }
  }

  lemma PushKeepsShape(s: seq<Point>, indexes: seq<nat>, i: nat)
    requires i < |s| && |indexes| >= 2
    requires IncreasingIndices(indexes, i) && NoRightTurn(s, indexes)
    requires NotClockwise(s[indexes[|indexes| - 2]], s[indexes[|indexes| - 1]], s[i])
    ensures IncreasingIndices(indexes + [i], i + 1)
    ensures NoRightTurn(s, indexes + [i])
  {
    var t := indexes + [i];
    forall k | 0 <= k < |t| - 2
      ensures NotClockwise(s[t[k]], s[t[k + 1]], s[t[k + 2]])
    {
      if k < |indexes| - 2 {
        assert t[k] == indexes[k] && t[k + 1] == indexes[k + 1] && t[k + 2] == indexes[k + 2];
      } else {
        assert t[k] == indexes[|indexes| - 2] && t[k + 1] == indexes[|indexes| - 1] && t[k + 2] == i;
      }
    }
  }

  /** Builds the hull of `points` from the same points sorted by angle
      around the pivot. The hull is the subsequence of the sorted points
      that the scan keeps: it starts at the pivot (the first point of least
      y), ends at the last point of the angle order, and never turns
      clockwise. */
  method Create(points: seq<Point>, sorted: seq<Point>) returns (hull: seq<Point>)
    requires |points| >= 2
    requires |sorted| == |points| && multiset(sorted) == multiset(points)
    requires sorted[0] == points[PivotIndex(points)]
    requires AngleSorted(sorted)
    ensures var kept := ScanTo(sorted, |sorted|);
      |hull| == |kept| && forall k :: 0 <= k < |hull| ==> hull[k] == sorted[kept[k]]
    ensures exists kept ::
      && IncreasingIndices(kept, |sorted|) && |kept| == |hull|
      && forall k :: 0 <= k < |hull| ==> hull[k] == sorted[kept[k]]
    ensures 2 <= |hull| <= |points|
    ensures hull[0] == points[PivotIndex(points)]
    ensures hull[|hull| - 1] == sorted[|sorted| - 1]
    ensures forall k :: 0 <= k < |hull| ==> hull[k] in points
    ensures forall k :: 0 <= k < |hull| - 2 ==> Rotate(hull[k], hull[k + 1], hull[k + 2]) >= 0
  {
    var indexes := Scan(sorted);
    hull := Collect(sorted, indexes);
    SelectionKeepsShape(points, sorted, indexes, hull);
    assert IncreasingIndices(indexes, |sorted|) && |indexes| == |hull|;
  }

  /** The points at the kept indices, in stack order. */
  method Collect(sorted: seq<Point>, indexes: seq<nat>) returns (hull: seq<Point>)
    requires IndicesBelow(indexes, |sorted|)
    ensures |hull| == |indexes|
    ensures forall k :: 0 <= k < |hull| ==> hull[k] == sorted[indexes[k]]
  {
    hull := [];
    for k := 0 to |indexes|
      invariant |hull| == k
      invariant forall l :: 0 <= l < k ==> hull[l] == sorted[indexes[l]]
    {
      hull := hull + [sorted[indexes[k]]];
    }
  }

  /** The points selected by increasing indices are points of the input and
      keep the indices' turns. */
  lemma SelectionKeepsShape(points: seq<Point>, sorted: seq<Point>, indexes: seq<nat>, hull: seq<Point>)
    requires multiset(sorted) == multiset(points)
    requires IncreasingIndices(indexes, |sorted|) && NoRightTurn(sorted, indexes)
    requires |hull| == |indexes| && forall k :: 0 <= k < |hull| ==> hull[k] == sorted[indexes[k]]
    ensures forall k :: 0 <= k < |hull| ==> hull[k] in points
    ensures forall k :: 0 <= k < |hull| - 2 ==> Rotate(hull[k], hull[k + 1], hull[k + 2]) >= 0
  {
    forall k | 0 <= k < |hull|
      ensures hull[k] in points
    {
      assert sorted[indexes[k]] in multiset(sorted);
    }
    forall k | 0 <= k < |hull| - 2
      ensures Rotate(hull[k], hull[k + 1], hull[k + 2]) >= 0
    {
      assert NotClockwise(sorted[indexes[k]], sorted[indexes[k + 1]], sorted[indexes[k + 2]]);
    }
  }

  /** The corners of a square with its centre, sorted by y and then by
      angle around (0, 0): the centre (2, 2) comes third, level in angle
      with (4, 4). */
  function Square(): seq<Point> {
    [Point(0, 0), Point(4, 0), Point(2, 2), Point(4, 4), Point(0, 4)]
  }

  lemma SquareIsAngleSorted()
    ensures AngleSorted(Square())
  {
    var square := Square();
    forall i, j | 0 < j < i < |square|
      ensures NotClockwise(square[0], square[j], square[i])
    {
    }
  }

  /** The scan drops the centre: the hull is the four corners. */
  lemma SquareHull()
    ensures ScanTo(Square(), 5) == [0, 1, 3, 4]
  {
    var square := Square();
    assert Pop(square, [0, 1], 2) == [0, 1];
    assert ScanTo(square, 3) == [0, 1, 2];
    assert !NotClockwise(square[1], square[2], square[3]);
    assert Pop(square, [0, 1, 2], 3) == Pop(square, [0, 1], 3) == [0, 1];
    assert ScanTo(square, 4) == [0, 1, 3];
    assert NotClockwise(square[1], square[3], square[4]);
    assert Pop(square, [0, 1, 3], 4) == [0, 1, 3];
  }
}
