/** Polygon edges and the half-open ray-crossing containment test. The
    coordinate frame is the screen's: y grows downwards, so the `up`
    endpoint of an edge is the one with the smaller y. */
module Polygons {
  import opened Geometry

  datatype Direction = Right | Left

  /** A polygon side normalised so that `up.y <= down.y`. */
  datatype Edge = Edge(up: Point, down: Point, direction: Direction)

  /** Builds the edge joining p1 and p2: the endpoint with the smaller y is
      `up` (p1 on a tie), and the edge leans LEFT exactly when `up` lies to
      the right of `down`. */
  function MakeEdge(p1: Point, p2: Point): (e: Edge)
    ensures e.up.y <= e.down.y
    ensures (e.up == p1 && e.down == p2) || (e.up == p2 && e.down == p1)
    ensures p1.y == p2.y ==> e.up == p1 && e.down == p2
    ensures e.direction == Left <==> e.up.x > e.down.x
  {
    var (up, down) := if p1.y > p2.y then (p2, p1) else (p1, p2);
    Edge(up, down, if up.x > down.x then Left else Right)
  }

  predicate IsHorizontal(e: Edge) {
    e.up.y == e.down.y
  }

  /** The source's "q is to the right of the edge" test, a cross product
      taken at `down`. */
  predicate IsRight(e: Edge, q: Point) {
    (e.up.x - e.down.x) * (q.y - e.down.y) - (e.up.y - e.down.y) * (q.x - e.down.x) > 0
  }

  /** IsRight is the orientation test: down, up, q turn with positive
      cross product. */
  lemma IsRightIsRotate(e: Edge, q: Point)
    ensures IsRight(e, q) <==> Rotate(e.down, e.up, q) > 0
  {
  }

  /** The edge from vertex i to the next vertex, wrapping from the last to the
      first. */
  function EdgeAt(points: seq<Point>, i: int): Edge
    requires 0 <= i < |points|
  {
    MakeEdge(points[i], points[(i + 1) % |points|])
  }

  /** Edge i joins vertex i to vertex i + 1, and the last edge joins the
      last vertex back to the first. */
  lemma EdgeAtJoins(points: seq<Point>, i: int)
    requires 0 <= i < |points|
    ensures multiset{EdgeAt(points, i).up, EdgeAt(points, i).down} == multiset{points[i], points[(i + 1) % |points|]}
    ensures i == |points| - 1 ==> multiset{EdgeAt(points, i).up, EdgeAt(points, i).down} == multiset{points[i], points[0]}
  {
  }

  /** The closed ring of edges of a polygon: one edge per vertex, edge i
      being EdgeAt(points, i). */
  method Edges(points: seq<Point>) returns (edges: seq<Edge>)
    ensures |edges| == |points|
    ensures forall i :: 0 <= i < |edges| ==> edges[i] == EdgeAt(points, i)
  {
    edges := [];
    var i := 0;
    while i < |points|
      invariant 0 <= i <= |points|
      invariant |edges| == i
      invariant forall k :: 0 <= k < i ==> edges[k] == EdgeAt(points, k)
    {
      edges := edges + [MakeEdge(points[i], points[(i + 1) % |points|])];
      i := i + 1;
    }
  }

  /** How much one edge adds to the crossing counter of the containment
      test for the query point q. */
  function CrossingsOf(e: Edge, q: Point): (n: int)
    ensures 0 <= n <= 1
    ensures IsHorizontal(e) || q.y == e.down.y ==> n == 0
    ensures n == 1 ==> e.up.y <= q.y < e.down.y
  {
    if IsHorizontal(e) || q.y == e.down.y then 0
    else if q.y < e.down.y && q.y >= e.up.y && IsRight(e, q) then
      (if e.direction == Left && e.down.x < q.x then 1 else 0)
      + (if e.direction == Right && e.up.x < q.x then 1 else 0)
    else 0
  }

  /** The number of crossings contributed by the first k edges of the ring. */
  function CrossingCount(points: seq<Point>, q: Point, k: nat): int
    requires k <= |points|
  {
    if k == 0 then 0 else CrossingCount(points, q, k - 1) + CrossingsOf(EdgeAt(points, k - 1), q)
  }

  /** Every edge adds at most one crossing, so the count is between 0 and the
      number of edges. */
  lemma {:induction false} CrossingCountBounds(points: seq<Point>, q: Point, k: nat)
    requires k <= |points|
    ensures 0 <= CrossingCount(points, q, k) <= k
  {
    if k > 0 {
      CrossingCountBounds(points, q, k - 1);
    }
  }

  /** Parity test: q is inside exactly when the ring's crossing count is odd. */
  method Contains(points: seq<Point>, q: Point) returns (inside: bool)
    ensures inside <==> CrossingCount(points, q, |points|) % 2 == 1
  {
    var intersections := 0;
    var edges := Edges(points);
    var i := 0;
    while i < |edges|
      invariant 0 <= i <= |edges|
      invariant intersections == CrossingCount(points, q, i)
    {
      var edge := edges[i];
      assert edge == EdgeAt(points, i);
      ghost var before := intersections;
      if !(IsHorizontal(edge) || q.y == edge.down.y) {
        var right := IsRight(edge, q);
        if q.y < edge.down.y && q.y >= edge.up.y && right {
          if edge.direction == Left && edge.down.x < q.x {
            intersections := intersections + 1;
          }
          if edge.direction == Right && edge.up.x < q.x {
            intersections := intersections + 1;
          }
        }
      }
      assert intersections == before + CrossingsOf(edge, q);
      i := i + 1;
    }
    inside := intersections % 2 == 1;
  }

  /** A point left of every vertex (or level with the leftmost ones), above
      every vertex, or at or below the lowest vertex row is never inside. */
  lemma {:induction false} OutsideBoundingBox(points: seq<Point>, q: Point, k: nat)
    requires k <= |points|
    requires (forall i :: 0 <= i < |points| ==> q.x <= points[i].x)
          || (forall i :: 0 <= i < |points| ==> q.y < points[i].y)
          || (forall i :: 0 <= i < |points| ==> points[i].y <= q.y)
    ensures CrossingCount(points, q, k) == 0
  {
    if k > 0 {
      OutsideBoundingBox(points, q, k - 1);
      var j := k % |points|;
      var e := MakeEdge(points[k - 1], points[j]);
      assert CrossingsOf(e, q) == 0;
    }
  }

  /** The crossing rule: an edge of the ring counts one crossing exactly
      when q's row lies in the edge's half-open span from `up` (included)
      to `down` (excluded) and q is strictly to the right of the edge. */
  lemma CrossingRule(p1: Point, p2: Point, q: Point)
    ensures var e := MakeEdge(p1, p2);
      CrossingsOf(e, q) == 1 <==> e.up.y <= q.y < e.down.y && IsRight(e, q)
  {
    var e := MakeEdge(p1, p2);
    if e.up.y <= q.y < e.down.y && IsRight(e, q) {
      if e.direction == Left {
        RightOfLeaningLeft(e, q);
      } else {
        RightOfLeaningRight(e, q);
      }
    }
  }

  /** A LEFT edge: q right of it in its span is right of `down`. */
  lemma RightOfLeaningLeft(e: Edge, q: Point)
    requires e.up.y <= q.y < e.down.y && e.up.x > e.down.x
    requires IsRight(e, q)
    ensures e.down.x < q.x
  {
    // at `down` the first product is negative, so the second is too
    NegativeProduct(e.up.x - e.down.x, q.y - e.down.y);
    if q.x <= e.down.x {
      NonNegativeProduct(e.down.y - e.up.y, e.down.x - q.x);
    }
  }

  /** A RIGHT edge: q right of it in its span is right of `up`. */
  lemma RightOfLeaningRight(e: Edge, q: Point)
    requires e.up.y <= q.y < e.down.y && e.up.x <= e.down.x
    requires IsRight(e, q)
    ensures e.up.x < q.x
  {
    // the same cross product taken at `up`
    IsRightIsRotate(e, q);
    RotateProperties(e.down, e.up, q);
    assert Rotate(e.up, q, e.down) == (q.x - e.up.x) * (e.down.y - e.up.y) - (e.down.x - e.up.x) * (q.y - e.up.y);
    NonNegativeProduct(e.down.x - e.up.x, q.y - e.up.y);
    if q.x <= e.up.x {
      NonNegativeProduct(e.up.x - q.x, e.down.y - e.up.y);
    }
  }

  lemma NegativeProduct(a: int, b: int)
    requires a > 0 && b < 0
    ensures a * b < 0
  {
  }

  lemma NonNegativeProduct(a: int, b: int)
    requires a >= 0 && b >= 0
    ensures a * b >= 0
  {
  }

  /** Strictly to the right of both ends, q is right of every edge whose
      span holds q's row. */
  lemma RightOfEnds(e: Edge, q: Point)
    requires e.up.y <= q.y < e.down.y
    requires e.up.x < q.x && e.down.x < q.x
    ensures IsRight(e, q)
  {
    // the cross product taken at `up`
    IsRightIsRotate(e, q);
    RotateProperties(e.down, e.up, q);
    var h, a := e.down.y - e.up.y, q.y - e.up.y;
    assert Rotate(e.up, q, e.down) == (q.x - e.up.x) * h - (e.down.x - e.up.x) * a;
    if e.down.x > e.up.x {
      MultiplyLess(a, h, e.down.x - e.up.x);
      MultiplyLess(e.down.x - e.up.x, q.x - e.up.x, h);
    } else {
      NonNegativeProduct(e.up.x - e.down.x, a);
      MultiplyLess(0, q.x - e.up.x, h);
    }
  }

  lemma MultiplyLess(a: int, b: int, m: int)
    requires a < b && m > 0
    ensures a * m < b * m
  {
  }

  /** Seen from a point right of both ends, an edge counts one crossing
      exactly when its ends lie on different sides of q's row. */
  lemma CrossingRightOfEnds(p1: Point, p2: Point, q: Point)
    requires p1.x < q.x && p2.x < q.x
    ensures CrossingsOf(MakeEdge(p1, p2), q) == if (p1.y > q.y) == (p2.y > q.y) then 0 else 1
  {
    var e := MakeEdge(p1, p2);
    CrossingRule(p1, p2, q);
    if e.up.y <= q.y < e.down.y {
      RightOfEnds(e, q);
    }
  }

  /** Edge i ends at the next vertex, which wraps to the first only after
      the last vertex. */
  lemma EdgeAtNext(points: seq<Point>, i: int)
    requires 0 <= i < |points|
    ensures EdgeAt(points, i) == MakeEdge(points[i], if i + 1 == |points| then points[0] else points[i + 1])
  {
    assert (i + 1) % |points| == if i + 1 == |points| then 0 else i + 1;
  }

  /** Adding one crossing flips the parity; adding none keeps it. */
  lemma ParityStep(before: int, c: int, first: bool, previous: bool, next: bool)
    requires before % 2 == if first == previous then 0 else 1
    requires c == if previous == next then 0 else 1
    ensures (before + c) % 2 == if first == next then 0 else 1
  {
  }

  /** For q right of every vertex, the count over the first k edges is odd
      exactly when vertex 0 and vertex k lie on different sides of q's
      row. */
  lemma {:induction false} RightParity(points: seq<Point>, q: Point, k: nat)
    requires 0 < |points| && k <= |points|
    requires forall i :: 0 <= i < |points| ==> points[i].x < q.x
    ensures var last := if k == |points| then points[0] else points[k];
      CrossingCount(points, q, k) % 2 == if (points[0].y > q.y) == (last.y > q.y) then 0 else 1
  {
    if k > 0 {
      RightParity(points, q, k - 1);
      var next := if k == |points| then points[0] else points[k];
      RightStep(points, q, k);
      ParityStep(CrossingCount(points, q, k - 1), CrossingCount(points, q, k) - CrossingCount(points, q, k - 1),
        points[0].y > q.y, points[k - 1].y > q.y, next.y > q.y);
    }
  }

  /** Edge k - 1 of a ring seen from a point right of every vertex. */
  lemma RightStep(points: seq<Point>, q: Point, k: nat)
    requires 0 < k <= |points|
    requires forall i :: 0 <= i < |points| ==> points[i].x < q.x
    ensures var next := if k == |points| then points[0] else points[k];
      CrossingCount(points, q, k) - CrossingCount(points, q, k - 1) == if (points[k - 1].y > q.y) == (next.y > q.y) then 0 else 1
  {
    var next := if k == |points| then points[0] else points[k];
    EdgeAtNext(points, k - 1);
    CrossingRightOfEnds(points[k - 1], next, q);
  }

  /** A point strictly right of every vertex is never inside: the ring
      crosses its row an even number of times. */
  lemma RightOfBoundingBox(points: seq<Point>, q: Point)
    requires forall i :: 0 <= i < |points| ==> points[i].x < q.x
    ensures CrossingCount(points, q, |points|) % 2 == 0
  {
    if |points| > 0 {
      RightParity(points, q, |points|);
    }
  }

  /** The centre of the axis-aligned square with corners (0,0) and (4,4) is
      inside it, and a point beyond its right side is not. */
  lemma SquareExample()
    ensures var square := [Point(0, 0), Point(4, 0), Point(4, 4), Point(0, 4)];
      CrossingCount(square, Point(2, 2), 4) % 2 == 1 && CrossingCount(square, Point(9, 2), 4) % 2 == 0
  {
  }

  /** Sum of the x (resp. y) coordinates. */
  function SumX(points: seq<Point>): int {
    if points == [] then 0 else points[0].x + SumX(points[1..])
  }

  function SumY(points: seq<Point>): int {
    if points == [] then 0 else points[0].y + SumY(points[1..])
  }

  /** The centre of a polygon: the mean of its vertices, truncated toward
      zero; a one-vertex polygon is its own centre. */
  function Center(points: seq<Point>): (c: Point)
    requires |points| > 0
    ensures |points| == 1 ==> c == points[0]
  {
    assert |points| == 1 ==> SumX(points) == points[0].x && SumY(points) == points[0].y;
    Point(TruncDiv(SumX(points), |points|), TruncDiv(SumY(points), |points|))
  }

  lemma {:induction false} SumBounds(points: seq<Point>, lo: Point, hi: Point)
    requires forall i :: 0 <= i < |points| ==> lo.x <= points[i].x <= hi.x && lo.y <= points[i].y <= hi.y
    ensures lo.x * |points| <= SumX(points) <= hi.x * |points|
    ensures lo.y * |points| <= SumY(points) <= hi.y * |points|
  {
    if points != [] {
      SumBounds(points[1..], lo, hi);
      assert lo.x * |points| == lo.x + lo.x * |points[1..]|;
      assert hi.x * |points| == hi.x + hi.x * |points[1..]|;
      assert lo.y * |points| == lo.y + lo.y * |points[1..]|;
      assert hi.y * |points| == hi.y + hi.y * |points[1..]|;
    }
  }

  lemma ScaleCancel(a: int, b: int, n: int)
    requires n > 0 && a * n <= b * n
    ensures a <= b
  {
  }

  lemma ScaleCancelStrict(a: int, b: int, n: int)
    requires n > 0 && a * n < b * n
    ensures a < b
  {
  }

  /** The truncated mean of values between lo and hi lies between lo and hi. */
  lemma MeanBounds(sum: int, n: int, lo: int, hi: int)
    requires n > 0 && lo * n <= sum <= hi * n
    ensures lo <= TruncDiv(sum, n) <= hi
  {
    var q := TruncDiv(sum, n);
    if sum >= 0 {
      ScaleCancel(q, hi, n);
      assert (q + 1) * n == q * n + n;
      ScaleCancelStrict(lo, q + 1, n);
    } else {
      ScaleCancel(lo, q, n);
      assert (q - 1) * n == q * n - n;
      ScaleCancelStrict(q - 1, hi, n);
    }
  }

  /** Any box that holds every vertex holds the centre. */
  lemma CenterInBoundingBox(points: seq<Point>, lo: Point, hi: Point)
    requires |points| > 0
    requires forall i :: 0 <= i < |points| ==> lo.x <= points[i].x <= hi.x && lo.y <= points[i].y <= hi.y
    ensures lo.x <= Center(points).x <= hi.x && lo.y <= Center(points).y <= hi.y
  {
    SumBounds(points, lo, hi);
    MeanBounds(SumX(points), |points|, lo.x, hi.x);
    MeanBounds(SumY(points), |points|, lo.y, hi.y);
  }
}
