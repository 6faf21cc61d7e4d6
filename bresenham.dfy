/** The pixels Bresenham's algorithm visits, as the drawer's integer loops
    produce them. The error term is updated before each pixel is drawn, so
    unless the segment is axis-aligned the minor coordinate is already one
    step ahead at the first pixel. */
module Bresenham {
  import opened Geometry

  function Abs(v: int): nat {
    if v < 0 then -v else v
  }

  /** The loop condition `x * step <= x2 * step` for a step of 1 or -1. */
  predicate NotPast(x: int, x2: int, step: int) {
    if step == 1 then x <= x2 else x2 <= x
  }

  /** For a step of 1 or -1 the source's product form of the loop condition
      is NotPast. */
  lemma NotPastIsProduct(x: int, x2: int, step: int)
    requires step == 1 || step == -1
    ensures NotPast(x, x2, step) <==> x * step <= x2 * step
  {
  }

  /** Moving the head of the remaining pixels to the drawn ones keeps their
      concatenation. */
  lemma Advance(drawn: seq<Point>, rest: seq<Point>, p: Point, next: seq<Point>, all: seq<Point>)
    requires drawn + rest == all && rest == [p] + next
    ensures (drawn + [p]) + next == all
    ensures |drawn| < |all| && all[|drawn|] == p
  {
    assert (drawn + [p]) + next == drawn + ([p] + next);
  }

  /** The rest of the gentle-slope loop (|dy| <= |dx|): x walks toward x2 in
      steps of `step`; y only ever grows. */
  function Shallow(x: int, y: int, di: int, x2: int, step: int, dx: int, dy: int): seq<Point>
    requires step == 1 || step == -1
    decreases if step == 1 then x2 - x + 1 else x - x2 + 1
  {
    if !NotPast(x, x2, step) then []
    else
      var (di', y') := if di < 0 then (di + 2 * dy, y) else (di + 2 * (dy - dx), y + 1);
      [Point(x, y')] + Shallow(x + step, y', di', x2, step, dx, dy)
  }

  /** The rest of the steep loop (|dy| > |dx|): y walks toward y2 in steps
      of `step`; x only ever grows. */
  function Steep(x: int, y: int, di: int, y2: int, step: int, dx: int, dy: int): seq<Point>
    requires step == 1 || step == -1
    decreases if step == 1 then y2 - y + 1 else y - y2 + 1
  {
    if !NotPast(y, y2, step) then []
    else
      var (di', x') := if di < 0 then (di + 2 * dx, x) else (di + 2 * (dx - dy), x + 1);
      [Point(x', y)] + Steep(x', y + step, di', y2, step, dx, dy)
  }

  /** One step of the gentle loop: the error term decides whether the row
      advances before the pixel is emitted. */
  lemma ShallowUnfold(x: int, y: int, di: int, x2: int, step: int, dx: int, dy: int)
    requires step == 1 || step == -1
    requires NotPast(x, x2, step)
    ensures di < 0 ==> Shallow(x, y, di, x2, step, dx, dy) == [Point(x, y)] + Shallow(x + step, y, di + 2 * dy, x2, step, dx, dy)
    ensures di >= 0 ==> Shallow(x, y, di, x2, step, dx, dy) == [Point(x, y + 1)] + Shallow(x + step, y + 1, di + 2 * (dy - dx), x2, step, dx, dy)
  {
  }

  /** One step of the steep loop, with the roles of x and y exchanged. */
  lemma SteepUnfold(x: int, y: int, di: int, y2: int, step: int, dx: int, dy: int)
    requires step == 1 || step == -1
    requires NotPast(y, y2, step)
    ensures di < 0 ==> Steep(x, y, di, y2, step, dx, dy) == [Point(x, y)] + Steep(x, y + step, di + 2 * dx, y2, step, dx, dy)
    ensures di >= 0 ==> Steep(x, y, di, y2, step, dx, dy) == [Point(x + 1, y)] + Steep(x + 1, y + step, di + 2 * (dx - dy), y2, step, dx, dy)
  {
  }

  /** The first endpoint after the source's swap: the gentle case starts
      from the endpoint with the smaller y, the steep case from the one with
      the smaller x. */
  function Start(x1: int, y1: int, x2: int, y2: int): Point {
    if Abs(y2 - y1) <= Abs(x2 - x1) then
      (if y1 > y2 then Point(x2, y2) else Point(x1, y1))
    else
      (if x1 > x2 then Point(x2, y2) else Point(x1, y1))
  }

  function Finish(x1: int, y1: int, x2: int, y2: int): Point {
    if Start(x1, y1, x2, y2) == Point(x1, y1) then Point(x2, y2) else Point(x1, y1)
  }

  /** Every pixel the drawer plots for the segment (x1, y1) - (x2, y2), in
      drawing order. */
  function Pixels(x1: int, y1: int, x2: int, y2: int): seq<Point> {
    var dy: int, dx: int := Abs(y2 - y1), Abs(x2 - x1);
    var s, f := Start(x1, y1, x2, y2), Finish(x1, y1, x2, y2);
    if dy <= dx then
      Shallow(s.x, s.y, 2 * dy - dx, f.x, if s.x > f.x then -1 else 1, dx, dy)
    else
      Steep(s.x, s.y, 2 * dx - dy, f.y, if s.y > f.y then -1 else 1, dx, dy)
  }

  /** The gentle loop draws one pixel per column, walking from x to x2. */
  lemma {:induction false} ShallowColumns(x: int, y: int, di: int, x2: int, step: int, dx: int, dy: int)
    requires step == 1 || step == -1
    ensures var p := Shallow(x, y, di, x2, step, dx, dy);
      && |p| == (if NotPast(x, x2, step) then Abs(x2 - x) + 1 else 0)
      && (forall k :: 0 <= k < |p| ==> p[k].x == x + (if step == 1 then k else -k))
    decreases if step == 1 then x2 - x + 1 else x - x2 + 1
  {
    if NotPast(x, x2, step) {
      var (di', y') := if di < 0 then (di + 2 * dy, y) else (di + 2 * (dy - dx), y + 1);
      ShallowColumns(x + step, y', di', x2, step, dx, dy);
      var rest := Shallow(x + step, y', di', x2, step, dx, dy);
      var p := Shallow(x, y, di, x2, step, dx, dy);
      assert p == [Point(x, y')] + rest;
      assert forall k :: 1 <= k < |p| ==> p[k] == rest[k - 1];
    }
  }

  /** In the gentle loop the row starts at y or one below and rises by 0 or
      1 from one pixel to the next. */
  lemma {:induction false} ShallowRows(x: int, y: int, di: int, x2: int, step: int, dx: int, dy: int)
    requires step == 1 || step == -1
    ensures var p := Shallow(x, y, di, x2, step, dx, dy);
      && (|p| > 0 ==> y <= p[0].y <= y + 1)
      && (forall k :: 0 <= k < |p| - 1 ==> p[k].y <= p[k + 1].y <= p[k].y + 1)
    decreases if step == 1 then x2 - x + 1 else x - x2 + 1
  {
    if NotPast(x, x2, step) {
      var (di', y') := if di < 0 then (di + 2 * dy, y) else (di + 2 * (dy - dx), y + 1);
      ShallowRows(x + step, y', di', x2, step, dx, dy);
      var rest := Shallow(x + step, y', di', x2, step, dx, dy);
      var p := Shallow(x, y, di, x2, step, dx, dy);
      assert p == [Point(x, y')] + rest;
      assert forall k :: 1 <= k < |p| ==> p[k] == rest[k - 1];
    }
  }

  /** With no rise (dy = 0) and a negative error term the gentle loop stays on
      its row. */
  lemma {:induction false} ShallowFlat(x: int, y: int, di: int, x2: int, step: int, dx: int)
    requires step == 1 || step == -1
    requires di < 0
    ensures forall k :: 0 <= k < |Shallow(x, y, di, x2, step, dx, 0)| ==> Shallow(x, y, di, x2, step, dx, 0)[k].y == y
    decreases if step == 1 then x2 - x + 1 else x - x2 + 1
  {
    if NotPast(x, x2, step) {
      ShallowFlat(x + step, y, di, x2, step, dx);
    }
  }

  /** Swaps the coordinates of every point. */
  function Transposed(s: seq<Point>): (t: seq<Point>)
    ensures |t| == |s|
    ensures forall k :: 0 <= k < |s| ==> t[k] == Point(s[k].y, s[k].x)
  {
    if s == [] then [] else [Point(s[0].y, s[0].x)] + Transposed(s[1..])
  }

  /** The steep loop is the gentle loop with the roles of x and y exchanged. */
  lemma {:induction false} SteepIsTransposedShallow(x: int, y: int, di: int, y2: int, step: int, dx: int, dy: int)
    requires step == 1 || step == -1
    ensures Steep(x, y, di, y2, step, dx, dy) == Transposed(Shallow(y, x, di, y2, step, dy, dx))
    decreases if step == 1 then y2 - y + 1 else y - y2 + 1
  {
    if NotPast(y, y2, step) {
      var (di', x') := if di < 0 then (di + 2 * dx, x) else (di + 2 * (dx - dy), x + 1);
      SteepIsTransposedShallow(x', y + step, di', y2, step, dx, dy);
    }
  }

  /** Gentle segments (|dy| <= |dx|): exactly |dx| + 1 pixels, one per
      column walking from the start's x to the finish's x, and a row that
      starts at the start's row or one below and rises by 0 or 1 per step. */
  lemma ShallowSegment(x1: int, y1: int, x2: int, y2: int)
    requires Abs(y2 - y1) <= Abs(x2 - x1)
    ensures var p, s, f := Pixels(x1, y1, x2, y2), Start(x1, y1, x2, y2), Finish(x1, y1, x2, y2);
      && |p| == Abs(x2 - x1) + 1
      && (forall k :: 0 <= k < |p| ==> p[k].x == s.x + (if s.x > f.x then -k else k))
      && s.y <= p[0].y <= s.y + 1
      && (forall k :: 0 <= k < |p| - 1 ==> p[k].y <= p[k + 1].y <= p[k].y + 1)
  {
    var dy: int, dx: int := Abs(y2 - y1), Abs(x2 - x1);
    var s, f := Start(x1, y1, x2, y2), Finish(x1, y1, x2, y2);
    ShallowColumns(s.x, s.y, 2 * dy - dx, f.x, if s.x > f.x then -1 else 1, dx, dy);
    ShallowRows(s.x, s.y, 2 * dy - dx, f.x, if s.x > f.x then -1 else 1, dx, dy);
  }

  /** A horizontal segment of at least two pixels is drawn exactly: every
      pixel is on its row, from one endpoint to the other. */
  lemma HorizontalSegment(x1: int, x2: int, y: int)
    requires x1 != x2
    ensures var p := Pixels(x1, y, x2, y);
      && |p| == Abs(x2 - x1) + 1
      && (forall k :: 0 <= k < |p| ==> p[k] == Point(x1 + (if x1 > x2 then -k else k), y))
  {
    var dx: int := Abs(x2 - x1);
    ShallowColumns(x1, y, -dx, x2, if x1 > x2 then -1 else 1, dx, 0);
    ShallowFlat(x1, y, -dx, x2, if x1 > x2 then -1 else 1, dx);
  }

  /** Steep segments (|dy| > |dx|) are gentle segments with x and y
      exchanged. */
  lemma SteepSegment(x1: int, y1: int, x2: int, y2: int)
    requires Abs(y2 - y1) > Abs(x2 - x1)
    ensures Pixels(x1, y1, x2, y2) == Transposed(Pixels(y1, x1, y2, x2))
  {
    var dy: int, dx: int := Abs(y2 - y1), Abs(x2 - x1);
    var s, f := Start(x1, y1, x2, y2), Finish(x1, y1, x2, y2);
    SteepIsTransposedShallow(s.x, s.y, 2 * dx - dy, f.y, if s.y > f.y then -1 else 1, dx, dy);
  }

  /** Because the error term moves first, a diagonal segment is drawn one row
      low, and a one-point segment lands one row below its point. */
  lemma ShiftedExamples()
    ensures Pixels(0, 0, 1, 1) == [Point(0, 1), Point(1, 2)]
    ensures Pixels(3, 5, 3, 5) == [Point(3, 6)]
  {
  }
}
