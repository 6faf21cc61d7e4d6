/** Integer plane geometry: grid points, the cross product, segments and
    C#-style integer division. Integers are unbounded: the 32-bit overflow of
    the source's `int` arithmetic is not modelled. */
module Geometry {

  /** A grid point; equality is coordinate equality, so points can be set
      and dictionary keys. */
  datatype Point = Point(x: int, y: int)

  /** The cross product (b - a) x (c - a): positive when a, b, c turn
      counter-clockwise in a y-up frame, zero when they are collinear, in
      particular when two of them coincide. */
  function Rotate(a: Point, b: Point, c: Point): (r: int)
    ensures a == b || b == c || a == c ==> r == 0
  {
    (b.x - a.x) * (c.y - a.y) - (c.x - a.x) * (b.y - a.y)
  }

  /** Rotate is the signed doubled area of the triangle abc: it changes sign
      when two vertices are exchanged and it is unchanged by a cyclic shift
      of the vertices. */
  lemma RotateProperties(a: Point, b: Point, c: Point)
    ensures Rotate(a, c, b) == -Rotate(a, b, c)
    ensures Rotate(b, a, c) == -Rotate(a, b, c)
    ensures Rotate(b, c, a) == Rotate(a, b, c)
  {
    var ux, uy, vx, vy := b.x - a.x, b.y - a.y, c.x - a.x, c.y - a.y;
    assert Rotate(a, b, c) == ux * vy - vx * uy;
    assert Rotate(b, c, a) == (vx - ux) * (-uy) - (-ux) * (vy - uy);
    assert (vx - ux) * (-uy) - (-ux) * (vy - uy) == ux * vy - vx * uy;
    assert Rotate(b, a, c) == (-ux) * (vy - uy) - (vx - ux) * (-uy);
  }

  /** C#'s integer division of a by a positive divisor: it truncates toward
      zero, unlike Dafny's Euclidean `/`. */
  function TruncDiv(a: int, b: int): (q: int)
    requires b > 0
    ensures a >= 0 ==> 0 <= q * b <= a < q * b + b
    ensures a < 0 ==> q * b - b < a <= q * b <= 0
    ensures b == 1 ==> q == a
  {
    if a >= 0 then DivBounds(a, b); a / b
    else DivBounds(-a, b); -((-a) / b)
  }

  lemma DivBounds(n: nat, b: int)
    requires b > 0
    ensures 0 <= (n / b) * b <= n < (n / b) * b + b
  {
    var q, r := n / b, n % b;
    assert n == q * b + r && 0 <= r < b;
  }

  /** A mutable point object, as the source's Point class with settable
      coordinates. */
  class PointCell {
    var x: int
    var y: int

    constructor (p: Point)
      ensures Value() == p
    {
      x, y := p.x, p.y;
    }

    function Value(): Point
      reads this
    {
      Point(x, y)
    }

    /** Exchanges the coordinates of two point objects. */
    static method Swap(p1: PointCell, p2: PointCell)
      modifies p1, p2
      ensures p1.Value() == old(p2.Value()) && p2.Value() == old(p1.Value())
    {
      var x2, y2 := p2.x, p2.y;
      p2.x, p2.y := p1.x, p1.y;
      p1.x, p1.y := x2, y2;
    }
  }

  /** A segment given by its two endpoints. */
  datatype Line = Line(p1: Point, p2: Point)

  function Min(a: int, b: int): int { if a <= b then a else b }
  function Max(a: int, b: int): int { if a <= b then b else a }

  /** The midpoint of a segment, each coordinate a truncated mean: it lies
      in the segment's bounding box and is within half a pixel of the exact
      midpoint, rounded toward zero. */
  function LineCenter(line: Line): (c: Point)
    ensures Min(line.p1.x, line.p2.x) <= c.x <= Max(line.p1.x, line.p2.x)
    ensures Min(line.p1.y, line.p2.y) <= c.y <= Max(line.p1.y, line.p2.y)
    ensures line.p1.x + line.p2.x >= 0 ==> 0 <= line.p1.x + line.p2.x - 2 * c.x <= 1
    ensures line.p1.x + line.p2.x < 0 ==> -1 <= line.p1.x + line.p2.x - 2 * c.x <= 0
    ensures line.p1.y + line.p2.y >= 0 ==> 0 <= line.p1.y + line.p2.y - 2 * c.y <= 1
    ensures line.p1.y + line.p2.y < 0 ==> -1 <= line.p1.y + line.p2.y - 2 * c.y <= 0
  {
    Point(TruncDiv(line.p1.x + line.p2.x, 2), TruncDiv(line.p2.y + line.p1.y, 2))
  }
}
