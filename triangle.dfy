/** Triangle helpers of the drawer: the point-in-triangle test used by the
    scanline rasteriser and the reordering of the three (point, colour)
    corners that precedes it. */
module Triangles {
  import opened Geometry
  import opened Colors

  /** The side expression of p against the directed line a -> b. */
  function Side(p: Point, a: Point, b: Point): int {
    (a.y - b.y) * p.x + (b.x - a.x) * p.y + (a.x * b.y - b.x * a.y)
  }

  /** p is inside or on the triangle when its three side expressions do not
      have strictly opposite signs. */
  predicate IsPointInTriangle(p: Point, p1: Point, p2: Point, p3: Point) {
    var s1 := Side(p, p1, p2);
    var s2 := Side(p, p2, p3);
    var s3 := Side(p, p3, p1);
    (s1 >= 0 && s2 >= 0 && s3 >= 0) || (s1 <= 0 && s2 <= 0 && s3 <= 0)
  }

  /** Each side expression is the cross product Rotate(a, b, p). */
  lemma SideIsRotate(p: Point, a: Point, b: Point)
    ensures Side(p, a, b) == Rotate(a, b, p)
  {
    var ux, uy := b.x - a.x, b.y - a.y;
    assert Rotate(a, b, p) == ux * (p.y - a.y) - (p.x - a.x) * uy;
    assert ux * (p.y - a.y) == ux * p.y - ux * a.y;
    assert (p.x - a.x) * uy == p.x * uy - a.x * uy;
    assert ux * a.y - a.x * uy == b.x * a.y - a.x * b.y;
  }

  /** The test holds exactly when p is on the same side of (or on) all three
      directed edges p1->p2, p2->p3, p3->p1. */
  lemma InTriangleIffSameSide(p: Point, p1: Point, p2: Point, p3: Point)
    ensures IsPointInTriangle(p, p1, p2, p3) <==>
      (Rotate(p1, p2, p) >= 0 && Rotate(p2, p3, p) >= 0 && Rotate(p3, p1, p) >= 0) ||
      (Rotate(p1, p2, p) <= 0 && Rotate(p2, p3, p) <= 0 && Rotate(p3, p1, p) <= 0)
  {
    SideIsRotate(p, p1, p2);
    SideIsRotate(p, p2, p3);
    SideIsRotate(p, p3, p1);
  }

  /** The three vertices are inside their triangle, and the answer does not
      depend on where the vertex list starts or on its orientation. */
  lemma InTriangleProperties(p: Point, p1: Point, p2: Point, p3: Point)
    ensures IsPointInTriangle(p1, p1, p2, p3)
    ensures IsPointInTriangle(p2, p1, p2, p3)
    ensures IsPointInTriangle(p3, p1, p2, p3)
    ensures IsPointInTriangle(p, p1, p2, p3) == IsPointInTriangle(p, p2, p3, p1)
    ensures IsPointInTriangle(p, p1, p2, p3) == IsPointInTriangle(p, p1, p3, p2)
  {
    InTriangleIffSameSide(p1, p1, p2, p3);
    InTriangleIffSameSide(p2, p1, p2, p3);
    InTriangleIffSameSide(p3, p1, p2, p3);
    InTriangleIffSameSide(p, p1, p2, p3);
    InTriangleIffSameSide(p, p1, p3, p2);
    RotateProperties(p1, p2, p);
    RotateProperties(p2, p3, p);
    RotateProperties(p3, p1, p);
  }

  /** One triangle corner: a vertex and its colour. */
  datatype Corner = Corner(p: Point, c: Color)

  datatype Triangle = Triangle(v1: Corner, v2: Corner, v3: Corner)

  /** What a corner slot holds after Point.Swap and Color.Swap exchanged it
      with `from`: the other point and the other B, G, R, but its own alpha. */
  function Receive(slot: Corner, from: Corner): Corner {
    Corner(from.p, from.c.(alpha := slot.c.alpha))
  }

  function Swap12(t: Triangle): Triangle {
    Triangle(Receive(t.v1, t.v2), Receive(t.v2, t.v1), t.v3)
  }

  function Swap13(t: Triangle): Triangle {
    Triangle(Receive(t.v1, t.v3), t.v2, Receive(t.v3, t.v1))
  }

  function Swap23(t: Triangle): Triangle {
    Triangle(t.v1, Receive(t.v2, t.v3), Receive(t.v3, t.v2))
  }

  /** The reordering as the source performs it, step by step: move a lower
      vertex first, move the vertex that does not share its y with the
      others first, then order the other two by x. */
  function Reorder(t: Triangle): Triangle {
    OrderByX(ApexSecondPass(ApexFirstPass(LowerFirst(t))))
  }

  function LowerFirst(t: Triangle): Triangle {
    if t.v1.p.y > t.v2.p.y then (if t.v2.p.y > t.v3.p.y then Swap13(t) else Swap12(t))
    else t
  }

  function ApexFirstPass(t: Triangle): Triangle {
    if t.v1.p.y == t.v2.p.y then Swap13(t) else t
  }

  function ApexSecondPass(t: Triangle): Triangle {
    if t.v1.p.y == t.v3.p.y then Swap12(t) else t
  }

  function OrderByX(t: Triangle): Triangle {
    if t.v2.p.x > t.v3.p.x then Swap23(t) else t
  }

  /** A corner with its alpha cleared: what travels with the point. */
  function Travelling(v: Corner): Corner {
    v.(c := v.c.(alpha := 0.0))
  }

  function Travellers(t: Triangle): multiset<Corner> {
    multiset{Travelling(t.v1), Travelling(t.v2), Travelling(t.v3)}
  }

  lemma TravellingReceive(slot: Corner, from: Corner)
    ensures Travelling(Receive(slot, from)) == Travelling(from)
  {
  }

  function Points(t: Triangle): multiset<Point> {
    multiset{t.v1.p, t.v2.p, t.v3.p}
  }

  /** u holds the corners of t in some order, each slot keeping its alpha. */
  predicate Permutes(t: Triangle, u: Triangle) {
    && Travellers(u) == Travellers(t)
    && Points(u) == Points(t)
    && u.v1.c.alpha == t.v1.c.alpha && u.v2.c.alpha == t.v2.c.alpha && u.v3.c.alpha == t.v3.c.alpha
  }

  lemma SwapsPermute(t: Triangle)
    ensures Permutes(t, Swap12(t)) && Permutes(t, Swap13(t)) && Permutes(t, Swap23(t))
  {
    Swap12Permutes(t);
    Swap13Permutes(t);
    Swap23Permutes(t);
  }

  lemma ThreeOrders<T>(a: T, b: T, c: T)
    ensures multiset{b, a, c} == multiset{a, b, c}
    ensures multiset{c, b, a} == multiset{a, b, c}
    ensures multiset{a, c, b} == multiset{a, b, c}
  {
  }

  lemma Swap12Permutes(t: Triangle)
    ensures Permutes(t, Swap12(t))
  {
    var s := Swap12(t);
    TravellingReceive(t.v1, t.v2);
    TravellingReceive(t.v2, t.v1);
    ThreeOrders(Travelling(t.v1), Travelling(t.v2), Travelling(t.v3));
    ThreeOrders(t.v1.p, t.v2.p, t.v3.p);
    assert Travellers(s) == multiset{Travelling(t.v2), Travelling(t.v1), Travelling(t.v3)};
  }

  lemma Swap13Permutes(t: Triangle)
    ensures Permutes(t, Swap13(t))
  {
    var s := Swap13(t);
    TravellingReceive(t.v1, t.v3);
    TravellingReceive(t.v3, t.v1);
    ThreeOrders(Travelling(t.v1), Travelling(t.v2), Travelling(t.v3));
    ThreeOrders(t.v1.p, t.v2.p, t.v3.p);
    assert Travellers(s) == multiset{Travelling(t.v3), Travelling(t.v2), Travelling(t.v1)};
  }

  lemma Swap23Permutes(t: Triangle)
    ensures Permutes(t, Swap23(t))
  {
    var s := Swap23(t);
    TravellingReceive(t.v2, t.v3);
    TravellingReceive(t.v3, t.v2);
    ThreeOrders(Travelling(t.v1), Travelling(t.v2), Travelling(t.v3));
    ThreeOrders(t.v1.p, t.v2.p, t.v3.p);
    assert Travellers(s) == multiset{Travelling(t.v1), Travelling(t.v3), Travelling(t.v2)};
  }

  lemma PermutesTransitive(t: Triangle, u: Triangle, w: Triangle)
    requires Permutes(t, u) && Permutes(u, w)
    ensures Permutes(t, w)
  {
  }

  /** Reordering permutes the corners: every point moves together with its
      blue, green and red, while the alphas stay in their slots. Afterwards
      the second vertex is not to the right of the third. */
  lemma ReorderPermutes(t: Triangle)
    ensures Permutes(t, Reorder(t))
    ensures Reorder(t).v2.p.x <= Reorder(t).v3.p.x
  {
    var t1 := LowerFirst(t);
    var t2 := ApexFirstPass(t1);
    var t3 := ApexSecondPass(t2);
    LowerFirstPermutes(t);
    ApexFirstPassPermutes(t1);
    ApexSecondPassPermutes(t2);
    OrderByXPermutes(t3);
    PermutesTransitive(t, t1, t2);
    PermutesTransitive(t, t2, t3);
    PermutesTransitive(t, t3, OrderByX(t3));
  }

  lemma LowerFirstPermutes(t: Triangle)
    ensures Permutes(t, LowerFirst(t))
  {
    SwapsPermute(t);
  }

  lemma ApexFirstPassPermutes(t: Triangle)
    ensures Permutes(t, ApexFirstPass(t))
  {
    Swap13Permutes(t);
  }

  lemma ApexSecondPassPermutes(t: Triangle)
    ensures Permutes(t, ApexSecondPass(t))
  {
    Swap12Permutes(t);
  }

  lemma OrderByXPermutes(t: Triangle)
    ensures Permutes(t, OrderByX(t))
    ensures OrderByX(t).v2.p.x <= OrderByX(t).v3.p.x
  {
    Swap23Permutes(t);
  }

  /** When exactly two vertices share a row, the vertex off that row (the
      apex) comes first and the two others share a row. */
  lemma ReorderPutsApexFirst(t: Triangle)
    requires var (y1, y2, y3) := (t.v1.p.y, t.v2.p.y, t.v3.p.y);
      (y1 == y2 && y3 != y1) || (y1 == y3 && y2 != y1) || (y2 == y3 && y1 != y2)
    ensures Reorder(t).v2.p.y == Reorder(t).v3.p.y
    ensures Reorder(t).v1.p.y != Reorder(t).v2.p.y
  {
  }

  /** With three different rows, the topmost vertex comes first, except when
      the third vertex is above the first and the first above the second. */
  lemma ReorderPutsTopFirst(t: Triangle)
    requires var (y1, y2, y3) := (t.v1.p.y, t.v2.p.y, t.v3.p.y);
      y1 != y2 && y2 != y3 && y1 != y3 && !(y3 < y1 < y2)
    ensures Reorder(t).v1.p.y < Reorder(t).v2.p.y && Reorder(t).v1.p.y < Reorder(t).v3.p.y
  {
  }

  /** The excepted case happens: rows 1, 2, 0 are left with the vertex of row
      1 first, below the vertex of row 0. */
  lemma ReorderKeepsMiddleFirst()
    ensures var t := Triangle(Corner(Point(0, 1), Black), Corner(Point(5, 2), Black), Corner(Point(9, 0), Black));
      Reorder(t).v1.p == Point(0, 1) && Reorder(t).v3.p.y < Reorder(t).v1.p.y
  {
  }

  /** Reorders three (point, colour) pairs in place, the colours following
      their points except for alpha. The six objects must be distinct. */
  method SwapTrianglePoints(p1: PointCell, c1: ColorCell, p2: PointCell, c2: ColorCell, p3: PointCell, c3: ColorCell)
    requires p1 != p2 && p1 != p3 && p2 != p3
    requires c1 != c2 && c1 != c3 && c2 != c3
    modifies p1, p2, p3, c1, c2, c3
    ensures Triangle(Corner(p1.Value(), c1.Value()), Corner(p2.Value(), c2.Value()), Corner(p3.Value(), c3.Value()))
      == Reorder(old(Triangle(Corner(p1.Value(), c1.Value()), Corner(p2.Value(), c2.Value()), Corner(p3.Value(), c3.Value()))))
  {
    if p1.y > p2.y {
      if p2.y > p3.y {
        PointCell.Swap(p1, p3);
        ColorCell.Swap(c1, c3);
      } else {
        PointCell.Swap(p1, p2);
        ColorCell.Swap(c1, c2);
      }
    }
    if p1.y == p2.y {
      PointCell.Swap(p1, p3);
      ColorCell.Swap(c1, c3);
    }
    if p1.y == p3.y {
      PointCell.Swap(p1, p2);
      ColorCell.Swap(c1, c2);
    }
    if p2.x > p3.x {
      PointCell.Swap(p2, p3);
      ColorCell.Swap(c2, c3);
    }
  }
}
