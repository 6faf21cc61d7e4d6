/** The raster side of the drawer: a BGRA bitmap that every drawing
    operation writes, and a separate snapshot of it that pixel reads see.
    Reads observe writes only after SetPixels copies the bitmap into the
    snapshot. */
module Drawing {
  import opened Colors
  import opened Geometry
  import opened Raster
  import Bresenham

  /** The offsets plotted by the thick-point brush of radius r around c: the
      square of half-side r, cut down to the disc of radius r. */
  predicate InDisc(c: Point, r: int, q: Point) {
    var j, i := q.x - c.x, q.y - c.y;
    -r <= i <= r && -r <= j <= r && j * j + i * i <= r * r
  }

  /** The pixels of the side from vertex i to the next vertex, the last side
      closing the ring. */
  function SideAt(points: seq<Point>, i: int): seq<Point>
    requires 0 <= i < |points|
  {
    var p, q := points[i], points[(i + 1) % |points|];
    Bresenham.Pixels(p.x, p.y, q.x, q.y)
  }

  /** The pixels of the first k sides, in drawing order. */
  function Outline(points: seq<Point>, k: nat): seq<Point>
    requires k <= |points|
  {
    if k == 0 then [] else Outline(points, k - 1) + SideAt(points, k - 1)
  }

  /** A pixel belongs to the outline of the first k sides exactly when it
      belongs to one of those sides. */
  lemma {:induction false} OutlineMembership(points: seq<Point>, k: nat, q: Point)
    requires k <= |points|
    ensures q in Outline(points, k) <==> exists i :: 0 <= i < k && q in SideAt(points, i)
  {
    if k > 0 {
      OutlineMembership(points, k - 1, q);
      assert Outline(points, k) == Outline(points, k - 1) + SideAt(points, k - 1);
      assert q in Outline(points, k) <==> q in Outline(points, k - 1) || q in SideAt(points, k - 1);
      if q in SideAt(points, k - 1) {
        assert 0 <= k - 1 < k && q in SideAt(points, k - 1);
      }
      if exists i :: 0 <= i < k && q in SideAt(points, i) {
        var i :| 0 <= i < k && q in SideAt(points, i);
        if i < k - 1 {
          assert 0 <= i < k - 1 && q in SideAt(points, i);
        }
      }
    }
  }

  /** Painting the outline gives exactly the pixels on some side the new
      bytes. */
  lemma OutlinePainted(buf: seq<byte>, w: int, h: int, points: seq<Point>, data: Bgra)
    requires IsImage(buf, w, h) && AllInBounds(w, h, Outline(points, |points|))
    ensures forall q :: InBounds(w, h, q) ==>
      At(PaintPoints(buf, w, h, Outline(points, |points|), data), w, h, q) ==
        if exists i :: 0 <= i < |points| && q in SideAt(points, i) then data else At(buf, w, h, q)
  {
    forall q | InBounds(w, h, q)
      ensures At(PaintPoints(buf, w, h, Outline(points, |points|), data), w, h, q) ==
        if exists i :: 0 <= i < |points| && q in SideAt(points, i) then data else At(buf, w, h, q)
    {
      OutlineMembership(points, |points|, q);
      PaintPointsAt(buf, w, h, Outline(points, |points|), data, q);
    }
  }

  /** Every pixel of row y from column i to column x (either way round)
      reads back as c. */
  predicate SameRun(buf: seq<byte>, w: int, h: int, c: Color, y: int, i: int, x: int)
    requires IsImage(buf, w, h) && 0 <= y < h && 0 <= i < w && 0 <= x < w
  {
    forall k :: Min(i, x) <= k <= Max(i, x) ==> FromBgra(At(buf, w, h, Point(k, y))) == c
  }

  /** Exactly the columns x1 .. x2-1 of row y changed, to what `paint`
      puts there. */
  ghost predicate LineDrawn(before: seq<byte>, after: seq<byte>, w: int, h: int, y: int, x1: int, x2: int, paint: Paint)
    requires IsImage(before, w, h) && IsImage(after, w, h) && PaintOk(paint)
  {
    forall q :: InBounds(w, h, q) ==>
      At(after, w, h, q) == if q.y == y && x1 <= q.x < x2 then PaintAt(paint, q) else At(before, w, h, q)
  }

  /** Plotting the paint at column i of row y extends a drawn span by one
      column. */
  lemma LineDrawnStep(before: seq<byte>, prev: seq<byte>, w: int, h: int, y: int, lo: int, i: int, paint: Paint)
    requires IsImage(before, w, h) && IsImage(prev, w, h) && PaintOk(paint)
    requires InBounds(w, h, Point(i, y)) && lo <= i
    requires LineDrawn(before, prev, w, h, y, lo, i, paint)
    ensures LineDrawn(before, Plot(prev, w, h, Point(i, y), PaintAt(paint, Point(i, y))), w, h, y, lo, i + 1, paint)
  {
    forall q | InBounds(w, h, q) {
      PlotAt(prev, w, h, Point(i, y), PaintAt(paint, Point(i, y)), q);
    }
  }

  /** left+1 .. right-1 is the whole run of colour c through column x of
      row y: each end is the image edge or a pixel of another colour. */
  ghost predicate MaximalRun(snap: seq<byte>, w: int, h: int, c: Color, y: int, x: int, left: int, right: int)
    requires IsImage(snap, w, h) && 0 <= y < h && 0 <= x < w
  {
    && -1 <= left <= x <= right <= w
    && (left >= 0 ==> FromBgra(At(snap, w, h, Point(left, y))) != c)
    && (right < w ==> FromBgra(At(snap, w, h, Point(right, y))) != c)
    && BaseRun(snap, w, h, c, y, left + 1, x + 1) && BaseRun(snap, w, h, c, y, x, right)
  }

  /** One later step that recolours only base pixels of a fresh snapshot. */
  ghost predicate BaseStep(before: seq<byte>, after: seq<byte>, w: int, h: int, base: Color, paint: Paint)
    requires IsImage(before, w, h) && IsImage(after, w, h) && PaintOk(paint)
  {
    Recolors(before, after, w, h, paint) && ChangesOnlyBase(before, after, before, w, h, base)
  }

  /** A fill step put together: the maximal base run through x in the
      entry snapshot is drawn, and then later steps recolour only base
      pixels of a fresh snapshot. Altogether only base pixels change, each
      to the paint, black pixels survive when the snapshot was fresh, and
      the run through x ends up painted. */
  lemma SpanThenStep(entry: seq<byte>, snap: seq<byte>, drawn: seq<byte>, final: seq<byte>,
                     w: int, h: int, base: Color, y: int, x: int, left: int, right: int, paint: Paint)
    requires IsImage(entry, w, h) && IsImage(snap, w, h) && IsImage(drawn, w, h) && IsImage(final, w, h)
    requires PaintOk(paint) && 0 <= y < h && 0 <= x < w
    requires MaximalRun(snap, w, h, base, y, x, left, right)
    requires LineDrawn(entry, drawn, w, h, y, left + 1, right, paint)
    requires BaseStep(drawn, final, w, h, base, paint)
    ensures Recolors(entry, final, w, h, paint)
    ensures ChangesOnlyBase(entry, final, snap, w, h, base)
    ensures entry == snap && base != Black ==> KeepsBlack(entry, final, w, h)
    ensures RunPainted(snap, final, w, h, base, y, x, paint)
  {
    DrawnSpan(entry, drawn, snap, w, h, base, y, left + 1, x, right, paint);
    RecolorsTransitive(entry, drawn, final, w, h, paint);
    ChangesOnlyBaseTransitive(entry, drawn, final, snap, w, h, base);
    if entry == snap && base != Black {
      KeepsBlackOfBase(entry, final, w, h, base);
    }
    PaintedSpanKept(drawn, final, w, h, y, left + 1, right, paint);
    RunPaintedOfSpan(snap, final, w, h, base, y, x, left, right, paint);
  }

  /** Two base steps make one. */
  lemma BaseStepTransitive(a: seq<byte>, b: seq<byte>, c: seq<byte>, w: int, h: int, base: Color, paint: Paint)
    requires IsImage(a, w, h) && IsImage(b, w, h) && IsImage(c, w, h) && PaintOk(paint)
    requires BaseStep(a, b, w, h, base, paint) && BaseStep(b, c, w, h, base, paint)
    ensures BaseStep(a, c, w, h, base, paint)
  {
    RecolorsTransitive(a, b, c, w, h, paint);
    ChangesOnlyBaseTransitive(a, b, c, a, w, h, base);
  }

  /** Columns lo .. hi-1 of row y read as colour c. */
  ghost predicate BaseRun(buf: seq<byte>, w: int, h: int, c: Color, y: int, lo: int, hi: int)
    requires IsImage(buf, w, h) && 0 <= y < h && 0 <= lo && hi <= w
  {
    forall i :: lo <= i < hi ==> FromBgra(At(buf, w, h, Point(i, y))) == c
  }

  /** Every column of row y joined to x by a run of colour c in `snap`
      holds the paint in `buf`. */
  ghost predicate RunPainted(snap: seq<byte>, buf: seq<byte>, w: int, h: int, c: Color, y: int, x: int, paint: Paint)
    requires IsImage(snap, w, h) && IsImage(buf, w, h) && 0 <= y < h && 0 <= x < w && PaintOk(paint)
  {
    forall i :: 0 <= i < w && SameRun(snap, w, h, c, y, i, x) ==> At(buf, w, h, Point(i, y)) == PaintAt(paint, Point(i, y))
  }

  /** Drawing a span over a run that is base in the snapshot recolours only
      base pixels, and leaves the span painted. */
  lemma DrawnSpan(entry: seq<byte>, drawn: seq<byte>, snap: seq<byte>, w: int, h: int, base: Color, y: int, lo: int, x: int, hi: int, paint: Paint)
    requires IsImage(entry, w, h) && IsImage(drawn, w, h) && IsImage(snap, w, h) && PaintOk(paint)
    requires 0 <= y < h && 0 <= x < w && 0 <= lo <= x + 1 && x <= hi <= w
    requires LineDrawn(entry, drawn, w, h, y, lo, hi, paint)
    requires BaseRun(snap, w, h, base, y, lo, x + 1) && BaseRun(snap, w, h, base, y, x, hi)
    ensures Recolors(entry, drawn, w, h, paint)
    ensures ChangesOnlyBase(entry, drawn, snap, w, h, base)
    ensures PaintedSpan(drawn, w, h, y, lo, hi, paint)
  {
    forall i | lo <= i < hi
      ensures At(drawn, w, h, Point(i, y)) == PaintAt(paint, Point(i, y))
    {
      assert InBounds(w, h, Point(i, y));
    }
  }

  /** Only pixels that read as `base` in the bitmap or in the snapshot
      `snap` change. */
  ghost predicate ChangesOnlyBase(before: seq<byte>, after: seq<byte>, snap: seq<byte>, w: int, h: int, base: Color)
    requires IsImage(before, w, h) && IsImage(after, w, h) && IsImage(snap, w, h)
  {
    forall q :: InBounds(w, h, q) && At(after, w, h, q) != At(before, w, h, q) ==>
      FromBgra(At(snap, w, h, q)) == base || FromBgra(At(before, w, h, q)) == base
  }

  /** No black pixel changes. */
  ghost predicate KeepsBlack(before: seq<byte>, after: seq<byte>, w: int, h: int)
    requires IsImage(before, w, h) && IsImage(after, w, h)
  {
    forall q :: InBounds(w, h, q) && FromBgra(At(before, w, h, q)) == Black ==> At(after, w, h, q) == At(before, w, h, q)
  }

  /** A first step that changes only pixels that are base in `snap` or in
      a, followed by steps on a fresh snapshot that change only base pixels,
      changes only pixels that are base in `snap` or in a. */
  lemma ChangesOnlyBaseTransitive(a: seq<byte>, b: seq<byte>, c: seq<byte>, snap: seq<byte>, w: int, h: int, base: Color)
    requires IsImage(a, w, h) && IsImage(b, w, h) && IsImage(c, w, h) && IsImage(snap, w, h)
    requires ChangesOnlyBase(a, b, snap, w, h, base) && ChangesOnlyBase(b, c, b, w, h, base)
    ensures ChangesOnlyBase(a, c, snap, w, h, base)
  {
    forall q | InBounds(w, h, q) && At(c, w, h, q) != At(a, w, h, q)
      ensures FromBgra(At(snap, w, h, q)) == base || FromBgra(At(a, w, h, q)) == base
    {
      if At(b, w, h, q) == At(a, w, h, q) {
        assert At(c, w, h, q) != At(b, w, h, q);
      }
    }
  }

  /** On a fresh snapshot, changing only base pixels with a non-black base
      leaves black pixels alone. */
  lemma KeepsBlackOfBase(a: seq<byte>, b: seq<byte>, w: int, h: int, base: Color)
    requires IsImage(a, w, h) && IsImage(b, w, h)
    requires ChangesOnlyBase(a, b, a, w, h, base) && base != Black
    ensures KeepsBlack(a, b, w, h)
  {
  }

  /** Columns lo until hi of row y hold the paint. */
  ghost predicate PaintedSpan(buf: seq<byte>, w: int, h: int, y: int, lo: int, hi: int, paint: Paint)
    requires IsImage(buf, w, h) && 0 <= y < h && 0 <= lo && hi <= w && PaintOk(paint)
  {
    forall i :: lo <= i < hi ==> At(buf, w, h, Point(i, y)) == PaintAt(paint, Point(i, y))
  }

  /** Recolouring with the same paint keeps a painted span painted. */
  lemma PaintedSpanKept(a: seq<byte>, b: seq<byte>, w: int, h: int, y: int, lo: int, hi: int, paint: Paint)
    requires IsImage(a, w, h) && IsImage(b, w, h) && 0 <= y < h && 0 <= lo && hi <= w && PaintOk(paint)
    requires PaintedSpan(a, w, h, y, lo, hi, paint) && Recolors(a, b, w, h, paint)
    ensures PaintedSpan(b, w, h, y, lo, hi, paint)
  {
    forall i | lo <= i < hi
      ensures At(b, w, h, Point(i, y)) == PaintAt(paint, Point(i, y))
    {
      assert InBounds(w, h, Point(i, y));
    }
  }

  /** If the columns `left` and `right` around x do not read as c (or lie
      off the image), every column joined to x by a run of c lies strictly
      between them. */
  lemma RunInsideBounds(buf: seq<byte>, w: int, h: int, c: Color, y: int, x: int, left: int, right: int)
    requires IsImage(buf, w, h) && 0 <= y < h && 0 <= x < w
    requires -1 <= left <= x <= right <= w
    requires left >= 0 ==> FromBgra(At(buf, w, h, Point(left, y))) != c
    requires right < w ==> FromBgra(At(buf, w, h, Point(right, y))) != c
    ensures forall i :: 0 <= i < w && SameRun(buf, w, h, c, y, i, x) ==> left < i < right
  {
  }

  /** Painting the span strictly between such columns paints the whole run
      through x. */
  lemma RunPaintedOfSpan(buf: seq<byte>, after: seq<byte>, w: int, h: int, c: Color, y: int, x: int, left: int, right: int, paint: Paint)
    requires IsImage(buf, w, h) && IsImage(after, w, h) && 0 <= y < h && 0 <= x < w && PaintOk(paint)
    requires -1 <= left <= x <= right <= w
    requires left >= 0 ==> FromBgra(At(buf, w, h, Point(left, y))) != c
    requires right < w ==> FromBgra(At(buf, w, h, Point(right, y))) != c
    requires PaintedSpan(after, w, h, y, left + 1, right, paint)
    ensures RunPainted(buf, after, w, h, c, y, x, paint)
  {
    RunInsideBounds(buf, w, h, c, y, x, left, right);
  }

  /** Whether a recorded span covers q: it lies on q's row and q's column
      is between its two ends, both included. */
  predicate Covered(used: seq<(Point, Point)>, q: Point) {
    exists k :: 0 <= k < |used| && used[k].0.y == q.y && used[k].0.x <= q.x <= used[k].1.x
  }

  /** The points of the image that no recorded span covers. */
  ghost function Uncovered(w: int, h: int, used: seq<(Point, Point)>): set<Point> {
    set x, y | 0 <= x < w && 0 <= y < h && !Covered(used, Point(x, y)) :: Point(x, y)
  }

  /** Recording more spans keeps every covered point covered. */
  lemma CoveredGrows(used: seq<(Point, Point)>, more: seq<(Point, Point)>, q: Point)
    requires used <= more
    ensures Covered(used, q) ==> Covered(more, q)
  {
    if Covered(used, q) {
      var k :| 0 <= k < |used| && used[k].0.y == q.y && used[k].0.x <= q.x <= used[k].1.x;
      assert more[k] == used[k];
    }
  }

  /** Recording more spans can only shrink the uncovered points. */
  lemma UncoveredShrinks(w: int, h: int, used: seq<(Point, Point)>, more: seq<(Point, Point)>)
    requires used <= more
    ensures Uncovered(w, h, more) <= Uncovered(w, h, used)
  {
    forall q {
      CoveredGrows(used, more, q);
    }
  }

  /** The source's wrap of an image coordinate: add n until the value is
      not negative, then take the remainder. The result is the
      mathematical remainder of v by n. */
  method Wrap(v: int, n: int) returns (r: int)
    requires n > 0
    ensures 0 <= r < n && r == v % n
  {
    r := v;
    while r < 0
      invariant r % n == v % n
      decreases -r
    {
      ModPeriod(r, n);
      r := r + n;
    }
    r := r % n;
  }

  /** The texel FillImage paints at (i, y): the offset from the centre,
      shifted by half the image and wrapped into it. */
  method SampleTexel(pic: Picture, center: Point, i: int, y: int) returns (texel: Bgra)
    requires WellFormed(pic)
    ensures texel == Sample(pic, center, Point(i, y))
  {
    var nextX := i - center.x + pic.width / 2;
    var nextY := y - center.y + pic.height / 2;
    nextX := Wrap(nextX, pic.width);
    nextY := Wrap(nextY, pic.height);
    IndexInRange(pic.width, pic.height, Point(nextX, nextY));
    texel := pic.texels[nextY * pic.width + nextX];
  }

  /** The eight neighbour offsets, in the order the border search pushes
      them. */
  const Directions: seq<(int, int)> := [(1, 0), (1, 1), (0, 1), (-1, 1), (-1, 0), (-1, -1), (0, -1), (1, -1)]

  /** Two distinct points that touch by a side or a corner. */
  predicate Adjacent(p: Point, q: Point) {
    p != q && -1 <= q.x - p.x <= 1 && -1 <= q.y - p.y <= 1
  }

  /** The neighbours of p, one per direction, in push order. */
  function Around(p: Point): (r: seq<Point>)
    ensures |r| == 8
    ensures forall k :: 0 <= k < 8 ==> r[k] == Point(p.x + Directions[k].0, p.y + Directions[k].1)
  {
    seq(8, k requires 0 <= k < 8 => Point(p.x + Directions[k].0, p.y + Directions[k].1))
  }

  /** The eight directions reach exactly the adjacent points. */
  lemma AroundIsAdjacent(p: Point, q: Point)
    ensures q in Around(p) <==> Adjacent(p, q)
  {
    var r := Around(p);
    if Adjacent(p, q) {
      var dx, dy := q.x - p.x, q.y - p.y;
      var k := if dy == 0 then (if dx == 1 then 0 else 4)
        else if dy == 1 then 2 - dx
        else 6 + dx;
      assert r[k] == q;
    }
  }

  /** GetBorderPoints' inner loop: pushes the neighbours of p in
      direction order, so the last direction ends on top. */
  method PushAround(stack: seq<Point>, p: Point) returns (r: seq<Point>)
    ensures r == stack + Around(p)
  {
    r := stack;
    for k := 0 to 8
      invariant r == stack + Around(p)[..k]
    {
      r := r + [Point(p.x + Directions[k].0, p.y + Directions[k].1)];
    }
  }

  /** All points of a w by h image. */
  ghost function Grid(w: int, h: int): set<Point> {
    set i, j | 0 <= i < w && 0 <= j < h :: Point(i, j)
  }

  lemma InGrid(w: int, h: int, q: Point)
    requires InBounds(w, h, q)
    ensures q in Grid(w, h)
  {
    assert q == Point(q.x, q.y);
  }

  /** `border` lists the 8-connected region of `cand` around `start`,
      from `start` and without repetition: it is empty exactly when `start`
      is not in `cand`, each later point touches an earlier one, and every
      point of `cand` touching the region is in it. */
  ghost predicate IsRegion(start: Point, border: seq<Point>, cand: set<Point>) {
    && (|border| > 0 <==> start in cand)
    && (|border| > 0 ==> border[0] == start)
    && (forall i, j :: 0 <= i < j < |border| ==> border[i] != border[j])
    && (forall k :: 0 <= k < |border| ==> border[k] in cand)
    && Linked(border)
    && (forall p, q :: p in border && Adjacent(p, q) && q in cand ==> q in border)
  }

  /** Two listings of the region around the same start hold the same
      points: the region is determined by the start and the candidates,
      whatever order a search lists it in. */
  lemma RegionUnique(start: Point, a: seq<Point>, b: seq<Point>, cand: set<Point>)
    requires IsRegion(start, a, cand) && IsRegion(start, b, cand)
    ensures forall q :: q in a <==> q in b
  {
    RegionIncluded(start, a, b, cand, |a|);
    RegionIncluded(start, b, a, cand, |b|);
  }

  lemma {:induction false} RegionIncluded(start: Point, a: seq<Point>, b: seq<Point>, cand: set<Point>, n: nat)
    requires IsRegion(start, a, cand) && IsRegion(start, b, cand) && n <= |a|
    ensures forall k :: 0 <= k < n ==> a[k] in b
  {
    if n > 0 {
      RegionIncluded(start, a, b, cand, n - 1);
      var k := n - 1;
      if k > 0 {
        assert Reaches(a, k);
        var j :| 0 <= j < k && Adjacent(a[j], a[k]);
        assert a[j] in b;
      }
    }
  }

  /** The state of the border search: the listed points are the labelled
      set, distinct, all candidates, listed from `start` with each later one
      touching an earlier one; every stacked point is `start` or touches a
      listed one; and every candidate touching a listed point is listed or
      still stacked. */
  ghost predicate Searching(start: Point, stack: seq<Point>, labeled: set<Point>, result: seq<Point>, cand: set<Point>) {
    && Listed(labeled, result, cand)
    && (|result| > 0 ==> result[0] == start)
    && (|result| == 0 ==> stack == [start] || start !in cand)
    && Linked(result)
    && Traced(start, stack, result)
    && Closed(labeled, stack, cand)
  }

  /** The labelled set is exactly the listed points; they are distinct
      candidates. */
  ghost predicate Listed(labeled: set<Point>, result: seq<Point>, cand: set<Point>) {
    && (forall p :: p in labeled <==> p in result)
    && (forall i, j :: 0 <= i < j < |result| ==> result[i] != result[j])
    && (forall k :: 0 <= k < |result| ==> result[k] in cand)
  }

  /** Each point after the first touches an earlier one. */
  ghost predicate Linked(s: seq<Point>) {
    forall k :: 0 < k < |s| ==> Reaches(s, k)
  }

  /** s[k] touches a point listed before it. */
  ghost predicate Reaches(s: seq<Point>, k: int)
    requires 0 <= k < |s|
  {
    exists j :: 0 <= j < k && Adjacent(s[j], s[k])
  }

  /** Every stacked point is the start or touches a listed point. */
  ghost predicate Traced(start: Point, stack: seq<Point>, result: seq<Point>) {
    forall i :: 0 <= i < |stack| ==> stack[i] == start || exists j :: 0 <= j < |result| && Adjacent(result[j], stack[i])
  }

  /** Every candidate touching a labelled point is labelled or stacked. */
  ghost predicate Closed(labeled: set<Point>, stack: seq<Point>, cand: set<Point>) {
    forall p, q :: p in labeled && Adjacent(p, q) ==> q in labeled || q in stack || q !in cand
  }

  /** Popping a point that is already labelled or not a candidate keeps the
      search state. */
  lemma SearchSkip(start: Point, stack: seq<Point>, labeled: set<Point>, result: seq<Point>, cand: set<Point>)
    requires Searching(start, stack, labeled, result, cand) && |stack| > 0
    requires stack[|stack| - 1] in labeled || stack[|stack| - 1] !in cand
    ensures Searching(start, stack[..|stack| - 1], labeled, result, cand)
  {
    var rest := stack[..|stack| - 1];
    assert stack == rest + [stack[|stack| - 1]];
    forall i | 0 <= i < |rest|
      ensures rest[i] == stack[i]
    {
    }
    forall p, q | p in labeled && Adjacent(p, q) && q !in labeled && q in cand
      ensures q in rest
    {
      assert q in stack;
    }
  }

  /** Listing a popped candidate that is new and pushing its eight
      neighbours keeps the search state. */
  lemma SearchVisit(start: Point, stack: seq<Point>, labeled: set<Point>, result: seq<Point>, cand: set<Point>)
    requires Searching(start, stack, labeled, result, cand) && |stack| > 0
    requires stack[|stack| - 1] !in labeled && stack[|stack| - 1] in cand
    ensures var point := stack[|stack| - 1];
      Searching(start, stack[..|stack| - 1] + Around(point), labeled + {point}, result + [point], cand)
  {
    var point := stack[|stack| - 1];
    if |result| == 0 {
      assert point == start;
    }
    VisitListed(labeled, result, cand, point);
    VisitLinked(start, stack, result);
    VisitTraced(start, stack, result);
    VisitClosed(labeled, stack, cand);
  }

  lemma VisitListed(labeled: set<Point>, result: seq<Point>, cand: set<Point>, point: Point)
    requires Listed(labeled, result, cand) && point !in labeled && point in cand
    ensures Listed(labeled + {point}, result + [point], cand)
  {
    var result' := result + [point];
    forall i, j | 0 <= i < j < |result'|
      ensures result'[i] != result'[j]
    {
      if j == |result| {
        assert result[i] in labeled;
      }
    }
  }

  lemma VisitLinked(start: Point, stack: seq<Point>, result: seq<Point>)
    requires Linked(result) && Traced(start, stack, result) && |stack| > 0
    requires |result| > 0 ==> result[0] == start && stack[|stack| - 1] != start
    ensures Linked(result + [stack[|stack| - 1]])
  {
    var point := stack[|stack| - 1];
    var result' := result + [point];
    forall k | 0 < k < |result'|
      ensures Reaches(result', k)
    {
      if k < |result| {
        assert Reaches(result, k);
        var j :| 0 <= j < k && Adjacent(result[j], result[k]);
        assert result'[j] == result[j] && result'[k] == result[k];
      } else {
        var j :| 0 <= j < |result| && Adjacent(result[j], point);
        assert result'[j] == result[j] && result'[k] == point;
      }
    }
  }

  lemma VisitTraced(start: Point, stack: seq<Point>, result: seq<Point>)
    requires Traced(start, stack, result) && |stack| > 0
    ensures var point := stack[|stack| - 1];
      Traced(start, stack[..|stack| - 1] + Around(point), result + [point])
  {
    var point := stack[|stack| - 1];
    var rest := stack[..|stack| - 1];
    var stack', result' := rest + Around(point), result + [point];
    forall i | 0 <= i < |stack'|
      ensures stack'[i] == start || exists j :: 0 <= j < |result'| && Adjacent(result'[j], stack'[i])
    {
      if i < |rest| {
        assert stack'[i] == stack[i];
        if stack[i] != start {
          var j :| 0 <= j < |result| && Adjacent(result[j], stack[i]);
          assert result'[j] == result[j];
        }
      } else {
        assert stack'[i] in Around(point);
        AroundIsAdjacent(point, stack'[i]);
        assert result'[|result|] == point;
      }
    }
  }

  lemma VisitClosed(labeled: set<Point>, stack: seq<Point>, cand: set<Point>)
    requires Closed(labeled, stack, cand) && |stack| > 0
    ensures var point := stack[|stack| - 1];
      Closed(labeled + {point}, stack[..|stack| - 1] + Around(point), cand)
  {
    var point := stack[|stack| - 1];
    var rest := stack[..|stack| - 1];
    assert stack == rest + [point];
    forall p, q | p in labeled + {point} && Adjacent(p, q) && q !in labeled + {point} && q in cand
      ensures q in rest + Around(point)
    {
      AroundIsAdjacent(p, q);
      if p != point {
        assert q in stack && q != point;
      }
    }
  }

  /** With the stack empty, the listed points are the whole region. */
  lemma SearchDone(start: Point, labeled: set<Point>, result: seq<Point>, cand: set<Point>)
    requires Searching(start, [], labeled, result, cand)
    ensures IsRegion(start, result, cand)
  {
  }

  class Drawer {
    const width: nat
    const height: nat
    /** Bytes per row: four per pixel. */
    const stride: nat
    /** The bitmap that drawing writes. */
    const bitmap: array<byte>
    /** The snapshot that GetPixel reads. */
    const pixels: array<byte>
    /** The colour a fill spreads over. */
    var base: Color

    predicate Valid() {
      && stride == 4 * width
      && bitmap.Length == 4 * (width * height)
      && pixels.Length == bitmap.Length
      && bitmap != pixels
    }

    /** A w by h white bitmap, an all-zero snapshot and a white base. */
    constructor (w: nat, h: nat)
      ensures Valid() && width == w && height == h
      ensures fresh(bitmap) && fresh(pixels)
      ensures forall k :: 0 <= k < bitmap.Length ==> bitmap[k] == 255
      ensures forall k :: 0 <= k < pixels.Length ==> pixels[k] == 0
      ensures base == White
    {
      width, height, stride := w, h, 4 * w;
      base := White;
      bitmap := new byte[4 * (w * h)](_ => 0);
      pixels := new byte[4 * (w * h)](_ => 0);
      new;
      Clear();
    }

    /** Paints every byte of the bitmap 255: every pixel becomes opaque
        white. */
    method Clear()
      requires Valid()
      modifies bitmap
      ensures forall k :: 0 <= k < bitmap.Length ==> bitmap[k] == 255
      ensures forall q :: InBounds(width, height, q) ==> FromBgra(At(bitmap[..], width, height, q)) == White
    {
      ghost var n := width * height;
      ghost var p := 0;
      var i := 0;
      while i < bitmap.Length
        invariant 0 <= p <= n && i == 4 * p
        invariant forall k :: 0 <= k < i ==> bitmap[k] == 255
      {
        bitmap[i] := 255;
        bitmap[i + 1] := 255;
        bitmap[i + 2] := 255;
        bitmap[i + 3] := 255;
        i := i + 4;
        p := p + 1;
      }
      forall q | InBounds(width, height, q)
        ensures FromBgra(At(bitmap[..], width, height, q)) == White
      {
        IndexInRange(width, height, q);
        assert At(bitmap[..], width, height, q) == [255, 255, 255, 255];
      }
    }

    /** Copies the bitmap into the snapshot. */
    method SetPixels()
      requires Valid()
      modifies pixels
      ensures pixels[..] == bitmap[..]
    {
      forall k | 0 <= k < pixels.Length {
        pixels[k] := bitmap[k];
      }
    }

    /** The snapshot colour at byte offset y*stride + 4x. Its bytes are the
        four stored ones, and for a point inside the image it is the colour
        of that point's pixel. */
    function GetPixel(x: int, y: int): (c: Color)
      reads pixels
      requires Valid()
      requires 0 <= y * stride + 4 * x && y * stride + 4 * x + 4 <= pixels.Length
      ensures IsByteColor(c)
      ensures ToBgra(c) == pixels[y * stride + 4 * x..y * stride + 4 * x + 4]
      ensures InBounds(width, height, Point(x, y)) ==> c == FromBgra(At(pixels[..], width, height, Point(x, y)))
    {
      var index := y * stride + 4 * x;
      OffsetIsIndex(width, x, y);
      var c := Color(pixels[index] as real, pixels[index + 1] as real, pixels[index + 2] as real, pixels[index + 3] as real);
      assert c == FromBgra(pixels[index..index + 4]);
      ToFromBgra(pixels[index..index + 4]);
      c
    }

    /** The snapshot colour of an in-bounds point. */
    function ColorOf(q: Point): (c: Color)
      reads pixels
      requires Valid() && InBounds(width, height, q)
      ensures c == FromBgra(At(pixels[..], width, height, q))
    {
      OffsetInRange(width, height, q.x, q.y);
      GetPixel(q.x, q.y)
    }

    /** Takes the base colour from the snapshot at (x, y), then refreshes
        the snapshot. */
    method SetBaseColor(x: int, y: int)
      requires Valid()
      requires 0 <= y * stride + 4 * x && y * stride + 4 * x + 4 <= pixels.Length
      modifies this, pixels
      ensures base == old(GetPixel(x, y))
      ensures pixels[..] == bitmap[..]
    {
      base := GetPixel(x, y);
      SetPixels();
    }

    /** Writes one pixel of the bitmap. */
    method DrawPoint(x: int, y: int, data: Bgra)
      requires Valid() && InBounds(width, height, Point(x, y))
      modifies bitmap
      ensures bitmap[..] == Plot(old(bitmap[..]), width, height, Point(x, y), data)
    {
      IndexInRange(width, height, Point(x, y));
      var i := 4 * Index(width, Point(x, y));
      bitmap[i] := data[0];
      bitmap[i + 1] := data[1];
      bitmap[i + 2] := data[2];
      bitmap[i + 3] := data[3];
      assert bitmap[..] == WritePixel(old(bitmap[..]), Index(width, Point(x, y)), data);
    }

    /** The thick point: every pixel at offset (j, i) from the centre with
        |i|, |j| <= r and i*i + j*j <= r*r, where r = thickness / 2, takes
        the colour; nothing else changes. */
    method DrawDisc(center: Point, color: Color, thickness: int)
      requires Valid()
      requires forall q :: InDisc(center, TruncDiv(thickness, 2), q) ==> InBounds(width, height, q)
      modifies bitmap
      ensures forall q :: InBounds(width, height, q) ==>
        At(bitmap[..], width, height, q) ==
          if InDisc(center, TruncDiv(thickness, 2), q) then ToBgra(color) else At(old(bitmap[..]), width, height, q)
    {
      var radius := TruncDiv(thickness, 2);
      ghost var before := bitmap[..];
      var i := -radius;
      while i <= radius
        invariant radius >= 0 ==> -radius <= i <= radius + 1
        invariant forall q :: InBounds(width, height, q) ==>
          At(bitmap[..], width, height, q) ==
            if InDisc(center, radius, q) && q.y - center.y < i then ToBgra(color) else At(before, width, height, q)
      {
        var j := -radius;
        while j <= radius
          invariant -radius <= j <= radius + 1
          invariant forall q :: InBounds(width, height, q) ==>
            At(bitmap[..], width, height, q) ==
              if InDisc(center, radius, q) && (q.y - center.y < i || (q.y - center.y == i && q.x - center.x < j))
              then ToBgra(color) else At(before, width, height, q)
        {
          if j * j + i * i <= radius * radius {
            var p := Point(center.x + j, center.y + i);
            assert InDisc(center, radius, p);
            ghost var prev := bitmap[..];
            DrawPoint(center.x + j, center.y + i, ToBgra(color));
            forall q | InBounds(width, height, q) {
              PlotAt(prev, width, height, p, ToBgra(color), q);
            }
          } else {
            assert !InDisc(center, radius, Point(center.x + j, center.y + i));
          }
          j := j + 1;
        }
        i := i + 1;
      }
    }

    /** Paints the pixels x1 .. x2-1 of row y. */
    method DrawLine(x1: int, y: int, x2: int, data: Bgra)
      requires Valid()
      requires 0 <= x1 <= x2 <= width && 0 <= y < height
      modifies bitmap
      ensures LineDrawn(old(bitmap[..]), bitmap[..], width, height, y, x1, x2, Solid(data))
    {
      ghost var before := bitmap[..];
      var x := x1;
      while x < x2
        invariant x1 <= x <= x2
        invariant LineDrawn(before, bitmap[..], width, height, y, x1, x, Solid(data))
      {
        LineDrawnStep(before, bitmap[..], width, height, y, x1, x, Solid(data));
        DrawPoint(x, y, data);
        x := x + 1;
      }
    }

    /** Bresenham's line from (x1, y1) to (x2, y2): after the source's swap
        of the endpoints it walks one pixel per column (gentle slopes) or
        per row (steep ones). */
    method DrawLineBresenham(x1: int, y1: int, x2: int, y2: int, data: Bgra)
      requires Valid()
      requires AllInBounds(width, height, Bresenham.Pixels(x1, y1, x2, y2))
      modifies bitmap
      ensures bitmap[..] == PaintPoints(old(bitmap[..]), width, height, Bresenham.Pixels(x1, y1, x2, y2), data)
    {
      var dy: int := Bresenham.Abs(y2 - y1);
      var dx: int := Bresenham.Abs(x2 - x1);
      var xa, ya, xb, yb := x1, y1, x2, y2;
      if dy <= dx {
        var di := 2 * dy - dx;
        if ya > yb {
          ya, yb := yb, ya;
          xa, xb := xb, xa;
        }
        var step := 1;
        if xa > xb {
          step := -1;
        }
        assert Bresenham.Start(x1, y1, x2, y2) == Point(xa, ya) && Bresenham.Finish(x1, y1, x2, y2) == Point(xb, yb);
        GentleLoop(xa, ya, di, xb, step, dx, dy, data);
      } else {
        var di := 2 * dx - dy;
        if xa > xb {
          ya, yb := yb, ya;
          xa, xb := xb, xa;
        }
        var step := 1;
        if ya > yb {
          step := -1;
        }
        assert Bresenham.Start(x1, y1, x2, y2) == Point(xa, ya) && Bresenham.Finish(x1, y1, x2, y2) == Point(xb, yb);
        SteepLoop(xa, ya, di, yb, step, dx, dy, data);
      }
    }

    /** The loop for |dy| <= |dx|: one pixel per column from xa to xb, the
        error term moving before each pixel. */
    method GentleLoop(xa: int, ya: int, di0: int, xb: int, step: int, dx: int, dy: int, data: Bgra)
      requires Valid() && (step == 1 || step == -1)
      requires AllInBounds(width, height, Bresenham.Shallow(xa, ya, di0, xb, step, dx, dy))
      modifies bitmap
      ensures bitmap[..] == PaintPoints(old(bitmap[..]), width, height, Bresenham.Shallow(xa, ya, di0, xb, step, dx, dy), data)
    {
      ghost var all := Bresenham.Shallow(xa, ya, di0, xb, step, dx, dy);
      ghost var before := bitmap[..];
      ghost var drawn: seq<Point> := [];
      var di := di0;
      var y := ya;
      var x := xa;
      while x * step <= xb * step
        invariant drawn + Bresenham.Shallow(x, y, di, xb, step, dx, dy) == all
        invariant AllInBounds(width, height, drawn)
        invariant bitmap[..] == PaintPoints(before, width, height, drawn, data)
        decreases if step == 1 then xb - x + 1 else x - xb + 1
      {
        Bresenham.NotPastIsProduct(x, xb, step);
        ghost var rest := Bresenham.Shallow(x, y, di, xb, step, dx, dy);
        Bresenham.ShallowUnfold(x, y, di, xb, step, dx, dy);
        if di < 0 {
          di := di + 2 * dy;
        } else {
          y := y + 1;
          di := di + 2 * (dy - dx);
        }
        ghost var next := Bresenham.Shallow(x + step, y, di, xb, step, dx, dy);
        Bresenham.Advance(drawn, rest, Point(x, y), next, all);
        PaintPointsSnoc(before, width, height, drawn, Point(x, y), data);
        DrawPoint(x, y, data);
        drawn := drawn + [Point(x, y)];
        x := x + step;
      }
      Bresenham.NotPastIsProduct(x, xb, step);
      assert drawn == all;
    }

    /** The loop for |dy| > |dx|: one pixel per row from ya to yb. */
    method SteepLoop(xa: int, ya: int, di0: int, yb: int, step: int, dx: int, dy: int, data: Bgra)
      requires Valid() && (step == 1 || step == -1)
      requires AllInBounds(width, height, Bresenham.Steep(xa, ya, di0, yb, step, dx, dy))
      modifies bitmap
      ensures bitmap[..] == PaintPoints(old(bitmap[..]), width, height, Bresenham.Steep(xa, ya, di0, yb, step, dx, dy), data)
    {
      ghost var all := Bresenham.Steep(xa, ya, di0, yb, step, dx, dy);
      ghost var before := bitmap[..];
      ghost var drawn: seq<Point> := [];
      var di := di0;
      var x := xa;
      var y := ya;
      while y * step <= yb * step
        invariant drawn + Bresenham.Steep(x, y, di, yb, step, dx, dy) == all
        invariant AllInBounds(width, height, drawn)
        invariant bitmap[..] == PaintPoints(before, width, height, drawn, data)
        decreases if step == 1 then yb - y + 1 else y - yb + 1
      {
        Bresenham.NotPastIsProduct(y, yb, step);
        ghost var rest := Bresenham.Steep(x, y, di, yb, step, dx, dy);
        Bresenham.SteepUnfold(x, y, di, yb, step, dx, dy);
        if di < 0 {
          di := di + 2 * dx;
        } else {
          x := x + 1;
          di := di + 2 * (dx - dy);
        }
        ghost var next := Bresenham.Steep(x, y + step, di, yb, step, dx, dy);
        Bresenham.Advance(drawn, rest, Point(x, y), next, all);
        PaintPointsSnoc(before, width, height, drawn, Point(x, y), data);
        DrawPoint(x, y, data);
        drawn := drawn + [Point(x, y)];
        y := y + step;
      }
      Bresenham.NotPastIsProduct(y, yb, step);
      assert drawn == all;
    }

    /** Draws the closed outline: a Bresenham segment from every vertex to
        the next, the last one back to the first (OutlinePainted says which
        pixels that changes). */
    method DrawPolygon(points: seq<Point>, color: Color)
      requires Valid()
      requires forall i :: 0 <= i < |points| ==> AllInBounds(width, height, SideAt(points, i))
      modifies bitmap
      ensures AllInBounds(width, height, Outline(points, |points|))
      ensures bitmap[..] == PaintPoints(old(bitmap[..]), width, height, Outline(points, |points|), ToBgra(color))
    {
      ghost var before := bitmap[..];
      for i := 0 to |points|
        invariant AllInBounds(width, height, Outline(points, i))
        invariant bitmap[..] == PaintPoints(before, width, height, Outline(points, i), ToBgra(color))
      {
        DrawSide(points, i, ToBgra(color));
        PaintPointsAppend(before, width, height, Outline(points, i), SideAt(points, i), ToBgra(color));
      }
    }

    /** One pass of DrawPolygon's loop: the segment from vertex i to the
        next one. */
    method DrawSide(points: seq<Point>, i: int, data: Bgra)
      requires Valid() && 0 <= i < |points|
      requires AllInBounds(width, height, SideAt(points, i))
      modifies bitmap
      ensures bitmap[..] == PaintPoints(old(bitmap[..]), width, height, SideAt(points, i), data)
    {
      var previous := points[i];
      var current := points[(i + 1) % |points|];
      DrawLineBresenham(previous.x, previous.y, current.x, current.y, data);
    }

    /** Fill's early-return test at (x, y): outside the image, or the
        snapshot there already shows the fill colour, black, or anything but
        the base colour. */
    predicate FillStops(x: int, y: int, color: Color)
      reads this, pixels
      requires Valid()
    {
      !InBounds(width, height, Point(x, y))
      || ColorOf(Point(x, y)) == color || ColorOf(Point(x, y)) == Black || ColorOf(Point(x, y)) != base
    }

    /** Walks left from x while the snapshot shows the base colour: every
        column after the result up to x is base, and the result is -1 or a
        column that is not. */
    method BaseRunLeft(x: int, y: int) returns (left: int)
      requires Valid() && InBounds(width, height, Point(x, y))
      ensures -1 <= left <= x
      ensures left >= 0 ==> FromBgra(At(pixels[..], width, height, Point(left, y))) != base
      ensures BaseRun(pixels[..], width, height, base, y, left + 1, x + 1)
    {
      left := x;
      while left >= 0 && ColorOf(Point(left, y)) == base
        invariant -1 <= left <= x
        invariant BaseRun(pixels[..], width, height, base, y, left + 1, x + 1)
      {
        left := left - 1;
      }
    }

    /** Walks right from x while the snapshot shows the base colour: every
        column from x up to before the result is base, and the result is the
        width or a column that is not. */
    method BaseRunRight(x: int, y: int) returns (right: int)
      requires Valid() && InBounds(width, height, Point(x, y))
      ensures x <= right <= width
      ensures right < width ==> FromBgra(At(pixels[..], width, height, Point(right, y))) != base
      ensures BaseRun(pixels[..], width, height, base, y, x, right)
    {
      right := x;
      while right < width && ColorOf(Point(right, y)) == base
        invariant x <= right <= width
        invariant BaseRun(pixels[..], width, height, base, y, x, right)
      {
        right := right + 1;
      }
    }

    /** Scanline flood fill. Unless the early-return test holds, it paints
        the base-coloured run of row y through x, refreshes the snapshot and
        fills the rows above and below every painted column. */
    method Fill(x: int, y: int, color: Color)
      requires Valid() && (IsByteColor(color) || FromBgra(ToBgra(color)) != base)
      modifies bitmap, pixels
      decreases BaseSet(bitmap[..], width, height, base), if pixels[..] == bitmap[..] then 0 else 1, 2
      ensures old(FillStops(x, y, color)) ==> bitmap[..] == old(bitmap[..]) && pixels[..] == old(pixels[..])
      ensures !old(FillStops(x, y, color)) ==> pixels[..] == bitmap[..]
      ensures FillStops(x, y, color)
      ensures Recolors(old(bitmap[..]), bitmap[..], width, height, Solid(ToBgra(color)))
      ensures ChangesOnlyBase(old(bitmap[..]), bitmap[..], old(pixels[..]), width, height, base)
      ensures old(pixels[..] == bitmap[..]) ==> KeepsBlack(old(bitmap[..]), bitmap[..], width, height)
      ensures !old(FillStops(x, y, color)) ==> RunPainted(old(pixels[..]), bitmap[..], width, height, base, y, x, Solid(ToBgra(color)))
    {
      if x < 0 || x >= width || y < 0 || y >= height {
        return;
      }
      OffsetInRange(width, height, x, y);
      var seed := GetPixel(x, y);
      if seed == color || seed == Black || seed != base {
        return;
      }
      if IsByteColor(color) {
        FromToBgra(color);
      }
      FillSeed(x, y, color);
    }

    /** Fill past its early-return test: paints the run through the seed,
        then fills the rows above and below it. */
    method FillSeed(x: int, y: int, color: Color)
      requires Valid() && FromBgra(ToBgra(color)) != base
      requires InBounds(width, height, Point(x, y)) && !FillStops(x, y, color)
      modifies bitmap, pixels
      decreases BaseSet(bitmap[..], width, height, base), if pixels[..] == bitmap[..] then 0 else 1, 1
      ensures pixels[..] == bitmap[..]
      ensures FillStops(x, y, color)
      ensures Recolors(old(bitmap[..]), bitmap[..], width, height, Solid(ToBgra(color)))
      ensures ChangesOnlyBase(old(bitmap[..]), bitmap[..], old(pixels[..]), width, height, base)
      ensures old(pixels[..] == bitmap[..]) ==> KeepsBlack(old(bitmap[..]), bitmap[..], width, height)
      ensures RunPainted(old(pixels[..]), bitmap[..], width, height, base, y, x, Solid(ToBgra(color)))
    {
      ghost var entry := bitmap[..];
      ghost var entrySnap := pixels[..];
      var leftX, rightX := PaintRun(x, y, color);
      ghost var drawn := bitmap[..];
      FillNeighbours(leftX + 1, rightX, y, color);
      SpanThenStep(entry, entrySnap, drawn, bitmap[..], width, height, base, y, x, leftX, rightX, Solid(ToBgra(color)));
    }

    /** Fill's two scans, its line and its SetPixels: paints the maximal
        base run through the seed (x, y) and refreshes the snapshot. The
        seed turns from base to the colour, so on a fresh snapshot the set
        of base pixels strictly shrinks. */
    method PaintRun(x: int, y: int, color: Color) returns (leftX: int, rightX: int)
      requires Valid() && FromBgra(ToBgra(color)) != base && InBounds(width, height, Point(x, y))
      requires FromBgra(At(pixels[..], width, height, Point(x, y))) == base
      modifies bitmap, pixels
      ensures MaximalRun(old(pixels[..]), width, height, base, y, x, leftX, rightX)
      ensures LineDrawn(old(bitmap[..]), bitmap[..], width, height, y, leftX + 1, rightX, Solid(ToBgra(color)))
      ensures pixels[..] == bitmap[..]
      ensures BaseSet(bitmap[..], width, height, base) <= old(BaseSet(bitmap[..], width, height, base))
      ensures old(pixels[..] == bitmap[..]) ==> BaseSet(bitmap[..], width, height, base) < old(BaseSet(bitmap[..], width, height, base))
    {
      ghost var entry := bitmap[..];
      ghost var entrySnap := pixels[..];
      leftX := BaseRunLeft(x, y);
      rightX := BaseRunRight(x, y);
      assert MaximalRun(entrySnap, width, height, base, y, x, leftX, rightX);
      DrawLine(leftX + 1, y, rightX, ToBgra(color));
      SetPixels();
      ghost var drawn := bitmap[..];
      DrawnSpan(entry, drawn, entrySnap, width, height, base, y, leftX + 1, x, rightX, Solid(ToBgra(color)));
      BaseSetShrinks(entry, drawn, width, height, base, ToBgra(color));
      assert At(drawn, width, height, Point(x, y)) == ToBgra(color);
      assert entry == entrySnap ==> Point(x, y) in BaseSet(entry, width, height, base) - BaseSet(drawn, width, height, base);
    }

    /** Fill's loop over the painted columns lo .. hi-1: fills the row above
        and the row below each of them, on a fresh snapshot. */
    method FillNeighbours(lo: int, hi: int, y: int, color: Color)
      requires Valid() && FromBgra(ToBgra(color)) != base && lo <= hi
      requires pixels[..] == bitmap[..]
      modifies bitmap, pixels
      decreases BaseSet(bitmap[..], width, height, base), 0, 3
      ensures pixels[..] == bitmap[..]
      ensures BaseSet(bitmap[..], width, height, base) <= old(BaseSet(bitmap[..], width, height, base))
      ensures Recolors(old(bitmap[..]), bitmap[..], width, height, Solid(ToBgra(color)))
      ensures ChangesOnlyBase(old(bitmap[..]), bitmap[..], old(bitmap[..]), width, height, base)
    {
      ghost var start := bitmap[..];
      for i := lo to hi
        invariant pixels[..] == bitmap[..]
        invariant BaseSet(bitmap[..], width, height, base) <= BaseSet(start, width, height, base)
        invariant Recolors(start, bitmap[..], width, height, Solid(ToBgra(color)))
        invariant ChangesOnlyBase(start, bitmap[..], start, width, height, base)
      {
        ghost var before := bitmap[..];
        Fill(i, y + 1, color);
        BaseSetShrinks(before, bitmap[..], width, height, base, ToBgra(color));
        RecolorsTransitive(start, before, bitmap[..], width, height, Solid(ToBgra(color)));
        ChangesOnlyBaseTransitive(start, before, bitmap[..], start, width, height, base);
        ghost var middle := bitmap[..];
        Fill(i, y - 1, color);
        BaseSetShrinks(middle, bitmap[..], width, height, base, ToBgra(color));
        RecolorsTransitive(start, middle, bitmap[..], width, height, Solid(ToBgra(color)));
        ChangesOnlyBaseTransitive(start, middle, bitmap[..], start, width, height, base);
      }
    }

    /** FillImage's early-return test at (x, y): a recorded span covers it,
        it is outside the image, or the snapshot shows black there. */
    predicate FillImageStops(used: seq<(Point, Point)>, x: int, y: int)
      reads this, pixels
      requires Valid()
    {
      Covered(used, Point(x, y)) || !InBounds(width, height, Point(x, y)) || ColorOf(Point(x, y)) == Black
    }

    /** Fills from (x, y) with `pic` tiled around `center`, starting with no
        recorded spans. */
    method FillImage(x: int, y: int, pic: Picture, center: Point)
      requires Valid() && WellFormed(pic)
      modifies bitmap, pixels
      ensures old(FillImageStops([], x, y)) ==> bitmap[..] == old(bitmap[..]) && pixels[..] == old(pixels[..])
      ensures !old(FillImageStops([], x, y)) ==> pixels[..] == bitmap[..]
      ensures Recolors(old(bitmap[..]), bitmap[..], width, height, Tiled(pic, center))
      ensures ChangesOnlyBase(old(bitmap[..]), bitmap[..], old(pixels[..]), width, height, base)
      ensures base == Black ==> bitmap[..] == old(bitmap[..])
      ensures old(pixels[..] == bitmap[..]) ==> KeepsBlack(old(bitmap[..]), bitmap[..], width, height)
      ensures !old(FillImageStops([], x, y)) ==> RunPainted(old(pixels[..]), bitmap[..], width, height, base, y, x, Tiled(pic, center))
    {
      var used := FillImageFrom(x, y, [], pic, center);
    }

    /** The recursive image fill. Unless the early-return test holds, it
        records the base run of row y through x, paints it with the image,
        refreshes the snapshot, and continues from every column of the run
        on the row below, then on the row above. */
    method FillImageFrom(x: int, y: int, used: seq<(Point, Point)>, pic: Picture, center: Point) returns (used': seq<(Point, Point)>)
      requires Valid() && WellFormed(pic)
      modifies bitmap, pixels
      decreases Uncovered(width, height, used), 1
      ensures used <= used'
      ensures old(FillImageStops(used, x, y)) ==> used' == used && bitmap[..] == old(bitmap[..]) && pixels[..] == old(pixels[..])
      ensures !old(FillImageStops(used, x, y)) ==> pixels[..] == bitmap[..] && Covered(used', Point(x, y))
      ensures Recolors(old(bitmap[..]), bitmap[..], width, height, Tiled(pic, center))
      ensures ChangesOnlyBase(old(bitmap[..]), bitmap[..], old(pixels[..]), width, height, base)
      ensures base == Black ==> bitmap[..] == old(bitmap[..])
      ensures old(pixels[..] == bitmap[..]) ==> KeepsBlack(old(bitmap[..]), bitmap[..], width, height)
      ensures !old(FillImageStops(used, x, y)) ==> RunPainted(old(pixels[..]), bitmap[..], width, height, base, y, x, Tiled(pic, center))
    {
      if Covered(used, Point(x, y)) {
        return used;
      }
      if x < 0 || x >= width || y < 0 || y >= height {
        return used;
      }
      OffsetInRange(width, height, x, y);
      if GetPixel(x, y) == Black {
        return used;
      }
      ghost var entry := bitmap[..];
      ghost var entrySnap := pixels[..];
      var leftX, rightX := PaintImageRun(x, y, pic, center);
      used' := used + [(Point(leftX, y), Point(rightX, y))];
      ghost var drawn := bitmap[..];
      if base == Black {
        assert leftX == x && rightX == x;
      }
      assert used'[|used|] == (Point(leftX, y), Point(rightX, y));
      assert Covered(used', Point(x, y));
      UncoveredShrinks(width, height, used, used');
      assert Point(x, y) in Uncovered(width, height, used) - Uncovered(width, height, used');
      ghost var recorded := used';
      used' := FillImageRows(leftX + 1, rightX, y + 1, used', pic, center);
      ghost var middle := bitmap[..];
      ghost var below := used';
      UncoveredShrinks(width, height, recorded, below);
      used' := FillImageRows(leftX + 1, rightX, y - 1, used', pic, center);
      CoveredGrows(recorded, used', Point(x, y));
      BaseStepTransitive(drawn, middle, bitmap[..], width, height, base, Tiled(pic, center));
      SpanThenStep(entry, entrySnap, drawn, bitmap[..], width, height, base, y, x, leftX, rightX, Tiled(pic, center));
    }

    /** FillImageFrom's two scans, its first loop and its SetPixels: paints
        the maximal base run through (x, y) with the image and refreshes the
        snapshot. */
    method PaintImageRun(x: int, y: int, pic: Picture, center: Point) returns (leftX: int, rightX: int)
      requires Valid() && WellFormed(pic) && InBounds(width, height, Point(x, y))
      modifies bitmap, pixels
      ensures MaximalRun(old(pixels[..]), width, height, base, y, x, leftX, rightX)
      ensures LineDrawn(old(bitmap[..]), bitmap[..], width, height, y, leftX + 1, rightX, Tiled(pic, center))
      ensures leftX + 1 >= rightX ==> bitmap[..] == old(bitmap[..])
      ensures pixels[..] == bitmap[..]
    {
      ghost var entrySnap := pixels[..];
      leftX := BaseRunLeft(x, y);
      rightX := BaseRunRight(x, y);
      assert MaximalRun(entrySnap, width, height, base, y, x, leftX, rightX);
      DrawImageSpan(leftX + 1, rightX, y, pic, center);
      SetPixels();
    }

    /** FillImageFrom's first loop: paints columns lo .. hi-1 of row y with
        the image texel that lands on each. */
    method DrawImageSpan(lo: int, hi: int, y: int, pic: Picture, center: Point)
      requires Valid() && WellFormed(pic) && 0 <= y < height && 0 <= lo && hi <= width
      modifies bitmap
      ensures LineDrawn(old(bitmap[..]), bitmap[..], width, height, y, lo, hi, Tiled(pic, center))
      ensures lo >= hi ==> bitmap[..] == old(bitmap[..])
    {
      ghost var before := bitmap[..];
      var i := lo;
      while i < hi
        invariant lo <= i && (lo <= hi ==> i <= hi) && (hi < lo ==> i == lo)
        invariant LineDrawn(before, bitmap[..], width, height, y, lo, i, Tiled(pic, center))
        invariant i == lo ==> bitmap[..] == before
      {
        var texel := SampleTexel(pic, center, i, y);
        LineDrawnStep(before, bitmap[..], width, height, y, lo, i, Tiled(pic, center));
        DrawPoint(i, y, texel);
        i := i + 1;
      }
    }

    /** FillImageFrom's second and third loops: continues the fill from every
        column lo .. hi-1 of `row`, on a fresh snapshot. */
    method FillImageRows(lo: int, hi: int, row: int, used: seq<(Point, Point)>, pic: Picture, center: Point) returns (used': seq<(Point, Point)>)
      requires Valid() && WellFormed(pic) && pixels[..] == bitmap[..]
      modifies bitmap, pixels
      decreases Uncovered(width, height, used), 2
      ensures used <= used'
      ensures pixels[..] == bitmap[..]
      ensures Recolors(old(bitmap[..]), bitmap[..], width, height, Tiled(pic, center))
      ensures ChangesOnlyBase(old(bitmap[..]), bitmap[..], old(bitmap[..]), width, height, base)
      ensures base == Black ==> bitmap[..] == old(bitmap[..])
    {
      ghost var start := bitmap[..];
      used' := used;
      var i := lo;
      while i < hi
        invariant used <= used'
        invariant pixels[..] == bitmap[..]
        invariant Recolors(start, bitmap[..], width, height, Tiled(pic, center))
        invariant ChangesOnlyBase(start, bitmap[..], start, width, height, base)
        invariant base == Black ==> bitmap[..] == start
        decreases hi - i
      {
        ghost var before := bitmap[..];
        ghost var usedBefore := used';
        UncoveredShrinks(width, height, used, used');
        used' := FillImageFrom(i, row, used', pic, center);
        assert used <= usedBefore <= used';
        RecolorsTransitive(start, before, bitmap[..], width, height, Tiled(pic, center));
        ChangesOnlyBaseTransitive(start, before, bitmap[..], start, width, height, base);
        i := i + 1;
      }
    }

    /** Where the border search starts: x itself when x <= 0; otherwise the
        scan walks left from x until it reaches a black pixel of row y or
        column 0. Every column it passes is not black. */
    function LeftToBlack(x: int, y: int): (left: int)
      reads pixels
      requires Valid()
      requires x <= 0 || (0 <= y * stride && y * stride + 4 * x + 4 <= pixels.Length)
      ensures left <= x && (x <= 0 ==> left == x)
      ensures x > 0 ==> 0 <= left && (left > 0 ==> GetPixel(left, y) == Black)
      ensures forall k :: left < k <= x ==> GetPixel(k, y) != Black
      decreases x
    {
      if x > 0 && GetPixel(x, y) != Black then LeftToBlack(x - 1, y) else x
    }

    /** GetBorderPoints' first loop. */
    method ScanToBlack(x: int, y: int) returns (left: int)
      requires Valid()
      requires x <= 0 || (0 <= y * stride && y * stride + 4 * x + 4 <= pixels.Length)
      ensures left == LeftToBlack(x, y)
    {
      left := x;
      while left > 0 && GetPixel(left, y) != Black
        invariant left <= x && (x > 0 ==> left >= 0)
        invariant left > 0 ==> 0 <= y * stride && y * stride + 4 * left + 4 <= pixels.Length
        invariant LeftToBlack(left, y) == LeftToBlack(x, y)
      {
        left := left - 1;
      }
    }

    /** A pixel the border search accepts: inside the image and within
        distance 50 of black. */
    predicate BorderCandidate(q: Point)
      reads pixels
      requires Valid()
    {
      InBounds(width, height, q) && IsSimilar(ColorOf(q), Black, 50.0)
    }

    /** The in-bounds points the border search accepts. */
    ghost function Candidates(): (cand: set<Point>)
      reads pixels
      requires Valid()
      ensures forall q :: q in cand <==> BorderCandidate(q)
    {
      forall q | BorderCandidate(q)
        ensures q in Grid(width, height)
      {
        InGrid(width, height, q);
      }
      set q | q in Grid(width, height) && BorderCandidate(q)
    }

    /** `border` is the 8-connected region of border candidates around
        `start`. */
    ghost predicate IsBorder(start: Point, border: seq<Point>)
      reads pixels
      requires Valid()
    {
      IsRegion(start, border, Candidates())
    }

    /** The 8-connected search of GetBorderPoints: a stack of points to
        visit, seeded with the scan's start, and the set of points already
        listed. A popped point that is new and a border candidate is listed
        and its eight neighbours are pushed. */
    method GetBorderPoints(x: int, y: int) returns (result: seq<Point>)
      requires Valid()
      requires x <= 0 || (0 <= y * stride && y * stride + 4 * x + 4 <= pixels.Length)
      ensures IsBorder(Point(LeftToBlack(x, y), y), result)
    {
      var leftX := ScanToBlack(x, y);
      var start := Point(leftX, y);
      ghost var cand := Candidates();
      var stack := [start];
      var labeled: set<Point> := {};
      result := [];
      while |stack| > 0
        invariant Searching(start, stack, labeled, result, cand)
        decreases Grid(width, height) - labeled, |stack|
      {
        ghost var pending := stack;
        var point := stack[|stack| - 1];
        stack := stack[..|stack| - 1];
        if point !in labeled && BorderCandidate(point) {
          assert point in cand;
          SearchVisit(start, pending, labeled, result, cand);
          InGrid(width, height, point);
          result := result + [point];
          labeled := labeled + {point};
          stack := PushAround(stack, point);
        } else {
          SearchSkip(start, pending, labeled, result, cand);
        }
      }
      SearchDone(start, labeled, result, cand);
    }

    /** Draws every point of the border region found from (x, y) in the
        given colour; the region is handed back for the caller's
        reasoning. */
    method Highlight(x: int, y: int, color: Color) returns (ghost border: seq<Point>)
      requires Valid()
      requires x <= 0 || (0 <= y * stride && y * stride + 4 * x + 4 <= pixels.Length)
      modifies bitmap
      ensures IsBorder(Point(LeftToBlack(x, y), y), border)
      ensures AllInBounds(width, height, border)
      ensures bitmap[..] == PaintPoints(old(bitmap[..]), width, height, border, ToBgra(color))
    {
      var points := GetBorderPoints(x, y);
      border := points;
      DrawPoints(points, ToBgra(color));
    }

    /** Highlight's loop: draws the points in order. */
    method DrawPoints(points: seq<Point>, data: Bgra)
      requires Valid() && AllInBounds(width, height, points)
      modifies bitmap
      ensures bitmap[..] == PaintPoints(old(bitmap[..]), width, height, points, data)
    {
      ghost var before := bitmap[..];
      for k := 0 to |points|
        invariant bitmap[..] == PaintPoints(before, width, height, points[..k], data)
      {
        assert points[..k + 1] == points[..k] + [points[k]];
        PaintPointsSnoc(before, width, height, points[..k], points[k], data);
        DrawPoint(points[k].x, points[k].y, data);
      }
      assert points[..|points|] == points;
    }
  }
}
