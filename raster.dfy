/** Pure views of the drawer's BGRA byte buffers. Pixel p occupies bytes
    4p .. 4p+3 (blue, green, red, alpha); the point (x, y) of an image w
    pixels wide is pixel y*w + x, so its first byte is y*stride + 4x with
    stride = 4w. */
module Raster {
  import opened Colors
  import opened Geometry

  predicate InBounds(w: int, h: int, q: Point) {
    0 <= q.x < w && 0 <= q.y < h
  }

  /** The pixel number of a point in a row-major image w pixels wide. */
  function Index(w: int, q: Point): int {
    q.y * w + q.x
  }

  lemma MulMono(a: int, b: int, w: int)
    requires 0 <= a <= b && 0 <= w
    ensures 0 <= a * w <= b * w
  {
  }

  /** Points inside the image have pixel numbers inside the image. */
  lemma IndexInRange(w: int, h: int, q: Point)
    requires InBounds(w, h, q)
    ensures 0 <= Index(w, q) < w * h
  {
    MulMono(q.y + 1, h, w);
    assert (q.y + 1) * w == q.y * w + w;
    MulMono(0, q.y, w);
    assert h * w == w * h;
  }

  /** Different points of the image have different pixel numbers. */
  lemma IndexInjective(w: int, h: int, q1: Point, q2: Point)
    requires InBounds(w, h, q1) && InBounds(w, h, q2)
    requires Index(w, q1) == Index(w, q2)
    ensures q1 == q2
  {
    DivModUnique(Index(w, q1), w, q1.y, q1.x);
    DivModUnique(Index(w, q2), w, q2.y, q2.x);
  }

  /** The source's byte offset y*stride + 4x is four times the pixel number. */
  lemma OffsetIsIndex(w: int, x: int, y: int)
    ensures y * (4 * w) + 4 * x == 4 * Index(w, Point(x, y))
  {
    assert y * (4 * w) == 4 * (y * w);
  }

  /** The four bytes at the offset of an in-bounds point lie inside the
      buffer. */
  lemma OffsetInRange(w: int, h: int, x: int, y: int)
    requires InBounds(w, h, Point(x, y))
    ensures 0 <= y * (4 * w) + 4 * x && y * (4 * w) + 4 * x + 4 <= 4 * (w * h)
  {
    OffsetIsIndex(w, x, y);
    IndexInRange(w, h, Point(x, y));
  }

  /** The four bytes of pixel p. */
  function PixelBytes(buf: seq<byte>, p: int): Bgra
    requires 0 <= p && 4 * p + 4 <= |buf|
  {
    buf[4 * p..4 * p + 4]
  }

  /** `buf` with pixel p overwritten by `data`; every other pixel keeps its
      bytes. */
  function WritePixel(buf: seq<byte>, p: int, data: Bgra): (r: seq<byte>)
    requires 0 <= p && 4 * p + 4 <= |buf|
    ensures |r| == |buf|
    ensures PixelBytes(r, p) == data
    ensures forall q :: 0 <= q && 4 * q + 4 <= |buf| && q != p ==> PixelBytes(r, q) == PixelBytes(buf, q)
  {
    var r := buf[..4 * p] + data + buf[4 * p + 4..];
    assert forall k :: 0 <= k < |buf| ==> r[k] == if 4 * p <= k < 4 * p + 4 then data[k - 4 * p] else buf[k];
    assert r[4 * p..4 * p + 4] == data;
    r
  }

  /** A buffer holding an image of w by h pixels. */
  predicate IsImage(buf: seq<byte>, w: int, h: int) {
    |buf| == 4 * (w * h)
  }

  /** The bytes of the pixel at point q. */
  function At(buf: seq<byte>, w: int, h: int, q: Point): Bgra
    requires IsImage(buf, w, h) && InBounds(w, h, q)
  {
    IndexInRange(w, h, q);
    PixelBytes(buf, Index(w, q))
  }

  /** `buf` with the pixel at point q overwritten by `data`. */
  function Plot(buf: seq<byte>, w: int, h: int, q: Point, data: Bgra): (r: seq<byte>)
    requires IsImage(buf, w, h) && InBounds(w, h, q)
    ensures IsImage(r, w, h)
  {
    IndexInRange(w, h, q);
    WritePixel(buf, Index(w, q), data)
  }

  /** Plotting q gives q's pixel the new bytes and leaves every other pixel
      of the image as it was. */
  lemma PlotAt(buf: seq<byte>, w: int, h: int, q: Point, data: Bgra, s: Point)
    requires IsImage(buf, w, h) && InBounds(w, h, q) && InBounds(w, h, s)
    ensures At(Plot(buf, w, h, q, data), w, h, s) == if s == q then data else At(buf, w, h, s)
  {
    IndexInRange(w, h, q);
    IndexInRange(w, h, s);
    if s != q && Index(w, s) == Index(w, q) {
      IndexInjective(w, h, s, q);
    }
  }

  predicate AllInBounds(w: int, h: int, pts: seq<Point>) {
    forall k :: 0 <= k < |pts| ==> InBounds(w, h, pts[k])
  }

  /** Plots every point of `pts` in order with the same bytes. */
  function PaintPoints(buf: seq<byte>, w: int, h: int, pts: seq<Point>, data: Bgra): (r: seq<byte>)
    requires IsImage(buf, w, h) && AllInBounds(w, h, pts)
    ensures IsImage(r, w, h)
    decreases |pts|
  {
    if pts == [] then buf
    else Plot(PaintPoints(buf, w, h, pts[..|pts| - 1], data), w, h, pts[|pts| - 1], data)
  }

  /** After painting a list, the pixels of its points hold `data` and every
      other pixel is unchanged. */
  lemma {:induction false} PaintPointsAt(buf: seq<byte>, w: int, h: int, pts: seq<Point>, data: Bgra, s: Point)
    requires IsImage(buf, w, h) && AllInBounds(w, h, pts) && InBounds(w, h, s)
    ensures At(PaintPoints(buf, w, h, pts, data), w, h, s) == if s in pts then data else At(buf, w, h, s)
    decreases |pts|
  {
    if pts != [] {
      var front := pts[..|pts| - 1];
      PaintPointsAt(buf, w, h, front, data, s);
      PlotAt(PaintPoints(buf, w, h, front, data), w, h, pts[|pts| - 1], data, s);
      assert s in pts <==> s in front || s == pts[|pts| - 1];
    }
  }

  /** Painting one more point plots it over what the list painted. */
  lemma PaintPointsSnoc(buf: seq<byte>, w: int, h: int, pts: seq<Point>, q: Point, data: Bgra)
    requires IsImage(buf, w, h) && AllInBounds(w, h, pts) && InBounds(w, h, q)
    ensures AllInBounds(w, h, pts + [q])
    ensures PaintPoints(buf, w, h, pts + [q], data) == Plot(PaintPoints(buf, w, h, pts, data), w, h, q, data)
  {
    assert (pts + [q])[..|pts|] == pts;
  }

  /** Painting two lists one after the other is painting their
      concatenation. */
  lemma {:induction false} PaintPointsAppend(buf: seq<byte>, w: int, h: int, a: seq<Point>, b: seq<Point>, data: Bgra)
    requires IsImage(buf, w, h) && AllInBounds(w, h, a) && AllInBounds(w, h, b)
    ensures AllInBounds(w, h, a + b)
    ensures PaintPoints(buf, w, h, a + b, data) == PaintPoints(PaintPoints(buf, w, h, a, data), w, h, b, data)
    decreases |b|
  {
    if b == [] {
      assert a + b == a;
    } else {
      var b' := b[..|b| - 1];
      PaintPointsAppend(buf, w, h, a, b', data);
      assert (a + b)[..|a + b| - 1] == a + b';
      assert (a + b)[|a + b| - 1] == b[|b| - 1];
    }
  }

  /** A read-only source image of `width` by `height` texels, row by row. */
  datatype Picture = Picture(width: int, height: int, texels: seq<Bgra>)

  predicate WellFormed(pic: Picture) {
    pic.width > 0 && pic.height > 0 && |pic.texels| == pic.width * pic.height
  }

  /** The texel in column i of row j. */
  function Texel(pic: Picture, i: int, j: int): Bgra
    requires WellFormed(pic) && 0 <= i < pic.width && 0 <= j < pic.height
  {
    IndexInRange(pic.width, pic.height, Point(i, j));
    pic.texels[Index(pic.width, Point(i, j))]
  }

  /** The texel that lands on point q when the image is laid with its middle
      texel on `center` and repeated in both directions. */
  function Sample(pic: Picture, center: Point, q: Point): Bgra
    requires WellFormed(pic)
  {
    Texel(pic, (q.x - center.x + pic.width / 2) % pic.width, (q.y - center.y + pic.height / 2) % pic.height)
  }

  /** The middle texel lands on the centre. */
  lemma SampleAtCenter(pic: Picture, center: Point)
    requires WellFormed(pic)
    ensures Sample(pic, center, center) == Texel(pic, pic.width / 2, pic.height / 2)
  {
    DivModUnique(pic.width / 2, pic.width, 0, pic.width / 2);
    DivModUnique(pic.height / 2, pic.height, 0, pic.height / 2);
  }

  /** Moving one image width across or one image height down gives the same
      texel: the image tiles the plane. */
  lemma SampleRepeats(pic: Picture, center: Point, q: Point)
    requires WellFormed(pic)
    ensures Sample(pic, center, Point(q.x + pic.width, q.y)) == Sample(pic, center, q)
    ensures Sample(pic, center, Point(q.x, q.y + pic.height)) == Sample(pic, center, q)
  {
    var a, b := q.x - center.x + pic.width / 2, q.y - center.y + pic.height / 2;
    ModPeriod(a, pic.width);
    ModPeriod(b, pic.height);
  }

  lemma ModPeriod(a: int, n: int)
    requires n > 0
    ensures (a + n) % n == a % n
  {
    var q, r := a / n, a % n;
    assert a == q * n + r;
    assert a + n == (q + 1) * n + r by {
      assert (q + 1) * n == q * n + n;
    }
    DivModUnique(a + n, n, q + 1, r);
  }

  /** Quotient and remainder are the only pair with a = q*n + r and
      0 <= r < n. */
  lemma DivModUnique(a: int, n: int, q: int, r: int)
    requires n > 0 && 0 <= r < n && a == q * n + r
    ensures a / n == q && a % n == r
  {
    var d := q - a / n;
    assert a == (a / n) * n + a % n;
    assert d * n == a % n - r by {
      assert d * n == q * n - (a / n) * n;
    }
    if d > 0 {
      MulMono(1, d, n);
    } else if d < 0 {
      MulMono(1, -d, n);
    }
  }

  /** What a fill paints: the same bytes everywhere, or a tiled image. */
  datatype Paint = Solid(data: Bgra) | Tiled(pic: Picture, center: Point)

  predicate PaintOk(paint: Paint) {
    paint.Tiled? ==> WellFormed(paint.pic)
  }

  /** The bytes `paint` puts at point q. */
  function PaintAt(paint: Paint, q: Point): Bgra
    requires PaintOk(paint)
  {
    match paint
    case Solid(data) => data
    case Tiled(pic, center) => Sample(pic, center, q)
  }

  /** Every pixel either keeps its bytes or takes the paint's bytes for it. */
  ghost predicate Recolors(before: seq<byte>, after: seq<byte>, w: int, h: int, paint: Paint)
    requires IsImage(before, w, h) && IsImage(after, w, h) && PaintOk(paint)
  {
    forall q :: InBounds(w, h, q) ==> At(after, w, h, q) == At(before, w, h, q) || At(after, w, h, q) == PaintAt(paint, q)
  }

  lemma RecolorsTransitive(a: seq<byte>, b: seq<byte>, c: seq<byte>, w: int, h: int, paint: Paint)
    requires IsImage(a, w, h) && IsImage(b, w, h) && IsImage(c, w, h) && PaintOk(paint)
    requires Recolors(a, b, w, h, paint) && Recolors(b, c, w, h, paint)
    ensures Recolors(a, c, w, h, paint)
  {
  }

  /** The points of the image whose pixel reads back as `base`. */
  function BaseSet(buf: seq<byte>, w: int, h: int, base: Color): set<Point>
    requires IsImage(buf, w, h)
  {
    set x, y | 0 <= x < w && 0 <= y < h && FromBgra(At(buf, w, h, Point(x, y))) == base :: Point(x, y)
  }

  /** When every pixel either keeps its bytes or takes bytes that do not read
      back as `base`, no pixel newly reads as `base`. */
  lemma BaseSetShrinks(before: seq<byte>, after: seq<byte>, w: int, h: int, base: Color, data: Bgra)
    requires IsImage(before, w, h) && IsImage(after, w, h)
    requires FromBgra(data) != base
    requires Recolors(before, after, w, h, Solid(data))
    ensures BaseSet(after, w, h, base) <= BaseSet(before, w, h, base)
  {
    forall s | s in BaseSet(after, w, h, base)
      ensures s in BaseSet(before, w, h, base)
    {
      assert InBounds(w, h, s);
    }
  }
}
