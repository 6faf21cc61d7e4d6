/** Colours of the drawing engine: four real channels (blue, green, red,
    alpha) that are clamped to bytes only when written to the pixel buffer. */
module Colors {

  /** A byte of the BGRA pixel buffer. */
  type byte = x: int | 0 <= x < 256

  /** The four bytes blue, green, red, alpha of one pixel. */
  type Bgra = s: seq<byte> | |s| == 4 witness [0, 0, 0, 0]

  /** A colour; alpha defaults to fully opaque. */
  datatype Color = Color(blue: real, green: real, red: real, alpha: real := 255.0)

  const Black: Color := Color(0.0, 0.0, 0.0)
  const Red: Color := Color(0.0, 0.0, 255.0)
  const Green: Color := Color(0.0, 255.0, 0.0)
  const Blue: Color := Color(255.0, 0.0, 0.0)
  const White: Color := Color(255.0, 255.0, 255.0)

  /** A channel value that a byte can hold exactly. */
  predicate IsByte(v: real) {
    0.0 <= v <= 255.0 && v == v.Floor as real
  }

  /** Every channel of `c` is a whole number in 0..255, as for every colour read
      back from the pixel buffer. */
  predicate IsByteColor(c: Color) {
    IsByte(c.blue) && IsByte(c.green) && IsByte(c.red) && IsByte(c.alpha)
  }

  /** Clamps a channel to a byte: negative values become 0, values above 255
      become 255, and values in between are truncated. */
  function Normalize(v: real): (b: byte)
    ensures v < 0.0 ==> b == 0
    ensures v > 255.0 ==> b == 255
    ensures 0.0 <= v <= 255.0 ==> b as real <= v < b as real + 1.0
  {
    if v < 0.0 then 0
    else if v > 255.0 then 255
    else v.Floor
  }

  /** The bytes written to the buffer for a colour, in B, G, R, A order. */
  function ToBgra(c: Color): (data: Bgra)
    ensures data[0] == Normalize(c.blue) && data[1] == Normalize(c.green)
    ensures data[2] == Normalize(c.red) && data[3] == Normalize(c.alpha)
  {
    [Normalize(c.blue), Normalize(c.green), Normalize(c.red), Normalize(c.alpha)]
  }

  /** The colour that reading four buffer bytes produces. */
  function FromBgra(data: Bgra): (c: Color)
    ensures IsByteColor(c)
  {
    Color(data[0] as real, data[1] as real, data[2] as real, data[3] as real)
  }

  lemma NormalizeOfByte(v: real)
    requires IsByte(v)
    ensures Normalize(v) as real == v
  {
  }

  /** Writing a byte-valued colour and reading it back gives the colour again. */
  lemma FromToBgra(c: Color)
    requires IsByteColor(c)
    ensures FromBgra(ToBgra(c)) == c
  {
    NormalizeOfByte(c.blue);
    NormalizeOfByte(c.green);
    NormalizeOfByte(c.red);
    NormalizeOfByte(c.alpha);
  }

  /** Reading four bytes and writing the colour back gives the same bytes. */
  lemma ToFromBgra(data: Bgra)
    ensures ToBgra(FromBgra(data)) == data
  {
    var c := FromBgra(data);
    assert ToBgra(c)[0] == data[0] && ToBgra(c)[1] == data[1];
    assert ToBgra(c)[2] == data[2] && ToBgra(c)[3] == data[3];
  }

  /** Two colours with the same bytes are equal when read back: FromBgra is
      injective, so comparing read-back colours compares bytes. */
  lemma FromBgraInjective(d1: Bgra, d2: Bgra)
    requires FromBgra(d1) == FromBgra(d2)
    ensures d1 == d2
  {
    ToFromBgra(d1);
    ToFromBgra(d2);
  }

  /** Channel-wise difference of B, G, R; the result is opaque. */
  function GetDiffWith(c: Color, other: Color): (r: Color)
    ensures r.blue == c.blue - other.blue && r.green == c.green - other.green
    ensures r.red == c.red - other.red && r.alpha == 255.0
  {
    Color(c.blue - other.blue, c.green - other.green, c.red - other.red)
  }

  /** Channel-wise sum of B, G, R; the result is opaque. */
  function GetSumWith(c: Color, other: Color): (r: Color)
    ensures r.blue == c.blue + other.blue && r.green == c.green + other.green
    ensures r.red == c.red + other.red && r.alpha == 255.0
  {
    Color(c.blue + other.blue, c.green + other.green, c.red + other.red)
  }

  /** B, G, R scaled by k; the result is opaque. */
  function GetMultBy(c: Color, k: real): (r: Color)
    ensures r.blue == c.blue * k && r.green == c.green * k
    ensures r.red == c.red * k && r.alpha == 255.0
  {
    Color(c.blue * k, c.green * k, c.red * k)
  }

  /** Adding back what was subtracted restores B, G, R exactly (no clamping
      happens before the bytes are written); alpha becomes opaque. */
  lemma SumOfDiff(c: Color, other: Color)
    ensures GetSumWith(GetDiffWith(c, other), other) == Color(c.blue, c.green, c.red)
  {
  }

  /** Squared distance of two colours in (R, G, B). */
  function SquaredDistance(c: Color, other: Color): (d: real)
    ensures d >= 0.0
  {
    (c.red - other.red) * (c.red - other.red)
    + (c.green - other.green) * (c.green - other.green)
    + (c.blue - other.blue) * (c.blue - other.blue)
  }

  /** Euclidean RGB distance at most `threshold`; sqrt(d) <= t is d <= t*t for
      t >= 0, so no square root is needed, and a distance is never below a
      negative threshold. */
  predicate IsSimilar(c: Color, other: Color, threshold: real := 50.0) {
    threshold >= 0.0 && SquaredDistance(c, other) <= threshold * threshold
  }

  /** Similarity ignores alpha, is reflexive for a threshold of at least 0
      and empty for a negative one, is symmetric, and bounds every channel
      difference by the threshold. */
  lemma IsSimilarProperties(c: Color, other: Color, threshold: real)
    ensures threshold >= 0.0 <==> IsSimilar(c, c, threshold)
    ensures IsSimilar(c, other, threshold) == IsSimilar(other, c, threshold)
    ensures IsSimilar(c, other, threshold) == IsSimilar(c.(alpha := 0.0), other, threshold)
    ensures IsSimilar(c, other, threshold) ==>
              -threshold <= c.red - other.red <= threshold &&
              -threshold <= c.green - other.green <= threshold &&
              -threshold <= c.blue - other.blue <= threshold
  {
    if IsSimilar(c, other, threshold) {
      var dr, dg, db := c.red - other.red, c.green - other.green, c.blue - other.blue;
      assert dr * dr >= 0.0 && dg * dg >= 0.0 && db * db >= 0.0;
      assert SquaredDistance(c, other) == dr * dr + dg * dg + db * db;
      assert dr * dr <= threshold * threshold && dg * dg <= threshold * threshold && db * db <= threshold * threshold;
      SquareBound(c.red - other.red, threshold);
      SquareBound(c.green - other.green, threshold);
      SquareBound(c.blue - other.blue, threshold);
    }
  }

  lemma SquareBound(a: real, t: real)
    requires t >= 0.0 && a * a <= t * t
    ensures -t <= a <= t
  {
    assert a * a - t * t == (a - t) * (a + t);
    if a > t {
      PositiveProduct(a - t, a + t);
    } else if a < -t {
      PositiveProduct(t - a, -t - a);
    }
  }

  lemma PositiveProduct(x: real, y: real)
    requires x > 0.0 && y > 0.0
    ensures x * y > 0.0
  {
  }

  /** A mutable colour object, as the source's Color class with settable
      channel properties. */
  class ColorCell {
    var blue: real
    var green: real
    var red: real
    var alpha: real

    constructor (c: Color)
      ensures Value() == c
    {
      blue, green, red, alpha := c.blue, c.green, c.red, c.alpha;
    }

    function Value(): Color
      reads this
    {
      Color(blue, green, red, alpha)
    }

    /** Exchanges blue, green and red of two colour objects; each keeps its
        own alpha. */
    static method Swap(c1: ColorCell, c2: ColorCell)
      modifies c1, c2
      ensures c1.Value() == old(c2.Value()).(alpha := old(c1.alpha))
      ensures c2.Value() == old(c1.Value()).(alpha := old(c2.alpha))
    {
      var b, g, r := c1.blue, c1.green, c1.red;
      c1.blue, c1.green, c1.red := c2.blue, c2.green, c2.red;
      c2.blue, c2.green, c2.red := b, g, r;
    }
  }
}
