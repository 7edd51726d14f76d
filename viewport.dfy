/** The map from a pixel of the window to a point of the complex plane.

    Each axis is a linear interpolation: the pixel's fraction of the window
    extent, `x / width`, scales the width of the plane region and is added
    to its lower bound.  Floats are modelled as reals. */
module Viewport {
  import opened Escape

  /** The rectangle `[xMin, xMax] x [yMin, yMax]` of the complex plane that
      the window shows. */
  datatype PlaneRegion = PlaneRegion(xMin: real, xMax: real, yMin: real, yMax: real)

  predicate NonDegenerate(region: PlaneRegion) {
    region.xMin < region.xMax && region.yMin < region.yMax
  }

  /** `p as f64 / extent as f64`. */
  function Fraction(p: nat, extent: nat): (t: real)
    requires extent > 0
  {
    p as real / extent as real
  }

  /** `lo + (hi - lo) * t`. */
  function Lerp(lo: real, hi: real, t: real): (v: real) {
    lo + (hi - lo) * t
  }

  /** The plane point `cx + cy*i` drawn at pixel `(x, y)` of a
      `width` x `height` window. */
  function MapPixel(region: PlaneRegion, width: nat, height: nat, x: nat, y: nat): (c: Complex)
    requires 0 < width && 0 < height
    ensures x == 0 ==> c.re == region.xMin
    ensures y == 0 ==> c.im == region.yMin
  {
    Complex(Lerp(region.xMin, region.xMax, Fraction(x, width)),
            Lerp(region.yMin, region.yMax, Fraction(y, height)))
  }

  /** The inverse of one axis of the map: the pixel coordinate, as a real,
      at which the value `v` is drawn. */
  function PixelOf(lo: real, hi: real, extent: nat, v: real): (p: real)
    requires lo != hi
  {
    (v - lo) / (hi - lo) * extent as real
  }

  /** A pixel strictly inside the extent has a fraction in `[0, 1)`, and the
      fraction grows strictly with the pixel. */
  lemma FractionBounds(p: nat, q: nat, extent: nat)
    requires p < extent
    ensures 0.0 <= Fraction(p, extent) < 1.0
    ensures q < p ==> Fraction(q, extent) < Fraction(p, extent)
  {
    var e := extent as real;
    assert Fraction(p, extent) * e == p as real;
    assert Fraction(q, extent) * e == q as real;
  }

  lemma ProductPositive(a: real, b: real)
    requires 0.0 < a && 0.0 < b
    ensures 0.0 < a * b
  {
  }

  lemma Distribute(d: real, s: real, t: real)
    ensures d * (t - s) == d * t - d * s
  {
  }

  /** Interpolation preserves strict order along the axis. */
  lemma LerpIncreasing(lo: real, hi: real, s: real, t: real)
    requires lo < hi && s < t
    ensures Lerp(lo, hi, s) < Lerp(lo, hi, t)
  {
    var d := hi - lo;
    ProductPositive(d, t - s);
    Distribute(d, s, t);
  }

  lemma LerpBounds(lo: real, hi: real, s: real)
    requires lo < hi && 0.0 <= s < 1.0
    ensures lo <= Lerp(lo, hi, s) < hi
  {
    assert Lerp(lo, hi, 0.0) == lo && Lerp(lo, hi, 1.0) == hi;
    LerpIncreasing(lo, hi, s, 1.0);
    if 0.0 < s {
      LerpIncreasing(lo, hi, 0.0, s);
    }
  }

  /** Pixel (0, 0) is drawn at the corner `xMin + yMin*i`. */
  lemma MapPixelOrigin(region: PlaneRegion, width: nat, height: nat)
    requires 0 < width && 0 < height
    ensures MapPixel(region, width, height, 0, 0) == Complex(region.xMin, region.yMin)
  {
    assert Fraction(0, width) == 0.0 && Fraction(0, height) == 0.0;
  }

  /** Every pixel of the window is drawn at a point of the half-open region
      `[xMin, xMax) x [yMin, yMax)`: the upper bounds are never reached. */
  lemma MapPixelInRegion(region: PlaneRegion, width: nat, height: nat, x: nat, y: nat)
    requires NonDegenerate(region) && x < width && y < height
    ensures region.xMin <= MapPixel(region, width, height, x, y).re < region.xMax
    ensures region.yMin <= MapPixel(region, width, height, x, y).im < region.yMax
  {
    FractionBounds(x, 0, width);
    FractionBounds(y, 0, height);
    LerpBounds(region.xMin, region.xMax, Fraction(x, width));
    LerpBounds(region.yMin, region.yMax, Fraction(y, height));
  }

  /** Pixels further right (further down) are drawn at points with a larger
      real (imaginary) part, so distinct pixels never share a point. */
  lemma MapPixelStrictlyIncreasing(region: PlaneRegion, width: nat, height: nat,
                                   x: nat, y: nat, x': nat, y': nat)
    requires NonDegenerate(region) && x < x' < width && y < y' < height
    ensures MapPixel(region, width, height, x, y).re < MapPixel(region, width, height, x', y).re
    ensures MapPixel(region, width, height, x, y).im < MapPixel(region, width, height, x, y').im
  {
    FractionBounds(x', x, width);
    FractionBounds(y', y, height);
    LerpIncreasing(region.xMin, region.xMax, Fraction(x, width), Fraction(x', width));
    LerpIncreasing(region.yMin, region.yMax, Fraction(y, height), Fraction(y', height));
  }

  /** Undoing the map recovers the pixel on both axes. */
  lemma MapPixelInverse(region: PlaneRegion, width: nat, height: nat, x: nat, y: nat)
    requires NonDegenerate(region) && 0 < width && 0 < height
    ensures PixelOf(region.xMin, region.xMax, width, MapPixel(region, width, height, x, y).re) == x as real
    ensures PixelOf(region.yMin, region.yMax, height, MapPixel(region, width, height, x, y).im) == y as real
  {
    LerpInverse(region.xMin, region.xMax, x, width);
    LerpInverse(region.yMin, region.yMax, y, height);
  }

  lemma LerpInverse(lo: real, hi: real, p: nat, extent: nat)
    requires lo < hi && 0 < extent
    ensures PixelOf(lo, hi, extent, Lerp(lo, hi, Fraction(p, extent))) == p as real
  {
    var d := hi - lo;
    var t := Fraction(p, extent);
    assert Lerp(lo, hi, t) - lo == d * t;
    assert d * t / d == t;
    assert t * extent as real == p as real;
  }
}
