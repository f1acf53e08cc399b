/** The inverse-radial warp: each destination pixel is normalised to the
    square [-1, 1) x [-1, 1), pulled toward (or pushed from) the centre by
    the factor 1 / (1 + k r), where r is its distance from the centre, and
    mapped back to the pixel grid by taking the floor. */
module Warp {
  import opened Effects

  /** What the model knows of the square root the page calls: it maps 0 to 0
      and is never negative on non-negative arguments. */
  ghost predicate IsSqrt(sqrt: real -> real)
  {
    && sqrt(0.0) == 0.0
    && forall t :: 0.0 <= t ==> 0.0 <= sqrt(t)
  }

  /** The source position a destination pixel samples. When the warp
      factor's denominator is zero the page computes a non-finite coordinate
      (an infinity, or NaN at a zero component), which no bounds test accepts. */
  datatype Sample = NonFinite | At(sx: int, sy: int)

  /** Pixel coordinate `v` of an axis of `extent` pixels, as a point of [-1, 1). */
  function Normalise(v: nat, extent: nat): (n: real)
    requires v < extent
    ensures -1.0 <= n < 1.0
  {
    (v as real / extent as real) * 2.0 - 1.0
  }

  /** A point of the normalised axis back on the pixel grid. */
  function Unnormalise(n: real, extent: nat): int
  {
    ((n + 1.0) * extent as real / 2.0).Floor
  }

  /** The scaling 1 / (1 + k r) for warp strength `k` at distance `radius`. */
  function WarpFactor(k: real, radius: real): real
    requires 1.0 + k * radius != 0.0
  {
    1.0 / (1.0 + k * radius)
  }

  /** The source position sampled by destination pixel (x, y) of a
      width x height image under warp strength `k`. */
  function SourceCoord(x: nat, y: nat, width: nat, height: nat, k: real, sqrt: real -> real): Sample
    requires x < width && y < height
  {
    WarpPoint(Normalise(x, width), Normalise(y, height), width, height, k, sqrt)
  }

  /** The source position for the normalised point (nx, ny). */
  function WarpPoint(nx: real, ny: real, width: nat, height: nat, k: real, sqrt: real -> real): Sample
  {
    var radius := sqrt(nx * nx + ny * ny);
    if 1.0 + k * radius == 0.0 then NonFinite
    else
      var factor := WarpFactor(k, radius);
      At(Unnormalise(nx * factor, width), Unnormalise(ny * factor, height))
  }

  /** The bounds guard: a finite sample inside the image. */
  predicate Accepts(s: Sample, width: int, height: int)
  {
    s.At? && 0 <= s.sx < width && 0 <= s.sy < height
  }

  /** Mapping a pixel coordinate to the normalised axis and back returns it. */
  lemma NormaliseRoundTrip(v: nat, extent: nat)
    requires v < extent
    ensures Unnormalise(Normalise(v, extent), extent) == v
  {
    var e := extent as real;
    assert (v as real / e) * e == v as real;
    assert (Normalise(v, extent) + 1.0) * e / 2.0 == v as real;
  }

  /** Every point of [-1, 1) lands on a pixel of the axis. */
  lemma UnnormaliseInRange(n: real, extent: nat)
    requires -1.0 <= n < 1.0
    requires 0 < extent
    ensures 0 <= Unnormalise(n, extent) < extent
  {
    var e := extent as real;
    var t := (n + 1.0) * e / 2.0;
    assert 0.0 <= (n + 1.0) * e;
    assert (n + 1.0) * e < 2.0 * e;
    assert 0.0 <= t < e;
  }

  /** With a denominator above 0 the factor is positive; it is at most 1
      (the point is pulled toward the centre) exactly when k r >= 0, and it
      is exactly 1 (no movement) exactly when k r == 0. */
  lemma WarpFactorRange(k: real, radius: real)
    requires 0.0 < 1.0 + k * radius
    ensures 0.0 < WarpFactor(k, radius)
    ensures WarpFactor(k, radius) <= 1.0 <==> 0.0 <= k * radius
    ensures WarpFactor(k, radius) == 1.0 <==> k * radius == 0.0
  {
    var d := 1.0 + k * radius;
    var f := WarpFactor(k, radius);
    assert f * d == 1.0;
    assert (1.0 - f) * d == k * radius;
    assert 0.0 < f;
    assert 0.0 < 1.0 - f <==> 0.0 < k * radius;
  }

  /** A factor in (0, 1] keeps a point of [-1, 1) inside [-1, 1). */
  lemma ScaledPointInside(n: real, factor: real)
    requires -1.0 <= n < 1.0
    requires 0.0 < factor <= 1.0
    ensures -1.0 <= n * factor < 1.0
  {
    if 0.0 <= n {
      assert n * factor <= n * 1.0;
    } else {
      assert n * 1.0 <= n * factor;
    }
  }

  /** Without warp every destination pixel samples its own position. */
  lemma NoWarpSamplesItself(x: nat, y: nat, width: nat, height: nat, sqrt: real -> real)
    requires x < width && y < height
    ensures SourceCoord(x, y, width, height, 0.0, sqrt) == At(x, y)
  {
    var nx, ny := Normalise(x, width), Normalise(y, height);
    var radius := sqrt(nx * nx + ny * ny);
    assert WarpFactor(0.0, radius) == 1.0;
    NormaliseRoundTrip(x, width);
    NormaliseRoundTrip(y, height);
  }

  /** With a non-negative warp strength every destination pixel samples a
      pixel inside the image, so the bounds guard always passes. */
  lemma NonNegativeWarpStaysInside(x: nat, y: nat, width: nat, height: nat, k: real, sqrt: real -> real)
    requires x < width && y < height
    requires IsSqrt(sqrt)
    requires 0.0 <= k
    ensures Accepts(SourceCoord(x, y, width, height, k, sqrt), width, height)
  {
    WarpPointInside(Normalise(x, width), Normalise(y, height), width, height, k, sqrt);
  }

  lemma WarpPointInside(nx: real, ny: real, width: nat, height: nat, k: real, sqrt: real -> real)
    requires -1.0 <= nx < 1.0 && -1.0 <= ny < 1.0
    requires 0 < width && 0 < height
    requires IsSqrt(sqrt)
    requires 0.0 <= k
    ensures Accepts(WarpPoint(nx, ny, width, height, k, sqrt), width, height)
  {
    var radius := sqrt(nx * nx + ny * ny);
    RadiusNonNegative(nx, ny, sqrt);
    NonNegativeProduct(k, radius);
    WarpFactorRange(k, radius);
    var factor := WarpFactor(k, radius);
    WarpedAxisInRange(nx, factor, width);
    WarpedAxisInRange(ny, factor, height);
  }

  lemma RadiusNonNegative(nx: real, ny: real, sqrt: real -> real)
    requires IsSqrt(sqrt)
    ensures 0.0 <= sqrt(nx * nx + ny * ny)
  {
    NonNegativeProduct(nx, nx);
    NonNegativeProduct(ny, ny);
  }

  lemma WarpedAxisInRange(n: real, factor: real, extent: nat)
    requires -1.0 <= n < 1.0
    requires 0.0 < factor <= 1.0
    requires 0 < extent
    ensures 0 <= Unnormalise(n * factor, extent) < extent
  {
    ScaledPointInside(n, factor);
    UnnormaliseInRange(n * factor, extent);
  }

  /** The centre pixel of an image with even sides samples itself whatever
      the warp strength. */
  lemma CentreSamplesItself(width: nat, height: nat, k: real, sqrt: real -> real)
    requires 0 < width && width % 2 == 0
    requires 0 < height && height % 2 == 0
    requires IsSqrt(sqrt)
    ensures SourceCoord(width / 2, height / 2, width, height, k, sqrt) == At(width / 2, height / 2)
  {
    var x, y := width / 2, height / 2;
    var nx, ny := Normalise(x, width), Normalise(y, height);
    assert (x as real / width as real) * 2.0 == 1.0;
    assert (y as real / height as real) * 2.0 == 1.0;
    assert nx == 0.0 && ny == 0.0;
    NormaliseRoundTrip(x, width);
    NormaliseRoundTrip(y, height);
  }
}
