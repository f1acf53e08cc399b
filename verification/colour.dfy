/** The per-pixel colour pipeline: the sampled red byte is replicated into
    three working channels, remapped for contrast, toned with the fixed sepia
    matrix and blended with the untoned value by the sepia intensity. All
    values are reals; storing them is the job of the byte store. */
module Colour {
  import opened Store
  import opened Effects

  /** Three working colour channels. */
  datatype Rgb = Rgb(r: real, g: real, b: real)

  /** Channel `c` (0 red, 1 green, 2 blue) of a colour. */
  function Channel(colour: Rgb, c: nat): real
    requires c < 3
  {
    if c == 0 then colour.r else if c == 1 then colour.g else colour.b
  }

  /** The three working channels as read from the source pixel: each one is
      the pixel's red byte. */
  function Replicate(red: Byte): Rgb
  {
    Rgb(red as real, red as real, red as real)
  }

  /** The contrast remap of one channel with coefficient `f`, pivoting at 128. */
  function Contrast(f: real, v: real): real
  {
    f * (v - 128.0) + 128.0
  }

  function ContrastRgb(f: real, colour: Rgb): Rgb
  {
    Rgb(Contrast(f, colour.r), Contrast(f, colour.g), Contrast(f, colour.b))
  }

  /** The fixed sepia tone matrix. */
  function SepiaTone(colour: Rgb): Rgb
  {
    Rgb(0.393 * colour.r + 0.769 * colour.g + 0.189 * colour.b,
        0.349 * colour.r + 0.686 * colour.g + 0.168 * colour.b,
        0.272 * colour.r + 0.534 * colour.g + 0.131 * colour.b)
  }

  /** Linear blend of an untoned and a toned channel with weight `s` on the toned one. */
  function Blend(base: real, toned: real, s: real): real
  {
    base * (1.0 - s) + toned * s
  }

  function BlendRgb(base: Rgb, toned: Rgb, s: real): Rgb
  {
    Rgb(Blend(base.r, toned.r, s), Blend(base.g, toned.g, s), Blend(base.b, toned.b, s))
  }

  /** The colour written for a destination pixel whose source pixel has red
      byte `red`, with contrast coefficient `f` and sepia intensity `s`. */
  function Shade(red: Byte, f: real, s: real): Rgb
  {
    var adjusted := ContrastRgb(f, Replicate(red));
    BlendRgb(adjusted, SepiaTone(adjusted), s)
  }

  /** At contrast 0 the remap leaves every channel unchanged. */
  lemma ContrastNeutral(v: real)
    ensures Contrast(ContrastFactor(0), v) == v
  {
    ContrastFactorNeutral(0);
  }

  /** A channel other than 128 moves strictly farther from 128, and stays on
      its side of 128, exactly when the setting lies strictly between 0 and
      the pole. */
  lemma ContrastStretches(contrast: int, v: real)
    requires contrast != ContrastPole
    requires v != 128.0
    ensures 128.0 < v ==> (v < Contrast(ContrastFactor(contrast), v) <==> 0 < contrast < ContrastPole)
    ensures v < 128.0 ==> (Contrast(ContrastFactor(contrast), v) < v <==> 0 < contrast < ContrastPole)
  {
    var f := ContrastFactor(contrast);
    ContrastFactorAboveOne(contrast);
    if 128.0 < v {
      assert Contrast(f, v) - v == (f - 1.0) * (v - 128.0);
      PositiveScaling(f - 1.0, v - 128.0);
    } else {
      assert v - Contrast(f, v) == (f - 1.0) * (128.0 - v);
      PositiveScaling(f - 1.0, 128.0 - v);
    }
  }

  /** Below the pole, raising the setting moves every channel other than 128
      strictly farther from 128. */
  lemma ContrastStretchGrows(c1: int, c2: int, v: real)
    requires c1 < c2 < ContrastPole
    requires v != 128.0
    ensures 128.0 < v ==> Contrast(ContrastFactor(c1), v) < Contrast(ContrastFactor(c2), v)
    ensures v < 128.0 ==> Contrast(ContrastFactor(c2), v) < Contrast(ContrastFactor(c1), v)
  {
    var f1, f2 := ContrastFactor(c1), ContrastFactor(c2);
    ContrastFactorIncreasing(c1, c2);
    assert Contrast(f2, v) - Contrast(f1, v) == (f2 - f1) * (v - 128.0);
    if 128.0 < v {
      PositiveScaling(f2 - f1, v - 128.0);
    } else {
      PositiveScaling(f2 - f1, 128.0 - v);
    }
  }

  /** For a weight in [0, 1] the blend lies between its two inputs, equals the
      untoned value at weight 0 and the toned value at weight 1. */
  lemma BlendBetween(base: real, toned: real, s: real)
    requires 0.0 <= s <= 1.0
    ensures s == 0.0 ==> Blend(base, toned, s) == base
    ensures s == 1.0 ==> Blend(base, toned, s) == toned
    ensures base <= toned ==> base <= Blend(base, toned, s) <= toned
    ensures toned <= base ==> toned <= Blend(base, toned, s) <= base
  {
    assert Blend(base, toned, s) - base == (toned - base) * s;
    assert toned - Blend(base, toned, s) == (toned - base) * (1.0 - s);
    if base <= toned {
      NonNegativeProduct(toned - base, s);
      NonNegativeProduct(toned - base, 1.0 - s);
    } else {
      NonNegativeProduct(base - toned, s);
      NonNegativeProduct(base - toned, 1.0 - s);
    }
  }

  /** Without sepia the written colour is the contrast-adjusted red byte in
      all three channels: a grey. */
  lemma ShadeWithoutSepia(red: Byte, f: real)
    ensures Shade(red, f, 0.0) == Rgb(Contrast(f, red as real), Contrast(f, red as real), Contrast(f, red as real))
  {
  }

  /** At full sepia the written colour is the sepia tone of the grey
      contrast-adjusted value v, whose channels are the matrix row sums times v. */
  lemma ShadeFullSepia(red: Byte, f: real)
    ensures var v := Contrast(f, red as real);
            Shade(red, f, 1.0) == SepiaTone(Rgb(v, v, v)) == Rgb(1.351 * v, 1.203 * v, 0.937 * v)
  {
  }

  /** For a sepia intensity in [0, 1] every written channel lies between the
      contrast-adjusted value and the matching channel of its sepia tone. */
  lemma ShadeBetween(red: Byte, f: real, s: real, c: nat)
    requires 0.0 <= s <= 1.0
    requires c < 3
    ensures var v := Contrast(f, red as real);
            var toned := Channel(SepiaTone(Rgb(v, v, v)), c);
            var out := Channel(Shade(red, f, s), c);
            (v <= toned ==> v <= out <= toned) && (toned <= v ==> toned <= out <= v)
  {
    var v := Contrast(f, red as real);
    BlendBetween(v, Channel(SepiaTone(Rgb(v, v, v)), c), s);
  }
}
