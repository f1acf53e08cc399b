/** The three slider settings and the coefficients the engine derives from
    them once per render. */
module Effects {

  /** Slider positions. The page's sliders move in whole steps over [0, 100],
      so only whole-number settings are modelled; within those the engine
      places no bound on them. */
  datatype Settings = Settings(sepia: int, contrast: int, curvature: int)

  /** The slider position at which the contrast transfer function has its pole. */
  const ContrastPole: int := 259

  /** Strength of the radial warp: the curvature slider divided by 50. */
  function CurvatureStrength(curvature: int): (k: real)
    ensures k == 0.0 <==> curvature == 0
    ensures 0.0 <= k <==> 0 <= curvature
    ensures 0 <= curvature <= 100 ==> k <= 2.0
  {
    curvature as real / 50.0
  }

  /** Weight of the sepia tone in the final blend: the sepia slider as a fraction of 100. */
  function SepiaIntensity(sepia: int): (s: real)
    ensures s == 0.0 <==> sepia == 0
    ensures s == 1.0 <==> sepia == 100
    ensures 0.0 <= s <= 1.0 <==> 0 <= sepia <= 100
  {
    sepia as real / 100.0
  }

  /** The contrast transfer coefficient 259 (c + 255) / (255 (259 - c)). */
  function ContrastFactor(contrast: int): real
    requires contrast != ContrastPole
  {
    (259 * (contrast + 255)) as real / (255 * (259 - contrast)) as real
  }

  /** Contrast 0 is the neutral setting, and no other setting is. */
  lemma ContrastFactorNeutral(contrast: int)
    requires contrast != ContrastPole
    ensures ContrastFactor(contrast) == 1.0 <==> contrast == 0
  {
    var num, den := (259 * (contrast + 255)) as real, (255 * (259 - contrast)) as real;
    assert ContrastFactor(contrast) * den == num;
  }

  /** The coefficient exceeds 1, so it stretches channels away from the
      midpoint, exactly for the settings strictly between 0 and the pole. */
  lemma ContrastFactorAboveOne(contrast: int)
    requires contrast != ContrastPole
    ensures 1.0 < ContrastFactor(contrast) <==> 0 < contrast < ContrastPole
  {
    var num, den := (259 * (contrast + 255)) as real, (255 * (259 - contrast)) as real;
    var f := ContrastFactor(contrast);
    assert f * den == num;
    if contrast < ContrastPole {
      assert (f - 1.0) * den == num - den;
      PositiveScaling(f - 1.0, den);
    } else {
      assert den < 0.0 && 0.0 < num;
      assert f < 0.0;
    }
  }

  /** Below the pole, a higher setting gives a strictly larger coefficient. */
  lemma ContrastFactorIncreasing(c1: int, c2: int)
    requires c1 < c2 < ContrastPole
    ensures ContrastFactor(c1) < ContrastFactor(c2)
  {
    var n1, d1 := (259 * (c1 + 255)) as real, (255 * (259 - c1)) as real;
    var n2, d2 := (259 * (c2 + 255)) as real, (255 * (259 - c2)) as real;
    var f1, f2 := ContrastFactor(c1), ContrastFactor(c2);
    assert f1 * d1 == n1 && f2 * d2 == n2;
    assert 0.0 < d2 < d1;
    // cross-multiplied: n1 * d2 < n2 * d1
    assert (c1 + 255) * (259 - c2) < (c2 + 255) * (259 - c1) by {
      assert (c2 + 255) * (259 - c1) - (c1 + 255) * (259 - c2) == 514 * (c2 - c1);
    }
    assert n1 * d2 < n2 * d1;
    assert (f2 - f1) * (d1 * d2) == n2 * d1 - n1 * d2;
    PositiveScaling(f2 - f1, d1 * d2);
  }

  /** The product of two non-negative numbers, or of a number with itself,
      is non-negative. */
  lemma NonNegativeProduct(a: real, b: real)
    requires (0.0 <= a && 0.0 <= b) || (a == b)
    ensures 0.0 <= a * b
  {
  }

  /** Multiplying by a positive number keeps the sign. */
  lemma PositiveScaling(a: real, d: real)
    requires 0.0 < d
    ensures 0.0 < a * d <==> 0.0 < a
  {
  }
}
