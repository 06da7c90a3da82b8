/** The compositor's integer blends (`src/render.rs`) and why they are exact: each one
    computes the rounded rational value that the pointwise reference asks for. */
module FixedPoint {
  import opened Numerics
  import opened Sampling
  import opened Shading

  const BILINEAR_SCALE: int := 65536
  const OPACITY_SCALE: int := 1000

  /** The inner loop's weighted sum: rows mixed along x, then the two rows along y. */
  function WeightedSum(a: Byte, b: Byte, c: Byte, d: Byte, xWeight: nat, yWeight: nat): int {
    var top := a * (WEIGHT_SCALE - xWeight) + b * xWeight;
    var bottom := c * (WEIGHT_SCALE - xWeight) + d * xWeight;
    top * (WEIGHT_SCALE - yWeight) + bottom * yWeight
  }

  /** `(w + 32768) >> 16`. */
  function BlendOpaqueChannel(weighted: nat): int {
    (weighted + 32768) / BILINEAR_SCALE
  }

  function BlendWeightedChannel(weighted: nat, under: Byte, opacity: nat): int {
    var denominator := BILINEAR_SCALE * OPACITY_SCALE;
    var numerator := weighted * opacity + under * BILINEAR_SCALE * (OPACITY_SCALE - opacity);
    (numerator + denominator / 2) / denominator
  }

  /** At full opacity the shift is the division, for every weighted sum and every byte
      underneath. */
  lemma ShiftIsDivision(weighted: nat, under: Byte)
    ensures BlendOpaqueChannel(weighted) == BlendWeightedChannel(weighted, under, OPACITY_SCALE)
  {
    var q := (weighted + 32768) / 65536;
    assert q * 65536 <= weighted + 32768 < (q + 1) * 65536;
    DivUnique(weighted * 1000 + 32768000, 65536000, q);
  }

  lemma MixRow(low: nat, high: nat, weight: nat)
    requires low <= 255 && high <= 255 && weight <= 256
    ensures 0 <= low * (256 - weight) + high * weight <= 255 * 256
  {
    var (near, far) := (low * (256 - weight), high * weight);
    assert 0 <= near <= 255 * (256 - weight) by { MulMonotone(low, 255, 256 - weight); MulMonotone(0, low, 256 - weight); }
    assert 0 <= far <= 255 * weight by { MulMonotone(high, 255, weight); MulMonotone(0, high, weight); }
  }

  /** No 32-bit sum can overflow, and no channel can exceed a byte. */
  lemma WeightedSumBounded(a: Byte, b: Byte, c: Byte, d: Byte, xWeight: nat, yWeight: nat)
    requires xWeight <= 256 && yWeight <= 256
    ensures 0 <= WeightedSum(a, b, c, d, xWeight, yWeight) <= 255 * BILINEAR_SCALE
    ensures WeightedSum(a, b, c, d, xWeight, yWeight) + BILINEAR_SCALE / 2 < U32_LIMIT
  {
    MixRow(a, b, xWeight);
    MixRow(c, d, xWeight);
    var top := a * (256 - xWeight) + b * xWeight;
    var bottom := c * (256 - xWeight) + d * xWeight;
    MulMonotone(top, 255 * 256, 256 - yWeight);
    MulMonotone(bottom, 255 * 256, yWeight);
    MulMonotone(0, top, 256 - yWeight);
    MulMonotone(0, bottom, yWeight);
  }

  lemma RoundedDivision(n: nat, d: nat)
    requires 0 < d && d % 2 == 0
    ensures (n + d / 2) / d == RoundHalfUp(n as real / d as real)
  {
    var half := d / 2;
    var q := (n + half) / d;
    DivBounds(n + half, d);
    var (nr, dr, qr) := (n as real, d as real, q as real);
    assert qr * dr <= nr + dr / 2.0 < (qr + 1.0) * dr by {
      assert (q * d) as real == qr * dr;
      assert ((q + 1) * d) as real == (qr + 1.0) * dr;
    }
    RealQuotientBounds(nr, dr, qr);
  }

  lemma RealQuotientBounds(n: real, d: real, q: real)
    requires 0.0 < d && q * d <= n + d / 2.0 < (q + 1.0) * d
    ensures q <= n / d + 0.5 < q + 1.0
  {
    var r := n / d;
    assert r * d == n;
    assert (r + 0.5) * d == n + d / 2.0;
    RealCancelLeft(q, r + 0.5, d);
    RealCancelLeft(r + 0.5, q + 1.0, d);
  }

  lemma RealCancelLeft(a: real, b: real, d: real)
    requires 0.0 < d
    ensures a * d <= b * d ==> a <= b
    ensures a * d < b * d ==> a < b
  {
  }

  /** The integer sum is the reference's mix of shares, scaled to 16 fractional bits. */
  lemma WeightedSumIsMix(a: Byte, b: Byte, c: Byte, d: Byte, xWeight: nat, yWeight: nat)
    requires xWeight <= 256 && yWeight <= 256
    ensures WeightedSum(a, b, c, d, xWeight, yWeight) as real / 65536.0 ==
            Mix(Share(a), Share(b), Share(c), Share(d),
                Weight(xWeight), Weight(yWeight)) * 255.0
  {
    var (x, y) := (xWeight as real, yWeight as real);
    var (ar, br, cr, dr) := (a as real, b as real, c as real, d as real);
    var top := a * (256 - xWeight) + b * xWeight;
    var bottom := c * (256 - xWeight) + d * xWeight;
    assert top as real == ar * (256.0 - x) + br * x;
    assert bottom as real == cr * (256.0 - x) + dr * x;
    assert WeightedSum(a, b, c, d, xWeight, yWeight) as real ==
      (top as real) * (256.0 - y) + (bottom as real) * y;
    MixScaled(ar, br, cr, dr, x, y);
  }

  lemma MixScaled(a: real, b: real, c: real, d: real, x: real, y: real)
    ensures ((a * (256.0 - x) + b * x) * (256.0 - y) + (c * (256.0 - x) + d * x) * y) / 65536.0 ==
            Mix(a / 255.0, b / 255.0, c / 255.0, d / 255.0, x / 256.0, y / 256.0) * 255.0
  {
  }

  /** The untransformed bilinear channel: the reference byte, rounded half up. */
  lemma BilinearChannelIsReference(a: Byte, b: Byte, c: Byte, d: Byte, xWeight: nat, yWeight: nat)
    requires xWeight <= 256 && yWeight <= 256
    ensures var weighted := WeightedSum(a, b, c, d, xWeight, yWeight);
            && 0 <= weighted
            && BlendOpaqueChannel(weighted) ==
               ToByte(Mix(Share(a), Share(b), Share(c), Share(d),
                          Weight(xWeight), Weight(yWeight)))
  {
    hide Mix, WeightedSum;
    var weighted := WeightedSum(a, b, c, d, xWeight, yWeight);
    var share := Mix(Share(a), Share(b), Share(c), Share(d),
                     Weight(xWeight), Weight(yWeight));
    WeightedSumBounded(a, b, c, d, xWeight, yWeight);
    WeightedSumIsMix(a, b, c, d, xWeight, yWeight);
    RoundedDivision(weighted, 65536);
    assert ClampReal(share, 0.0, 1.0) == share;
  }

  lemma FadeScaled(weighted: real, under: real, opacity: real)
    ensures (weighted * opacity + under * 65536.0 * (1000.0 - opacity)) / 65536000.0 ==
            (weighted / 65536.0 / 255.0 * (opacity / 1000.0) + under / 255.0 * (1.0 - opacity / 1000.0)) * 255.0
  {
  }

  lemma FadeBounded(weighted: int, under: Byte, opacity: nat)
    requires 0 <= weighted <= 255 * 65536 && opacity <= 1000
    ensures 0 <= weighted * opacity + under * 65536 * (1000 - opacity) <= 255 * 65536000
  {
    MulMonotone(weighted, 255 * 65536, opacity);
    MulMonotone(under * 65536, 255 * 65536, 1000 - opacity);
    MulMonotone(0, weighted, opacity);
  }

  /** The faded channel: the reference's blend of a share over the byte underneath. */
  lemma WeightedBlendIsReference(weighted: nat, share: real, under: Byte, opacity: nat, fade: real)
    requires weighted <= 255 * BILINEAR_SCALE && opacity <= OPACITY_SCALE
    requires weighted as real / 65536.0 == share * 255.0 && fade == opacity as real / 1000.0
    ensures BlendWeightedChannel(weighted, under, opacity) == BlendOverOpaque(Faded(share, fade), fade, under)
  {
    var numerator := weighted * opacity + under * 65536 * (1000 - opacity);
    FadeBounded(weighted, under, opacity);
    RoundedDivision(numerator, 65536000);
    var (w, u, o) := (weighted as real, under as real, opacity as real);
    assert numerator as real == w * o + u * 65536.0 * (1000.0 - o);
    FadeScaled(w, u, o);
    assert share == w / 65536.0 / 255.0;
    var blended := share * fade + u / 255.0 * (1.0 - fade);
    assert blended * 255.0 == numerator as real / 65536000.0;
    assert 0.0 <= blended <= 1.0;
  }
}
