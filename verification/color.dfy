/**
 * ColorExtensions.ToYiq: the integer luma of an ARGB colour, and the one
 * decision that reads it (whether the primary button's bitmap is inverted on
 * an accent colour).
 */
module ColorExtensions {
  /** One 8-bit colour channel. */
  newtype Byte = x: int | 0 <= x < 256

  datatype Color = Color(a: Byte, r: Byte, g: Byte, b: Byte)

  /** The weighted channel sum the luma is taken from, in thousandths. */
  function WeightedSum(c: Color): int
  {
    200 * c.r as int + 586 * c.g as int + 114 * c.b as int
  }

  /**
   * The luma: the weighted sum divided by 1000 with the quotient truncated.
   * The operands are never negative, so truncation and floor agree.
   */
  function ToYiq(c: Color): (y: int)
    ensures 0 <= y <= 229
    ensures 1000 * y <= WeightedSum(c) < 1000 * (y + 1)
  {
    WeightedSum(c) / 1000
  }

  /** Brightening any channel never lowers the luma. */
  lemma ToYiqMonotone(c: Color, d: Color)
    requires c.r <= d.r && c.g <= d.g && c.b <= d.b
    ensures ToYiq(c) <= ToYiq(d)
  {
  }

  /** The extremes: black has luma 0 and white 229, whatever the alpha. */
  lemma ToYiqExtremes(alpha: Byte)
    ensures ToYiq(Color(alpha, 0, 0, 0)) == 0
    ensures ToYiq(Color(alpha, 255, 255, 255)) == 229
  {
  }

  /** Alpha plays no part in the luma. */
  lemma ToYiqIgnoresAlpha(c: Color, alpha: Byte)
    ensures ToYiq(c.(a := alpha)) == ToYiq(c)
  {
  }

  /**
   * The primary button draws its bitmap inverted on Windows 10 and later
   * when the accent colour is light, that is, when its luma exceeds 0x7F.
   */
  predicate ShouldInvert(accent: Color, osMajor: int)
  {
    osMajor >= 10 && ToYiq(accent) > 0x7F
  }

  /** The inversion threshold restated on the weighted sum: 128 thousand or more. */
  lemma ShouldInvertThreshold(accent: Color, osMajor: int)
    ensures ShouldInvert(accent, osMajor) <==> osMajor >= 10 && WeightedSum(accent) >= 128000
  {
  }
}
