/**
 * Integer views of the few floating-point expressions of the paginator.
 * A target ratio "W:H" is the quotient h / w (page height over page width);
 * the model keeps it as the exact rational and applies Python's int()
 * (truncation toward zero) to exact quotients.
 */
module Numeric {
  /** A page aspect ratio parsed from "W:H": height over width is h / w. */
  datatype Ratio = Ratio(w: int, h: int) {
    predicate Valid() { w > 0 && h > 0 }
  }

  lemma DivBounds(n: int, d: int)
    requires n >= 0 && d > 0
    ensures 0 <= n / d && (n / d) * d <= n < (n / d) * d + d
  {
    assert n == d * (n / d) + n % d;
  }

  lemma NegMul(q: int, d: int)
    ensures (-q) * d == -(q * d)
  {
  }

  /** int(num / den) for an exact quotient: truncation toward zero. */
  function TruncDiv(num: int, den: int): (q: int)
    requires den > 0
    ensures num >= 0 ==> 0 <= q && q * den <= num < q * den + den
    ensures num < 0 ==> q <= 0 && q * den - den < num <= q * den
  {
    if num >= 0 then
      DivBounds(num, den);
      num / den
    else
      DivBounds(-num, den);
      NegMul((-num) / den, den);
      -((-num) / den)
  }

  /** int(x * (h / w)): a length scaled by the ratio. */
  function ScaleByRatio(x: int, ratio: Ratio): (r: int)
    requires ratio.Valid()
    ensures x >= 0 ==> 0 <= r && r * ratio.w <= x * ratio.h < r * ratio.w + ratio.w
  {
    TruncDiv(x * ratio.h, ratio.w)
  }

  /** int(x / (h / w)): a length divided by the ratio. */
  function ScaleByInverse(x: int, ratio: Ratio): (r: int)
    requires ratio.Valid()
    ensures x >= 0 ==> 0 <= r && r * ratio.h <= x * ratio.w < r * ratio.h + ratio.h
  {
    TruncDiv(x * ratio.w, ratio.h)
  }
}
