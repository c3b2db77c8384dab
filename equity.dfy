// Equity: 16-bit signed values in eighths of a point, with three reserved
// sentinels below the usable range (inc/equity.h).
module Equity {
  const INT16_MIN: int := -32768
  const UNDEFINED: int := INT16_MIN
  const INITIAL: int := INT16_MIN + 1
  const PASS: int := INT16_MIN + 2
  const MIN: int := INT16_MIN + 3
  const MAX: int := -MIN
  const RESOLUTION: int := 8

  predicate IsInt16(x: int) { -32768 <= x < 32768 }

  /** The C cast of an int to int16_t: two's-complement wrap-around. */
  function ToInt16(x: int): (r: int)
    ensures IsInt16(r)
    ensures IsInt16(x) ==> r == x
  {
    (x + 32768) % 65536 - 32768
  }

  /** The cast keeps the value modulo 2^16. */
  lemma ToInt16Wraps(x: int)
    ensures (ToInt16(x) - x) % 65536 == 0
  {
  }

  function PointsToEquity(pts: int): (eq: int)
    ensures IsInt16(eq)
    ensures -4096 <= pts < 4096 ==> eq == 8 * pts
  {
    ToInt16(pts * RESOLUTION)
  }

  function EquityToPoints(eq: int): (pts: int)
    ensures eq >= 0 ==> 0 <= 8 * pts <= eq < 8 * pts + 8
    ensures eq < 0 ==> 8 * pts - 8 < eq <= 8 * pts <= 0
  {
    // C division truncates toward zero
    if eq >= 0 then eq / RESOLUTION else -((-eq) / RESOLUTION)
  }

  /** Points survive the trip through equity for the whole usable range. */
  lemma PointsRoundTrip(pts: int)
    requires EquityToPoints(MIN) <= pts <= EquityToPoints(MAX)
    ensures EquityToPoints(PointsToEquity(pts)) == pts
  {
  }

  lemma Sentinels()
    ensures INITIAL == UNDEFINED + 1 && PASS == UNDEFINED + 2 && MIN == UNDEFINED + 3
    ensures MAX == -MIN == 32765
    ensures EquityToPoints(MIN) == -4095 && EquityToPoints(MAX) == 4095
  {
  }
}
