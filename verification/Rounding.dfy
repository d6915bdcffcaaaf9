/** Decimal.quantize at two places, on integer hundredths. */
module Rounding {

  /** ROUND_HALF_UP of n / d: nearest, ties away from zero. */
  function HalfUp(n: int, d: int): (q: int)
    requires d > 0
    ensures n >= 0 ==> 0 <= q && 2 * n - d < 2 * (q * d) <= 2 * n + d
    ensures n <= 0 ==> q <= 0 && 2 * n - d <= 2 * (q * d) < 2 * n + d
  {
    if n >= 0 then (2 * n + d) / (2 * d) else -((-2 * n + d) / (2 * d))
  }

  /** ROUND_HALF_UP of a rational number of hundredths. */
  function HalfUpReal(x: real): (q: int)
    ensures x >= 0.0 ==> 0 <= q && x - 0.5 < q as real <= x + 0.5
    ensures x <= 0.0 ==> q <= 0 && x - 0.5 <= q as real < x + 0.5
  {
    if x >= 0.0 then (x + 0.5).Floor else -((0.5 - x).Floor)
  }

  lemma WholeAndRest(n: int, d: int)
    requires d > 0
    ensures n == (n / d) * d + n % d && 0 <= n % d < d
  {
  }

  /** The default context's ROUND_HALF_EVEN of n / d: nearest, ties to the even neighbour. */
  function HalfEven(n: int, d: int): (q: int)
    requires d > 0
    ensures 2 * n - d <= 2 * (q * d) <= 2 * n + d
    ensures 2 * (q * d) == 2 * n - d || 2 * (q * d) == 2 * n + d ==> q % 2 == 0
  {
    var f, r := n / d, n % d;
    WholeAndRest(n, d);
    assert (f + 1) * d == f * d + d;
    if 2 * r < d then f
    else if 2 * r > d then f + 1
    else if f % 2 == 0 then f else f + 1
  }

  /** Rounding never leaves a range of whole numbers. */
  lemma HalfEvenWithin(n: int, d: int, low: int, high: int)
    requires d > 0 && low * d <= n <= high * d
    ensures low <= HalfEven(n, d) <= high
  {
    var q := HalfEven(n, d);
    assert (q - low + 1) * d == q * d - low * d + d;
    assert (high - q + 1) * d == high * d - q * d + d;
    PositiveFactor(q - low + 1, d);
    PositiveFactor(high - q + 1, d);
  }

  lemma HalfUpMonotone(n: int, m: int, d: int)
    requires d > 0 && 0 <= n <= m
    ensures HalfUp(n, d) <= HalfUp(m, d)
  {
    var p, q := HalfUp(n, d), HalfUp(m, d);
    assert (q - p + 1) * d == q * d - p * d + d;
    PositiveFactor(q - p + 1, d);
  }

  lemma HalfUpExact(a: nat, d: int)
    requires d > 0
    ensures a * d >= 0 && HalfUp(a * d, d) == a
  {
    assert a * d >= 0;
    var q := HalfUp(a * d, d);
    assert (q - a + 1) * d == q * d - a * d + d;
    assert (a - q + 1) * d == a * d - q * d + d;
    PositiveFactor(q - a + 1, d);
    PositiveFactor(a - q + 1, d);
  }

  lemma PositiveFactor(x: int, d: int)
    requires d > 0 && x * d > 0
    ensures x > 0
  {
  }
}
