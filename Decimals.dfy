/**
 Exact decimal numbers: an integer mantissa and a power-of-ten scale, so that
 `Dec(-110, 2)` is -1.10. They stand for the floats the script computes; no
 rounding is modelled.
 */
module Decimals {

  datatype Dec = Dec(mantissa: int, scale: nat)

  /** The decimal 0, the fallback value of the percent cleaner. */
  const Zero := Dec(0, 0)

  function Pow10(n: nat): (r: nat)
    ensures r >= 1
  {
    if n == 0 then 1 else 10 * Pow10(n - 1)
  }

  /** The number a decimal stands for. */
  function ToReal(d: Dec): real {
    d.mantissa as real / Pow10(d.scale) as real
  }

  /** The decimal with the opposite value and the same scale. */
  function Negate(d: Dec): (r: Dec)
    ensures ToReal(r) == -ToReal(d)
    ensures r.scale == d.scale
  {
    Dec(-d.mantissa, d.scale)
  }

  /** The sign of a decimal is the sign of its mantissa. */
  lemma SignOfMantissa(d: Dec)
    ensures ToReal(d) > 0.0 <==> d.mantissa > 0
    ensures ToReal(d) < 0.0 <==> d.mantissa < 0
    ensures ToReal(d) == 0.0 <==> d.mantissa == 0
  {
    var p := Pow10(d.scale) as real;
    var m := d.mantissa as real;
    assert ToReal(d) * p == m;
  }
}
