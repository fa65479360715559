/**
 An abstraction of Java `double` values: finite values are exact reals (rounding,
 overflow and the sign of zero are not modelled), plus the two infinities and NaN.
 */
module JavaDouble {

  datatype DoubleValue = Finite(x: real) | PosInfinity | NegInfinity | NaN

  /** Double.MAX_VALUE, (2 - 2^-52) * 2^1023. */
  const MaxValue: real := 179769313486231570814527423731704356798070567525844996598917476803157260780028538760589558632766878171540458953514382464234321326889464182768467546703537516986049910576551282076245490090389328944075868508455133942304583236903222948165808559332123348274797826204144723168738177180919299881250404026184124858368.0

  /** Double.MIN_VALUE: the smallest POSITIVE double, 2^-1074. */
  const MinValue: real := 1.0 / 202402253307310618352495346718917307049556649764142118356901358027430339567995346891960383701437124495187077864316811911389808737385793476867013399940738509921517424276566361364466907742093216341239767678472745068562007483424692698618103355649159556340810056512358769552333414615230502532186327508646006263307707741093494784.0

  /** Math.pow(2, e) for an integer exponent. */
  function Pow2(e: int): (p: real)
    ensures p > 0.0
    decreases if e >= 0 then e else -e
  {
    if e == 0 then 1.0
    else if e > 0 then 2.0 * Pow2(e - 1)
    else Pow2(e + 1) / 2.0
  }

  lemma {:induction false} Pow2Add(a: nat, b: nat)
    ensures Pow2(a + b) == Pow2(a) * Pow2(b)
    decreases b
  {
    if b > 0 {
      Pow2Add(a, b - 1);
      assert Pow2(a + b) == 2.0 * Pow2(a + b - 1);
    }
  }

  /** Pow2 is strictly increasing on non-negative exponents. */
  lemma {:induction false} Pow2StrictlyIncreasing(a: nat, b: nat)
    requires a < b
    ensures Pow2(a) < Pow2(b)
    decreases b
  {
    if a + 1 < b {
      Pow2StrictlyIncreasing(a, b - 1);
    }
  }

  /**
   Floating-point division of two finite doubles, exactly. A zero divisor is
   the positive zero that `max - min` yields for max == min.
   */
  function Divide(num: real, den: real): (q: DoubleValue)
    ensures den != 0.0 ==> q.Finite? && q.x * den == num
    ensures den == 0.0 ==> !q.Finite?
  {
    if den != 0.0 then Finite(num / den)
    else if num > 0.0 then PosInfinity
    else if num < 0.0 then NegInfinity
    else NaN
  }
}
