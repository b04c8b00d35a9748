/**
 * The numeric vocabulary of the model: Java `double` as a real number with
 * explicit tags for NaN and the infinities, and Java `int` as a 32-bit
 * two's-complement value whose arithmetic wraps around.
 */
module Numbers {

  /** A Java `double`: a finite value (modelled as a real, without rounding) or a special value. */
  datatype Double = Finite(value: real) | PositiveInfinity | NegativeInfinity | NaN {

    /** `Double.isInfinite` */
    predicate IsInfinite() {
      PositiveInfinity? || NegativeInfinity?
    }
  }

  /** `Double.MAX_VALUE`, that is (2 - 2^-52) * 2^1023, written out exactly. */
  const MaxDouble: real := 179769313486231570814527423731704356798070567525844996598917476803157260780028538760589558632766878171540458953514382464234321326889464182768467546703537516986049910576551282076245490090389328944075868508455133942304583236903222948165808559332123348274797826204144723168738177180919299881250404026184124858368.0

  const Int32Modulus: int := 0x1_0000_0000

  /** A Java `int`. */
  type Int32 = x: int | -0x8000_0000 <= x <= 0x7fff_ffff

  /** Java's narrowing of a mathematical integer to `int`: reduction modulo 2^32 into the signed range. */
  function Wrap32(x: int): (r: Int32)
    ensures (r - x) % Int32Modulus == 0
    ensures -0x8000_0000 <= x <= 0x7fff_ffff ==> r == x
  {
    var m := x % Int32Modulus;
    if m > 0x7fff_ffff then m - Int32Modulus else m
  }

  /** `(int) Math.signum(x)` for a finite `x`. */
  function Signum(x: real): (r: int)
    ensures r == -1 || r == 0 || r == 1
    ensures r < 0 <==> x < 0.0
    ensures r > 0 <==> x > 0.0
  {
    if x < 0.0 then -1 else if x > 0.0 then 1 else 0
  }
}
