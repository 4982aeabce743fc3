/**
 * Java `int` arithmetic: 32-bit two's-complement wrap-around on `+` and `-`,
 * and `/` that truncates toward zero (Dafny's own `/` on `int` is Euclidean).
 */
module Int32 {
  const MIN: int := -0x8000_0000
  const MAX: int := 0x7fff_ffff
  const MODULUS: int := 0x1_0000_0000

  type int32 = x: int | -0x8000_0000 <= x <= 0x7fff_ffff

  predicate InRange(v: int) { MIN <= v <= MAX }

  /** The value a Java `int` holds after an operation whose exact result is `v`. */
  function Wrap(v: int): (r: int32)
    ensures InRange(v) ==> r == v
    ensures (v - r) % MODULUS == 0
  {
    (v - MIN) % MODULUS + MIN
  }

  /** Java `a - b` on `int`. */
  function Sub(a: int32, b: int32): (r: int32)
    ensures InRange(a - b) ==> r == a - b
  {
    Wrap(a - b)
  }

  /** Java `a + b` on `int`. */
  function Add(a: int32, b: int32): (r: int32)
    ensures InRange(a + b) ==> r == a + b
  {
    Wrap(a + b)
  }

  /**
   * Java `a / 2` on `int`: halving truncated toward zero, so an odd negative
   * dividend rounds up, where Dafny's Euclidean `/` rounds it down.
   */
  function Half(a: int32): (q: int32)
    ensures a >= 0 ==> 0 <= 2 * q <= a <= 2 * q + 1
    ensures a < 0 ==> 2 * q - 1 <= a <= 2 * q <= 0
  {
    if a >= 0 then a / 2 else -((0 - a as int) / 2)
  }
}
