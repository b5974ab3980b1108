/**
 Rust's `i64`, the type of every timestamp, and the two `i64` operations the
 nearest-key search uses (`-` and `abs`) as they behave in a build without
 overflow checks, where both wrap modulo 2^64.
 */
module I64 {

  const TWO_63: int := 0x8000_0000_0000_0000
  const MODULUS: int := 2 * TWO_63
  const MIN: int := -TWO_63
  const MAX: int := TWO_63 - 1

  /** The values of an `i64`. */
  type Int64 = x: int | -0x8000_0000_0000_0000 <= x <= 0x7fff_ffff_ffff_ffff

  /** Two's-complement wrap-around: the `i64` congruent to `x` modulo 2^64. */
  function Wrap(x: int): (r: Int64)
    ensures MIN <= x <= MAX ==> r == x
    ensures (x - r) % MODULUS == 0
  {
    var s := (x + TWO_63) % MODULUS;
    assert x - (s - TWO_63) == MODULUS * ((x + TWO_63) / MODULUS);
    s - TWO_63
  }

  /** `a - b` on `i64` without overflow checks (`wrapping_sub`). */
  function WrappingSub(a: Int64, b: Int64): (r: Int64)
    ensures MIN <= a - b <= MAX ==> r == a - b
  {
    Wrap(a - b)
  }

  /** `a.abs()` on `i64` without overflow checks (`wrapping_abs`): `MIN.abs()` is `MIN`. */
  function WrappingAbs(a: Int64): (r: Int64)
    ensures a != MIN ==> r >= 0 && (r == a || r == -a)
    ensures a == MIN ==> r == MIN
  {
    if a < 0 then Wrap(-(a as int)) else a
  }

}
