/** Rust's fixed-width integers and the two pieces of Rust integer semantics
    the handlers rely on: division that truncates toward zero, and the
    wrapping `as u32` cast. Plain `+`, `-` and `*` on these types trap on
    overflow (overflow checks are assumed on, as in Anchor's default
    workspace profile); callers model the
    trap themselves by testing the range of the exact result. */
module Integers {

  const U8_LIMIT: int := 0x100
  const U32_LIMIT: int := 0x1_0000_0000
  const I64_MIN: int := -0x8000_0000_0000_0000
  const I64_LIMIT: int := 0x8000_0000_0000_0000

  type u8 = x: int | 0 <= x < U8_LIMIT
  type u32 = x: int | 0 <= x < U32_LIMIT
  type i64 = x: int | I64_MIN <= x < I64_LIMIT

  predicate InU8(x: int) { 0 <= x < U8_LIMIT }
  predicate InU32(x: int) { 0 <= x < U32_LIMIT }
  predicate InI64(x: int) { I64_MIN <= x < I64_LIMIT }

  /** Rust's `a / b` on signed integers: the quotient rounded toward zero
      (Dafny's own `/` is Euclidean and differs for negative `a`). */
  function TruncDiv(a: int, b: int): (q: int)
    requires b > 0
    ensures a >= 0 ==> 0 <= q * b <= a < q * b + b
    ensures a < 0 ==> q * b - b < a <= q * b <= 0
  {
    if a >= 0 then
      EuclideanDivBounds(a, b);
      a / b
    else
      EuclideanDivBounds(-a, b);
      -((-a) / b)
  }

  lemma EuclideanDivBounds(a: nat, b: int)
    requires b > 0
    ensures 0 <= (a / b) * b <= a < (a / b) * b + b
  {
    var q, r := a / b, a % b;
    assert a == q * b + r;
  }

  /** Rust's `x as u32` for a signed 64-bit `x`: keeps the low 32 bits of the
      two's-complement representation, never traps. */
  function AsU32(x: i64): (r: u32)
    ensures (x - r) % U32_LIMIT == 0
    ensures 0 <= x < U32_LIMIT ==> r == x
  {
    x % U32_LIMIT
  }
}
