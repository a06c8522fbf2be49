/**
 * Machine integer widths of the C sources, as subset types of `int`, and the
 * truncating conversions the code relies on.
 */
module Ints {

  const U32_LIMIT: int := 0x1_0000_0000
  const U64_LIMIT: int := 0x1_0000_0000_0000_0000
  const U32_MAX: int := U32_LIMIT - 1
  const U64_MAX: int := U64_LIMIT - 1

  type u32 = x: int | 0 <= x < 0x1_0000_0000
  type u64 = x: int | 0 <= x < 0x1_0000_0000_0000_0000
  type i32 = x: int | -0x8000_0000 <= x < 0x8000_0000

  /** Unsigned 64-bit arithmetic: the mathematical result reduced modulo 2^64. */
  function Wrap64(x: nat): (r: u64)
    ensures x < U64_LIMIT ==> r == x
    ensures U64_LIMIT <= x < 2 * U64_LIMIT ==> r == x - U64_LIMIT
  {
    x % U64_LIMIT
  }

  /** Unsigned 64-bit addition: past 2^64 - 1 the sum wraps around once. */
  function Add64(a: u64, b: u64): (r: u64)
  {
    if a + b < U64_LIMIT then a + b else a + b - U64_LIMIT
  }

  /** The addition is the general reduction modulo 2^64 applied to the exact sum. */
  lemma Add64Wraps(a: u64, b: u64)
    ensures Add64(a, b) == Wrap64(a + b)
  {
  }

  /**
   * The C conversion `(size_t)ret` of an `int` on a 64-bit target: a
   * non-negative value is kept, a negative one becomes a huge unsigned value.
   */
  function ToSize(ret: i32): (r: u64)
    ensures 0 <= ret ==> r == ret
    ensures ret < 0 ==> r >= U64_LIMIT - 0x8000_0000
  {
    ret % U64_LIMIT
  }

  /** Comparing `(size_t)ret` with a small size is the same as comparing `ret` itself. */
  lemma ToSizeExact(ret: i32, s: nat)
    requires s < 0x8000_0000
    ensures ToSize(ret) == s <==> ret == s
  {
  }
}
