/** Fixed-width machine integers of the Rust source, written out over `int`. */
module Ints {
  import opened Wrappers

  const TWO_TO_THE_32: int := 0x1_0000_0000
  const TWO_TO_THE_63: int := 0x8000_0000_0000_0000
  const TWO_TO_THE_64: int := 0x1_0000_0000_0000_0000

  /** Rust `u64` (and `usize` on the 64-bit targets the bot runs on). */
  type u64 = x: int | 0 <= x < TWO_TO_THE_64

  /** Rust `i64`. */
  type i64 = x: int | -TWO_TO_THE_63 <= x < TWO_TO_THE_63

  /** Rust `u8`. */
  type u8 = x: int | 0 <= x < 256

  /** `a.saturating_sub(b)` on unsigned integers. */
  function SaturatingSub(a: nat, b: nat): nat
  {
    if a >= b then a - b else 0
  }

  /** `a.saturating_add(b)` on `usize`: the sum, or `usize::MAX` when the sum
      does not fit. */
  function SaturatingAdd(a: nat, b: nat): (r: nat)
    ensures a + b < TWO_TO_THE_64 ==> r == a + b
    ensures a + b >= TWO_TO_THE_64 ==> r == TWO_TO_THE_64 - 1
  {
    if a + b < TWO_TO_THE_64 then a + b else TWO_TO_THE_64 - 1
  }

  /** `a - b` on `usize` in a release build, where overflow checks are off:
      the difference wraps around modulo 2^64. A debug build panics instead
      whenever `b > a`. */
  function WrappingSub(a: nat, b: nat): (r: nat)
    ensures r < TWO_TO_THE_64
    ensures b <= a < TWO_TO_THE_64 ==> r == a - b
    ensures a < b <= a + TWO_TO_THE_64 ==> r == a - b + TWO_TO_THE_64
  {
    (a - b) % TWO_TO_THE_64
  }
}
