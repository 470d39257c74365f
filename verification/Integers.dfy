/** The fixed-width integer types of the Rust source, as subsets of `int`. */
module Integers {

  const U64_MODULUS: int := 0x1_0000_0000_0000_0000
  const U64_MAX: int := U64_MODULUS - 1

  type u8 = b: int | 0 <= b < 0x100
  type u64 = n: int | 0 <= n < U64_MODULUS
  type i64 = n: int | -0x8000_0000_0000_0000 <= n < 0x8000_0000_0000_0000
}
