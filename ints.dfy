/** Machine integer ranges of the router's configuration and clock values. */
module Ints {
  const TWO_TO_THE_63: int := 0x8000_0000_0000_0000
  const TWO_TO_THE_64: int := 0x1_0000_0000_0000_0000

  /** Rust `u64`. */
  type u64 = x: int | 0 <= x < TWO_TO_THE_64

  /** Rust `i64`. */
  type i64 = x: int | -TWO_TO_THE_63 <= x < TWO_TO_THE_63
}
