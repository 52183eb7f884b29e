/** Shared value types: optional values, results, and the fixed-width
    integer ranges the Rust code works with. */
module Common {

  datatype Option<+T> = None | Some(value: T)

  datatype Result<+T, +E> = Ok(value: T) | Err(error: E)

  const TWO_POW_64: int := 0x1_0000_0000_0000_0000
  const TWO_POW_256: int := 0x1_0000_0000_0000_0000_0000_0000_0000_0000_0000_0000_0000_0000_0000_0000_0000_0000_0000_0000

  /** Rust `u64`. */
  type U64 = x: int | 0 <= x < TWO_POW_64

  /** `U256`, the 256-bit unsigned integer of the `primitive-types` crate. */
  type U256 = x: int | 0 <= x < TWO_POW_256

  const U256_MAX: U256 := TWO_POW_256 - 1

  /** A 32-byte digest, read as the big-endian `U256` it converts to. */
  type H256 = U256

  const ZERO_HASH: H256 := 0
}
