/** Small value types shared by every module of the model. */
module Common {

  /** The conventional optional value. */
  datatype Option<+T> = None | Some(value: T)

  /** A value or the reason there is none. */
  datatype Result<+T, +E> = Ok(value: T) | Err(error: E)

  /** Unsigned machine-integer ranges used by the Rust and C sources. */
  const U32_LIMIT: nat := 0x1_0000_0000
  const U64_LIMIT: nat := 0x1_0000_0000_0000_0000

  /** A value of an unsigned 64-bit integer type. */
  type U64 = k: nat | k < U64_LIMIT

  /** An unsigned 64-bit counter advanced with `fetch_add`, which wraps around. */
  function WrappingAddU64(x: nat, n: nat): (r: nat)
    requires x < U64_LIMIT && n < U64_LIMIT
    ensures r < U64_LIMIT
    ensures x + n < U64_LIMIT ==> r == x + n
    ensures x + n >= U64_LIMIT ==> r == x + n - U64_LIMIT
  {
    (x + n) % U64_LIMIT
  }
}
