/** The few Rust standard types the model needs. */
module Prelude {

  /** Rust's `Option<T>`. */
  datatype Option<+T> = None | Some(value: T)

  /** Rust's `Result<T, E>`, with the error carried as a message. */
  datatype Result<+T, +E> = Success(value: T) | Failure(error: E)

  /** One more than the largest `u64`, 2^64. */
  const U64Limit: nat := 0x1_0000_0000_0000_0000

  /** Rust's `u64`: gallery item ids are 64-bit unsigned integers. */
  newtype u64 = x: int | 0 <= x < U64Limit
}
