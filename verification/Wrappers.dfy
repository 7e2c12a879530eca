/** Small types, and the 64-bit bound, shared by the components of the model. */
module Wrappers {
  /** Presence or absence of a value, as Rust's `Option`. */
  datatype Option<+T> = None | Some(value: T)

  /** A value or a reason why there is none, as Rust's `Result`. */
  datatype Result<+T, +E> = Ok(value: T) | Err(error: E)

  /** The largest 64-bit unsigned number. */
  const MAX_U64: nat := 0xFFFF_FFFF_FFFF_FFFF
}
