/** Small value types shared by every module of the model. */
module Wrappers {

  /** Rust's `Option<T>`. */
  datatype Option<+T> = None | Some(value: T)

  /** An octet, Rust's `u8`. */
  type byte = x: int | 0 <= x < 256
}
