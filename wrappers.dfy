/** Failure-compatible wrappers shared by every module of the model. */
module Wrappers {

  /** An optional value; `None` also stands for Rust's `None` and JavaScript's `undefined`. */
  datatype Option<+T> = None | Some(value: T)

  /** A value or an error message, as the route engine's `Result<_, String>`. */
  datatype Result<+R, +E> = Success(value: R) | Failure(error: E)

  /** Unsigned machine integers of the engine (Rust `u8`, `u16`). */
  type U8 = x: int | 0 <= x < 256
  type U16 = x: int | 0 <= x < 65536
}
