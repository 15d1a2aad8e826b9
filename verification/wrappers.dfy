/** Failure-compatible wrappers used across the model: `Option` for values that
    may be absent (Ruby's nil) and `Result` for operations that raise. */
module Wrappers {

  datatype Option<+T> = None | Some(value: T)

  /** `Failure` stands for a raised exception; `Success` for a normal return. */
  datatype Result<+R, +E> = Success(value: R) | Failure(error: E)
}
