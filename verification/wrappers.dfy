/** Option, Result and the outcome of an operation that may panic. */
module Wrappers {

  datatype Option<+T> = None | Some(value: T)

  datatype Result<+T, +E> = Ok(value: T) | Err(error: E)

  /** What a Rust operation does when it can panic (an out-of-range slice, say):
      it either returns a value or aborts the whole process. */
  datatype Panicking<+T> = Returns(value: T) | Panics(reason: string)
}
