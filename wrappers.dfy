/** Option, Result and Outcome: the Rust `Option`, a translation step that either
    yields a value or stops at a panic, and a step that yields nothing but may panic. */
module Wrappers {

  datatype Option<+T> = None | Some(value: T)

  datatype Result<+R, +E> = Success(value: R) | Failure(error: E)

  datatype Outcome<+E> = Pass | Fail(error: E)
}
