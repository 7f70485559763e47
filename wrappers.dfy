/** Failure-compatible wrappers shared by the model: `Option` stands for a
    value that may be SQL NULL (or pandas NaN/NaT), `Result` for an
    operation that may raise. */
module Wrappers {

  datatype Option<+T> = None | Some(value: T)

  datatype Result<+R, +E> = Success(value: R) | Failure(error: E)
}
