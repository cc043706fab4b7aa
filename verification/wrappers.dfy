/** Absent values and error results shared by the other modules. */
module Wrappers {

  /** A value that may be missing; `None` also stands for a NaN cell. */
  datatype Option<+T> = None | Some(value: T)

  /** The outcome of an operation that can raise. */
  datatype Result<+R, +E> = Success(value: R) | Failure(error: E)
}
