/** Missing values and error returns. */
module Wrappers {

  /** A value that may be missing: pandas' NaN / NaT. */
  datatype Option<+T> = None | Some(value: T)

  /** The outcome of a step that can raise. */
  datatype Result<+R, +E> = Success(value: R) | Failure(error: E)
}
