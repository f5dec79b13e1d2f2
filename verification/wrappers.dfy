/** Option and Result datatypes shared by the churn model. */
module Wrappers {

  /** A value that may be missing: a timestamp that failed to parse is `None`. */
  datatype Option<+T> = None | Some(value: T)

  /** The outcome of a step that can abort the whole run. */
  datatype Result<+R, +E> = Success(value: R) | Failure(error: E)
}
