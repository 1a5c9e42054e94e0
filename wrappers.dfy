/** Optional values and error results, used in place of pandas' NaN/NaT
    sentinels and Python exceptions. */
module Wrappers {

  /** A value that may be missing: `None` stands for NaN or NaT. */
  datatype Option<+T> = None | Some(value: T)

  /** The outcome of a computation that may raise. */
  datatype Result<+R, +E> = Success(value: R) | Failure(error: E)
}
