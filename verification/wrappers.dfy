/** Present-or-absent values and success-or-failure results.

    pandas represents a missing cell, a value that failed to parse and a
    Python `None` alike as "NA"; the model keeps only the distinction
    present/absent, as `Option`. A run that raises an exception is a
    `Failure` carrying the exception's message.
 */
module Wrappers {

  datatype Option<+T> = None | Some(value: T) {

    /** The present value, or `default` when absent (Python's `x if pd.notna(x) else default`). */
    function GetOr(default: T): T {
      match this
      case Some(v) => v
      case None => default
    }
  }

  datatype Result<+R, +E> = Success(value: R) | Failure(error: E)
}
