/** Optional values and results with an error, for the places where the
    script either leaves a variable unassigned or throws. */
module Wrappers {

  /** `None` stands for a JavaScript variable that was declared but never assigned. */
  datatype Option<+T> = None | Some(value: T)

  /** `Failure` stands for an exception thrown by the script. */
  datatype Result<+R, +E> = Success(value: R) | Failure(error: E)
}
