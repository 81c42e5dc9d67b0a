/** Failure values for the exceptions the bit-set code throws. */
module Errors {

  /** The Java exception classes the modelled code raises. */
  datatype Error =
    | IllegalArgument       // IllegalArgumentException: bad parameter, index or range
    | IndexOutOfBounds      // IndexOutOfBoundsException: segment level outside the index
    | UnsupportedOperation  // UnsupportedOperationException: mutating a sentinel level
    | IllegalState          // IllegalStateException: validate() found corrupted counters

  /** A value, or the exception that was thrown instead of returning it. */
  datatype Result<+T> = Ok(value: T) | Fail(error: Error)

  /** A Java reference that may be null. */
  datatype Option<+T> = None | Some(value: T)
}
