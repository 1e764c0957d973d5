/** Option and Result: a possibly-null reference and an operation that may throw. */
module Wrappers {

  /** `None` stands for a Java `null`. */
  datatype Option<+T> = None | Some(value: T)

  /** `Failure` stands for a thrown exception carrying its message. */
  datatype Result<+R, +E> = Success(value: R) | Failure(error: E)
}
