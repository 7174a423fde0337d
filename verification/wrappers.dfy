/** `Option` and `Result`, standing for Java's `null` returns and thrown exceptions. */
module Wrappers {

  /** `None` stands for a Java `null`. */
  datatype Option<+T> = None | Some(value: T)

  /** `Failure` stands for a thrown exception. */
  datatype Result<+R, +E> = Success(value: R) | Failure(error: E)
}
