/** Option and Result, used where the Java code has null references and exceptions. */
module Wrappers {

  /** `None` plays the part of a Java `null` reference. */
  datatype Option<+T> = None | Some(value: T)

  /** `Failure` plays the part of an exception the Java code lets escape. */
  datatype Result<+R, +E> = Success(value: R) | Failure(error: E)
}
