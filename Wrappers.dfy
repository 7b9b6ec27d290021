/** Option and Result: the model's stand-ins for Java's null and for thrown exceptions. */
module Wrappers {

  /** `None` plays the part of a Java `null` reference. */
  datatype Option<+T> = None | Some(value: T)

  /** `Failure` plays the part of an exception thrown by the modelled call. */
  datatype Result<+R, +E> = Success(value: R) | Failure(error: E)
}
