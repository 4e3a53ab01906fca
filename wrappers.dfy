/** Optional values and results with an error, standing in for Java's null returns and thrown exceptions. */
module Wrappers {

  /** A value that may be absent; `None` plays the part of a Java `null` result. */
  datatype Option<+T> = None | Some(value: T)

  /** Either a result or the error a Java method would have thrown instead. */
  datatype Result<+R, +E> = Success(value: R) | Failure(error: E)
}
