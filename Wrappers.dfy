/** Absent values and failures, standing in for Java's null and thrown exceptions. */
module Wrappers {

  datatype Option<T> = None | Some(value: T)

  /** Success carries the value an operation returns; Failure carries what its exception reports. */
  datatype Result<T, E> = Success(value: T) | Failure(error: E)
}
