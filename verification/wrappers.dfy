/** Option and Result, used for absent values and for the analyzer's I/O failures. */
module Wrappers {

  datatype Option<+T> = None | Some(value: T)

  /** The reason an analyzer pass failed (Java's IOException, rethrown unchecked). */
  datatype IoError = IoError(message: string)

  datatype Result<+T> = Success(value: T) | Failure(error: IoError)
}
