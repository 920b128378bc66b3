/** The failure-carrying result shared by every module of the model. */
module Wrappers {

  /** A value, or the message of the exception the Kotlin code would throw. */
  datatype Result<T> = Success(value: T) | Failure(error: string)
}
