/** Small value wrappers shared by the whole model: Java's Optional, a
    success-or-failure result for operations that throw, and the Either that
    build-file arguments use for "a string or a list of strings". */
module Wrappers {

  /** java.util.Optional */
  datatype Option<+T> = None | Some(value: T)

  /** The outcome of an operation that may throw: the value, or the exception's message. */
  datatype Result<+T, +E> = Success(value: T) | Failure(error: E)

  /** A value of one of two types, as in a build-file argument that is either a string or a list. */
  datatype Either<+L, +R> = Left(left: L) | Right(right: R)
}
