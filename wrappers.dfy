/** Failure-compatible result types used by the operations of the crypto layer. */
module Wrappers {

  datatype Option<+T> = None | Some(value: T)

  /** A value-carrying result: what an operation returns, or the error it throws. */
  datatype Result<+R, +E> = Success(value: R) | Failure(error: E)

  /** A result that carries no value: the operation returned normally, or threw. */
  datatype Outcome<+E> = Pass | Fail(error: E)
}
