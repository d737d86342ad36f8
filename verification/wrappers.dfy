/** Failure-compatible result types shared by every module of the model. */
module Wrappers {

  /** A value that may be absent: Python's `None` for a nullable column or variable. */
  datatype Option<+T> = None | Some(value: T)

  /** The outcome of an operation that can raise: `Failure` carries what the exception carried. */
  datatype Result<+T, +E> = Success(value: T) | Failure(error: E)

  function Min(a: int, b: int): int { if a <= b then a else b }

  function Max(a: int, b: int): int { if a >= b then a else b }
}
