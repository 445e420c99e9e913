/** Failure-compatible wrappers shared by every module of the model. */
module Wrappers {

  /** A value that may be absent; pandas' NaN and Python's None both become None. */
  datatype Option<+T> = None | Some(value: T)

  /** The outcome of an operation that the source can abort by raising an exception. */
  datatype Result<+T, +E> = Success(value: T) | Failure(error: E)

  function Min(a: int, b: int): (r: int)
    ensures r <= a && r <= b && (r == a || r == b)
  {
    if a <= b then a else b
  }
}
