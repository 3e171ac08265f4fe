/** Small value types shared by the modules of the drafting model. */
module Base {

  /** A value that may be absent: JavaScript's `T | undefined`. */
  datatype Option<T> = None | Some(value: T)

  /** The outcome of an action that may be refused with a reason. */
  datatype Result<T, E> = Success(value: T) | Failure(error: E)

  function Max(a: int, b: int): int
  {
    if a >= b then a else b
  }

  function Min(a: int, b: int): int
  {
    if a <= b then a else b
  }
}
