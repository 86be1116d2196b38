/** Absent values and failures. */
module Wrappers {
  datatype Option<+T> = None | Some(value: T)

  datatype Result<+T, +E> = Ok(value: T) | Err(error: E) {
    function Map<U>(f: T -> U): Result<U, E> {
      match this
      case Ok(t) => Ok(f(t))
      case Err(e) => Err(e)
    }
  }
}
