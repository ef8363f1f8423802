/** Optional values and value-or-error results: the model's stand-ins for a
    Go value that may be missing and for Go's `(value, error)` return pairs.
    `Result` supports `:-`, which plays the part of `if err != nil { return }`. */
module Wrappers {

  datatype Option<+T> = None | Some(value: T)

  /** Either a value or an error; usable with `:-`. */
  datatype Result<+T, +E> = Success(value: T) | Failure(error: E) {

    predicate IsFailure() {
      Failure?
    }

    function PropagateFailure<U>(): Result<U, E>
      requires Failure?
    {
      Failure(error)
    }

    function Extract(): T
      requires Success?
    {
      value
    }

    /** The value on success, `default` on failure. */
    function GetOr(default: T): T {
      match this
      case Success(v) => v
      case Failure(_) => default
    }
  }
}
