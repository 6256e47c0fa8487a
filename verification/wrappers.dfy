/** Failure-carrying values shared by the model: an optional value and a
    success-or-error result. */
module Wrappers {

  /** An optional value; stands for TypeScript's `T | undefined` and `T | null`. */
  datatype Option<+T> = None | Some(value: T) {

    /** The wrapped value, or `default` when there is none. */
    function GetOr(default: T): T {
      match this
      case Some(v) => v
      case None => default
    }
  }

  /** The value of an operation that either returns or throws an error message. */
  datatype Result<+R> = Success(value: R) | Failure(error: string)
}
