/** Optional values and results, the model's stand-ins for JavaScript's
    `null`/`undefined` and for exceptions that propagate to the caller. */
module Wrappers {

  /** `None` plays the part of `null` or `undefined`. */
  datatype Option<+T> = None | Some(value: T) {

    /** The `??` operator: the value if present, else `default`. */
    function GetOr(default: T): T {
      match this
      case Some(v) => v
      case None => default
    }

    /** Chained `??` between two optional values. */
    function OrElse(other: Option<T>): Option<T> {
      match this
      case Some(_) => this
      case None => other
    }
  }

  /** A computation that either returns a value or throws `error`. */
  datatype Result<+R, +E> = Success(value: R) | Failure(error: E)
}
