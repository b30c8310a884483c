/** JavaScript's `undefined` as a value: a lookup, parse or match that can fail
    returns `None` instead of `undefined`. */
module Optional {

  datatype Option<+T> = None | Some(value: T) {

    /** The value, or `default` when there is none (the `x || default` idiom
        for values that are never falsy). */
    function GetOr(default: T): T {
      match this
      case Some(v) => v
      case None => default
    }
  }

  /** The outcome of an operation that can throw: `Failure` carries the
      message the JavaScript exception would have carried. */
  datatype Result<+T> = Success(value: T) | Failure(error: string)
}
