/**
 * The two shapes of JavaScript value the model needs everywhere: a property that may be
 * `undefined`, and a call that may throw.
 */
module JsValues {

  /** A property value, or `undefined` (`None`). */
  datatype Option<+T> = None | Some(value: T) {
    /** The value, or `fallback` when it is `undefined`. */
    function OrElse(fallback: T): T {
      if Some? then value else fallback
    }
  }

  /**
   * A call that returns `value` or throws an `Error` carrying `message`. The three members
   * below let `:-` propagate a throw the way an uncaught exception leaves the caller.
   */
  datatype Result<+T> = Ok(value: T) | Err(message: string) {
    predicate IsFailure() {
      Err?
    }

    function PropagateFailure<U>(): Result<U>
      requires Err?
    {
      Err(message)
    }

    function Extract(): T
      requires Ok?
    {
      value
    }
  }
}
