/** Optional values and success-or-error results, used for Python's `None` and raised exceptions. */
module Results {

  datatype Option<+T> = None | Some(value: T)

  /** A computation that either produced a value or raised an error. Works with `:-`. */
  datatype Result<+T, +E> = Ok(value: T) | Err(error: E) {

    predicate IsFailure() {
      Err?
    }

    function PropagateFailure<U>(): Result<U, E>
      requires Err?
    {
      Err(error)
    }

    function Extract(): T
      requires Ok?
    {
      value
    }
  }
}
