/** Failure-compatible result types shared by the codec and its callers. */
module Wrappers {

  /** A value that may be missing: the model of a Go pointer that may be nil. */
  datatype Option<+T> = None | Some(value: T)

  /** Either a value or an error, the model of Go's `(T, error)` return pair. */
  datatype Result<+T, +E> = Ok(value: T) | Err(error: E) {

    predicate IsFailure() {
      Err?
    }

    function PropagateFailure<U>(): Result<U, E>
      requires Err?
    {
      Err(error)
    }

    function Extract(): T
      requires Ok?
    {
      value
    }
  }
}
