/** Failure-carrying result types shared by the whole model. */
module Wrappers {

  /** A value that may be missing: an absent object key, an unset option. */
  datatype Option<+T> = None | Some(value: T)

  /** The outcome of a step that can throw: `Err` carries what the source would throw. */
  datatype Result<+T, +E> = Ok(value: T) | Err(error: E) {
    predicate IsFailure() {
      Err?
    }

    function PropagateFailure<U>(): Result<U, E>
      requires Err?
    {
      Err(error)
    }

    function Extract(): T
      requires Ok?
    {
      value
    }
  }
}
