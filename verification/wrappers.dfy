/** Option and Result, the two failure-carrying shapes the engine uses. */
module Wrappers {

  datatype Option<+T> = None | Some(value: T)

  /** `Err` carries the reason an operation gave up (an `eyre` report in the system). */
  datatype Result<+R, +E> = Ok(value: R) | Err(error: E) {

    predicate IsFailure() {
      Err?
    }

    function PropagateFailure<U>(): Result<U, E>
      requires Err?
    {
      Err(error)
    }

    function Extract(): R
      requires Ok?
    {
      value
    }
  }
}
