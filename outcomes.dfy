/** The error-or-value result shared by the parsers of both scripts.
    Python signals failure by raising; here an `Err` carries the exception. */
module Outcomes {

  datatype Result<+T, +E> = Ok(value: T) | Err(error: E) {

    predicate IsFailure() {
      Err?
    }

    function PropagateFailure<U>(): Result<U, E>
      requires Err?
    {
      Err(error)
    }

    function Extract(): T
      requires Ok?
    {
      value
    }
  }
}
