/** Option, the Python exceptions the solver raises, and a Result that propagates them with `:-`. */
module Outcomes {

  datatype Option<T> = None | Some(value: T)

  /** The exception classes that the modelled code raises. */
  datatype Error =
    | ValueError
    | IndexError
    | AttributeError
    | TypeError
    | AssertionError
    | InvalidBoard

  /** A value or the exception that replaced it. */
  datatype Result<T> = Ok(value: T) | Err(error: Error) {
    predicate IsFailure() { Err? }

    function PropagateFailure<U>(): Result<U>
      requires Err?
    {
      Err(error)
    }

    function Extract(): T
      requires Ok?
    {
      value
    }
  }
}
