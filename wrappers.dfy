/** Failure-carrying values: Python's raised exceptions become an `Err` result. */
module Wrappers {

  datatype Option<+T> = None | Some(value: T)

  /** The built-in exception classes that the modelled code can raise. */
  datatype Error =
    | ValueError
    | TypeError
    | KeyError
    | IndexError
    | AttributeError
    | NameError
    | ZeroDivisionError

  datatype Result<+T> = Ok(value: T) | Err(error: Error) {
    predicate IsFailure() {
      Err?
    }

    function PropagateFailure<U>(): Result<U>
      requires Err?
    {
      Err(error)
    }

    function Extract(): T
      requires Ok?
    {
      value
    }
  }
}
