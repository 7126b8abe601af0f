/** The Python exceptions the modelled code can raise, and the value-or-exception
    types every fallible operation of the model returns. */
module Errors {

  datatype Error =
    | AssertionError      // a failed `assert`
    | ValueError          // `int()` of a non-number, an unknown metric name, `range()` with step 0
    | IndexError          // an index out of range; `argmax`/`argmin` over zero codes
    | AttributeError      // a tensor attribute read on a value that is not a tensor
    | RuntimeError        // a torch shape mismatch in `matmul` or `cdist`
    | ZeroDivisionError
    | NameError           // `UnboundLocalError`, a subclass: a loop variable read after a loop that never ran

  /** Either the value an operation returns or the exception it raises. */
  datatype Result<+T> = Ok(value: T) | Err(error: Error) {

    predicate IsFailure() {
      Err?
    }

    function PropagateFailure<U>(): Result<U>
      requires Err?
    {
      Err(error)
    }

    function Extract(): T
      requires Ok?
    {
      value
    }
  }

  /** Python's `None` or a present value. */
  datatype Option<+T> = None | Some(value: T)
}
