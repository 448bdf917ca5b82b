/** Option and Result values used for the error paths of the assembler. */
module Wrappers {
  datatype Option<+T> = None | Some(value: T)

  /** `Result` is failure-compatible, so `:-` stops at the first `Err`. */
  datatype Result<+T, +E> = Ok(value: T) | Err(error: E) {
    predicate IsFailure() {
      Err?
    }

    function PropagateFailure<U>(): Result<U, E>
      requires Err?
    {
      Err(error)
    }

    function Extract(): T
      requires Ok?
    {
      value
    }
  }
}
