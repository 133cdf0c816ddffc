/** Failure-compatible result type shared by the assembler and the simulator. */
module Wrappers {

  datatype Option<T> = None | Some(value: T)

  /** Either a value or the error that stopped the computation. */
  datatype Result<T, E> = Ok(value: T) | Err(error: E) {

    predicate IsFailure() {
      Err?
    }

    function PropagateFailure<U>(): Result<U, E>
      requires Err?
    {
      Err(error)
    }

    function Extract(): T
      requires Ok?
    {
      value
    }
  }
}
