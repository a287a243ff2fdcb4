/** Failure-compatible results, usable with `:-`, shared by every module. */
module Outcomes {

  datatype Option<+T> = None | Some(value: T)

  /** A value, or the code of the exception that the source raises. */
  datatype Result<+T> = Ok(value: T) | Err(error: string) {
    predicate IsFailure() {
      Err?
    }

    function PropagateFailure<U>(): Result<U>
      requires Err?
    {
      Err(error)
    }

    function Extract(): T
      requires Ok?
    {
      value
    }
  }

  /** The outcome of a check that returns nothing when it passes. */
  datatype Check = Pass | Reject(code: string) {
    predicate IsFailure() {
      Reject?
    }

    function PropagateFailure(): Check
      requires Reject?
    {
      this
    }
  }

  function Need(condition: bool, code: string): Check {
    if condition then Pass else Reject(code)
  }
}
