/** Failure-compatible wrapper used for the source's nil results and thrown errors. */
module Wrappers {

  /** Some/None, standing for a Go pointer that may be nil or a JS value that may be undefined. */
  datatype Option<+T> = None | Some(value: T) {

    predicate IsFailure() {
      None?
    }

    function PropagateFailure<U>(): Option<U>
      requires None?
    {
      None
    }

    function Extract(): T
      requires Some?
    {
      value
    }
  }
}
