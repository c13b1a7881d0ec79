/** Failure-compatible result types used by every operation that the source
    lets throw or answer `null`. */
module Wrappers {

  /** `None` stands for the source's `null`. */
  datatype Option<+T> = None | Some(value: T)

  /** `Failure` stands for a thrown `Error`. When the source throws before
      changing anything, the error carries no new state and the caller's value
      is exactly what it was before the call; an error raised after a change
      carries the state the change left behind. */
  datatype Result<+R, +E> = Success(value: R) | Failure(error: E) {

    predicate IsFailure() {
      Failure?
    }

    function PropagateFailure<U>(): Result<U, E>
      requires Failure?
    {
      Failure(error)
    }

    function Extract(): R
      requires Success?
    {
      value
    }
  }
}
