/** Failure-carrying result types shared by the whole model. A Rust `panic!`
    or `Err(..)` in the modelled code becomes a `Failure` (or `None`) here, so
    that error paths are part of each contract instead of being excluded by a
    precondition. */
module Wrappers {

  datatype Option<+T> = None | Some(value: T)

  datatype Result<+R, +E> = Success(value: R) | Failure(error: E) {
    predicate IsFailure() {
      Failure?
    }

    function PropagateFailure<U>(): Result<U, E>
      requires Failure?
    {
      Failure(error)
    }

    function Extract(): R
      requires Success?
    {
      value
    }
  }
}
