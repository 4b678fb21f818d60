/** Failure-compatible result types shared by the whole model.
    `Option` stands for a value numpy would report as NaN (or a Python `None`),
    `Result` for a computation that raises an exception in the source. */
module Wrappers {

  datatype Option<+T> = None | Some(value: T)

  datatype Result<+R, +E> = Success(value: R) | Failure(error: E) {
    predicate IsFailure() {
      Failure?
    }

    function PropagateFailure<U>(): Result<U, E>
      requires Failure?
    {
      Failure(error)
    }

    function Extract(): R
      requires Success?
    {
      value
    }
  }

  /** Success when `condition` holds, otherwise the given error. */
  function Need<E>(condition: bool, error: E): (r: Result<(), E>)
    ensures r.Success? <==> condition
  {
    if condition then Success(()) else Failure(error)
  }
}
