/** Failure-compatible result types shared by every part of the model.
    The engine reports its failures as C++ exceptions; each kind it can
    raise becomes one constructor of Error. */
module Errors {

  /** The ways an engine call can end without a value.
      InvalidArgument and OutOfRange are the std exceptions of those names;
      Terminated stands for an exception that escapes the callable of a
      standard algorithm run under an execution policy, which ends the
      process through std::terminate instead of propagating. */
  datatype Error = InvalidArgument | OutOfRange | Terminated

  datatype Option<+T> = None | Some(value: T)

  /** The value of a call that returns something or throws. */
  datatype Result<+T> = Success(value: T) | Failure(error: Error) {
    predicate IsFailure() { Failure? }

    function PropagateFailure<U>(): Result<U>
      requires Failure?
    {
      Failure(error)
    }

    function Extract(): T
      requires Success?
    {
      value
    }
  }

  /** The value of a call that returns nothing or throws. */
  datatype Outcome = Pass | Fail(error: Error)
}
