/** The two result types the model uses where the program returns None or raises. */
module Wrappers {
  datatype Option<+T> = None | Some(value: T)

  /** `Failure` stands for a raised exception. */
  datatype Result<+T, +E> = Success(value: T) | Failure(error: E) {
    predicate IsFailure() {
      Failure?
    }

    function PropagateFailure<U>(): Result<U, E>
      requires Failure?
    {
      Failure(error)
    }

    function Extract(): T
      requires Success?
    {
      value
    }
  }
}
