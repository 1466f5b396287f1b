/** Result shapes shared by all modules. */
module Wrappers {

  datatype Option<+T> = None | Some(value: T)

  datatype Result<+T, +E> = Success(value: T) | Failure(error: E)

  /** The outcome of code that can return a value, return an error, or panic. */
  datatype Outcome<+T, +E> = Done(value: T) | Rejected(error: E) | Panicked {

    predicate IsFailure()
    {
      !Done?
    }

    function PropagateFailure<U>(): Outcome<U, E>
      requires IsFailure()
    {
      if Panicked? then Panicked else Rejected(error)
    }

    function Extract(): T
      requires !IsFailure()
    {
      value
    }
  }
}
