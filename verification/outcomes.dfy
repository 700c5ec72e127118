/** Failure-carrying results used throughout the model. A Go function that
    returns `(T, error)` becomes a function returning `Outcome<T>`; a Go
    panic, which the source never recovers from, is kept apart from ordinary
    errors so that contracts can say which of the two happens. */
module Outcomes {

  datatype Option<+T> = None | Some(value: T)

  datatype Error =
    | Error(message: string)    // an `error` value, identified by its text
    | Panic(reason: string)     // nil dereference, failed type assertion, index out of range
    | Diverges(reason: string)  // the Go code loops forever
    | OutOfFuel                 // `eval` nested deeper than the model's bound

  datatype Outcome<+T> = Ok(value: T) | Fail(error: Error) {

    predicate IsFailure() {
      Fail?
    }

    function PropagateFailure<U>(): Outcome<U>
      requires Fail?
    {
      Fail(error)
    }

    function Extract(): T
      requires Ok?
    {
      value
    }
  }
}
