/** Outcomes of the repository's operations: a value, or the Python exception that
    the operation would raise. */
module Wrappers {

  /** The exceptions the modelled code can raise. */
  datatype Error =
    | KeyError(key: string)        // a dict lookup of a missing key
    | ValueError(column: string)   // an empty neighbourhood name, reported with its column
    | EmptyMax                     // `max()` of an empty sequence
    | TypeError                    // a call with the wrong number of arguments

  datatype Option<+T> = None | Some(value: T)

  datatype Result<+T> = Ok(value: T) | Err(error: Error) {
    predicate IsFailure() { Err? }

    function PropagateFailure<U>(): Result<U>
      requires Err?
    {
      Err(error)
    }

    function Extract(): T
      requires Ok?
    {
      value
    }
  }
}
