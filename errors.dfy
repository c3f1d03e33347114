/** The error kinds of the library and the result type its operations return. */
module Errors {
  /**
   * The four error kinds.  The human-readable message that the library attaches to
   * every kind except CrcMismatch is not modelled; CrcMismatch keeps both of its
   * fields: the CRC byte the password claims and the full 16-bit CRC recomputed
   * from the other bytes.
   */
  datatype Dq1Error =
    | InvalidGameState
    | InvalidPassword
    | CrcMismatch(expected: bv8, actual: bv16)
    | InvalidPattern

  datatype Option<T> = None | Some(value: T)

  datatype Result<T> = Ok(value: T) | Err(error: Dq1Error) {
    predicate IsFailure() {
      Err?
    }

    function PropagateFailure<U>(): Result<U>
      requires Err?
    {
      Err(error)
    }

    function Extract(): T
      requires Ok?
    {
      value
    }

    /** The result with its success value dropped, as `map(|_| ())` does. */
    function Unit(): (r: Result<()>)
      ensures r.Ok? <==> Ok?
      ensures Err? ==> r.error == error
    {
      if Ok? then Ok(()) else Err(error)
    }
  }
}
