/** The error taxonomy of the codec and a failure-compatible result type.
    Each constructor stands for one exception type the library raises. */
module Errors {

  datatype Error =
    | ArgumentError      // ArgumentException: a value that the callee cannot accept
    | OutOfRange         // ArgumentOutOfRangeException: a length outside 1..8
    | ArgumentNull       // ArgumentNullException: an absent string payload
    | FormatError        // malformed bytes in the stream
    | InvalidOperation   // a reader or writer call made in the wrong state
    | StructuralError    // a required container (Segment, Info) is missing
    | CapacityError      // no adjacent filler large enough to absorb a rewrite

  datatype Result<+T> = Ok(value: T) | Err(error: Error) {

    predicate IsFailure() {
      Err?
    }

    function PropagateFailure<U>(): Result<U>
      requires Err?
    {
      Err(error)
    }

    function Extract(): T
      requires Ok?
    {
      value
    }
  }

  datatype Option<+T> = None | Some(value: T)
}
