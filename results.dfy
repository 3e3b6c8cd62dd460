/** Failure values of the extension methods.  The source reports every failure by throwing
    (and re-wrapping) an exception; here the kind of the original exception is kept. */
module Results {

  /** The exception kinds the modelled code can raise. */
  datatype Error =
    | FormatError          // FormatException: wrong number of date parts, or a part that is not a number
    | ArgumentOutOfRange   // ArgumentOutOfRangeException from the calendar: year, month or day out of range

  datatype Result<+T> = Ok(value: T) | Err(error: Error) {
    predicate IsFailure() { Err? }

    function PropagateFailure<U>(): Result<U>
      requires Err?
    {
      Err(error)
    }

    function Extract(): T
      requires Ok?
    {
      value
    }
  }
}
