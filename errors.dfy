/** The four recoverable errors of the scoring engine, and the two shapes a
    throwing operation takes once its error is made explicit. */
module BowlingErrors {

  datatype BowlingError =
    | InvalidNumberOfPins
    | TooManyPinsInFrame
    | GameInProgress
    | GameIsOver

  /** What a throwing operation without a return value produces. */
  datatype Outcome = Pass | Fail(error: BowlingError)

  /** What a throwing operation with a return value produces. */
  datatype Result<T> = Success(value: T) | Failure(error: BowlingError)
}
