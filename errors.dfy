/** Optional values, results, and the kinds of failure the clipper reports.

    Every exception of the program prints its class name and exits the process
    from inside its constructor; here each one is a value of `Error` that the
    parsing and validation functions return instead. */
module Errors {

  datatype Option<+T> = None | Some(value: T)

  /** Why a single time section was refused (`InvalidTimeDurationException`). */
  datatype DurationFault =
    | NotANumber(section: string)          // the section is not an integer
    | OutOfRange(value: nat, max: nat)     // the integer is above the allowed maximum

  /** Why a time string or a list of intervals was refused (`InvalidTimeIntervalException`). */
  datatype IntervalFault =
    | TooManySections(count: nat)          // more than three colon-separated sections
    | Overlap                              // an interval ends at or after the start of the next one

  datatype Error =
    | InvalidTimeDuration(duration: DurationFault)
    | InvalidTimeInterval(interval: IntervalFault)
      /** More than one dash in an interval string: the two-name unpacking of the
          split result fails with a plain `ValueError`, not an application exception. */
    | TooManyValuesToUnpack(count: nat)

  /** The value of a computation that may fail; usable with `:-`. */
  datatype Result<+T> = Success(value: T) | Failure(error: Error) {
    predicate IsFailure() {
      Failure?
    }

    function PropagateFailure<U>(): Result<U>
      requires Failure?
    {
      Failure(error)
    }

    function Extract(): T
      requires Success?
    {
      value
    }
  }

  /** The outcome of a check that produces no value. */
  datatype Outcome = Pass | Fail(error: Error)
}
