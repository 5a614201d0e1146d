/** Outcome types shared by the whole model.

    The Go code stops the process (`log.Fatal`, or a runtime panic on a bad
    index) on every parse failure; here each of those paths is an `Err`
    value naming what went wrong, so that callers and lemmas can see it. */
module Errors {

  /** Why an operation did not produce a value. */
  datatype Error =
    | MalformedNumber      // strconv.Atoi / strconv.ParseFloat rejected a coordinate field
    | WrongSuffix          // hemisphere letter other than N/S (latitude) or E/W (longitude)
    | BadTimestamp         // time.Parse("020106 150405", date + " " + clock) failed
    | BadDate              // time.Parse("020106", ...) of a DTE header failed
    | MissingSeparator     // strings.Split(line, ": ")[1] on a SIT header without ": "
    | InvalidFix           // TakeOff met a validity other than 'A' or 'V'
    | NoFixes              // Landing on an empty fix slice
    | NoResults            // a geocoder reply with status "OK" but no results
    | NonPositiveDistance  // WithMaxDistance(d) with d <= 0

  datatype Option<+T> = None | Some(value: T)

  /** A value or the error that prevented it; usable with `:-`. */
  datatype Result<+T> = Ok(value: T) | Err(error: Error) {
    predicate IsFailure() {
      Err?
    }

    function PropagateFailure<U>(): Result<U>
      requires Err?
    {
      Err(error)
    }

    function Extract(): T
      requires Ok?
    {
      value
    }
  }

  /** The result of an operation that returns only an error (Go's `error`). */
  datatype Outcome = Pass | Fail(error: Error)
}
