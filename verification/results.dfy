/**
 Failure-compatible wrappers shared by the whole model, and the one error
 type that stands for the program's `anyhow::Error` values and for the two
 places where the program would panic instead of returning an error.
 */
module Results {

  /** An optional value; used for the foreign parsers (dates, floats). */
  datatype Option<+T> = None | Some(value: T)

  /** Either a value or an error; usable with `:-`. */
  datatype Result<+T, +E> = Ok(value: T) | Err(error: E) {

    predicate IsFailure() {
      Err?
    }

    function PropagateFailure<U>(): Result<U, E>
      requires Err?
    {
      Err(error)
    }

    function Extract(): T
      requires Ok?
    {
      value
    }
  }

  /** Every way a pricing run can stop. */
  datatype BillError =
    /** the text is not three colon-separated `i32` fields */
    | TimeFormat
    /** `60 * hh` or `mm + 60 * hh` leaves the `i32` range (a panic in a debug build) */
    | MinuteOverflow
    /** no tariff rule covers the queried day of week and minute */
    | NoTariff(day: int, minute: int)
    /** the first data row has no fields at all */
    | EmptyFirstRow
    /** a later row's field count differs from the first row's */
    | ColumnMismatch(actual: nat, line: nat, expected: nat)
    /** the first row holds only the date, so the interval width divides by zero (a panic) */
    | ZeroInterval
    /** a date that is not a public holiday cannot be parsed as `YYYYMMDD` */
    | DateParse
    /** an energy cell is not a floating-point number */
    | EnergyParse
}
