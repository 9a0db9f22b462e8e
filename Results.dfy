/** Failure values of the generator: every failure the model keeps, on the
    path from the command line to the printed tokens, is one constructor of
    `Error`. */
module Results {

  datatype Option<+T> = None | Some(value: T)

  datatype Error =
    | InvalidTimezone   // the offset text is not `UTC[+-]?[0-9]{0,2}`
    | OffsetOutOfRange  // `datetime.timezone` refuses an offset of 24 hours or more
    | MissingSecret     // neither the option nor the environment gives a secret
    | InvalidTime       // `strptime(..., '%H:%M')` fails
    | InvalidDate       // `strptime(..., '%Y-%m-%d')` fails
    | DateOutOfRange    // a date would fall outside 0001-01-01 .. 9999-12-31

  datatype Result<+T> = Ok(value: T) | Err(error: Error)

  /** Python truthiness of an optional string (`if value:`): present and
      non-empty. The secret option, its environment value and `--date` are
      all tested this way. */
  predicate Supplied(v: Option<string>) {
    v.Some? && v.value != ""
  }
}
