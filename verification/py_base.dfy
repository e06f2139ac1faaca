/** Python's `None`-or-value results and the exceptions the scripts can raise,
    as values: every operation that can raise returns a `Result`. */
module PyBase {

  datatype Option<+T> = None | Some(value: T)

  /** The exception classes raised by the modelled code. */
  datatype Error =
    | KeyError(key: string)      // `d[key]` on a missing key
    | IndexError(index: int)     // `xs[i]` out of range
    | TypeError(message: string) // iterating over `None`
    | ValueError(message: string)

  datatype Result<+T> = Ok(value: T) | Err(error: Error)
}
