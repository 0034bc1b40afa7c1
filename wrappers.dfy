/** Option and Result shapes shared by the two analysers. */
module Wrappers {

  datatype Option<+T> = None | Some(value: T)

  /** The Python exceptions that the core lets escape to its caller. */
  datatype Fault =
    | NoDigitInScoreReply   // `re.search(r"\d+", ...)` found nothing and `.group()` raised
    | GetOnNonObject        // `.get` was called on a decoded JSON value that is not a dict

  datatype Result<+T> = Ok(value: T) | Err(fault: Fault)
}
