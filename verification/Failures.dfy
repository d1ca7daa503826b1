/** The error values and the failure-carrying wrappers shared by the argument
    tokenisers, the argument resolver and the stitcher. Go reports every failure
    as a wrapped `error` with a formatted message; here each failure is a tag
    that keeps the context the message would have printed. */
module Failures {

  /** One tag per `errors.Errorf` call site of the modelled code. */
  datatype Error =
    | NoInputFiles                           // the --files argument was empty
    | BadLoopCount(piece: string)            // a --loops piece is not a decimal int
    | CountMismatch(files: nat, loops: nat)  // both list lengths, as in the message
    | CannotOpen(name: string)               // os.Open failed on the named file
    | CannotDecode(name: string)             // gif.DecodeAll failed on the named file

  datatype Option<+T> = None | Some(value: T)

  /** A Go `(value, error)` return whose value is discarded on failure. */
  datatype Result<+T> = Ok(value: T) | Err(error: Error)
}
