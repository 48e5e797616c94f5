/** Return and failure values shared by the Standard MIDI File reader. */
module Outcomes {

  datatype Option<+T> = None | Some(value: T)

  /** The exceptions the reader throws: `std::logic_error`, `UnsupportedTime`,
      `PrematureEOF` and `CorruptFile`. */
  datatype Failure = LogicError | UnsupportedTime | PrematureEOF | CorruptFile

  /** The outcome of a reader operation: a value, or the exception it throws. */
  datatype Result<+T> = Ok(value: T) | Err(error: Failure)
}
