/** Error and optional-value types shared by the whole model. */
module Errors {

  datatype Option<+T> = None | Some(value: T)

  /** The error kinds the modelled code can report. */
  datatype Error =
    | KeyTooLarge        // a key does not fit a u16 length prefix
    | IdTooLarge         // a document id does not fit a u16 length prefix
    | DataIntegrity      // a declared length runs past the end of the record
    | UnexpectedEof      // a fixed-width read ran out of bytes
    | Io                 // the storage layer failed

  datatype Result<+T> = Ok(value: T) | Err(error: Error) {
    predicate IsFailure() { Err? }

    function PropagateFailure<U>(): Result<U>
      requires Err?
    {
      Err(error)
    }

    function Extract(): T
      requires Ok?
    {
      value
    }
  }
}
