/** Shared vocabulary: optional values, results, and the error kinds the
    request-parsing layer raises. Each `Error` constructor stands for one
    Python exception raised by the modelled code, with the message it carries. */
module Base {

  datatype Option<+T> = None | Some(value: T)

  /** The exceptions of the modelled code. */
  datatype Error =
    | InvalidEscape          // ValueError from int(..., 16) in the percent decoder
    | BadQueryField          // ValueError "bad query field"
    | UnknownContentType     // ValueError "unknown content type"
    | MalformedContentType   // ValueError "content-type header is not formatted correctly"
    | UnsupportedFileType    // ValueError "this filetype is not supported"
    | ResourceNotLocated     // ValueError "Resource cannot be located"
    | MissingKey(key: string)     // KeyError on an environ lookup
    | NoAttribute(name: string)   // AttributeError from getattr
    | NotCallable            // TypeError: calling an object that is not callable
    | Latin1EncodeError      // UnicodeEncodeError from str.encode("latin1")
    | IndexOutOfRange        // IndexError from indexing an empty list

  /** A value or the exception that replaced it; usable with `:-`. */
  datatype Result<+T> = Ok(value: T) | Err(error: Error) {
    predicate IsFailure() { Err? }

    function PropagateFailure<U>(): Result<U>
      requires Err?
    {
      Err(error)
    }

    function Extract(): T
      requires Ok?
    {
      value
    }
  }

  /** A byte, as held by a Python bytearray. */
  newtype byte = x: int | 0 <= x < 256
}
