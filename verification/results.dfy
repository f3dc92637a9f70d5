/** Failure-compatible wrappers shared by every module of the model.
    `Error` names the Python exception a step raises; the message is the
    string the source formats into it. */
module Results {

  /** An optional value, as returned by a search that may find nothing. */
  datatype Option<+T> = None | Some(value: T)

  /** The exceptions the modelled code raises or lets through. */
  datatype Error =
    | ValueError(message: string)
    | FileNotFoundError(message: string)
    | JsonDecodeError(message: string)
    /** Raised by code outside the model: the HTTP download, PIL, OpenCV,
        PyMuPDF, the file system, the language-model client. */
    | LibraryError(message: string)

  /** The outcome of a step: a value, or the exception it raised. */
  datatype Result<+T> = Ok(value: T) | Err(error: Error) {

    predicate IsFailure() {
      Err?
    }

    function PropagateFailure<U>(): Result<U>
      requires Err?
    {
      Err(error)
    }

    function Extract(): T
      requires Ok?
    {
      value
    }
  }
}
