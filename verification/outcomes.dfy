/** The exceptions the modelled Python code can raise, and a failure-compatible
    Result type carrying one of them. A Python call that raises becomes `Fail`;
    `Option` stands for a value that may be Python's `None`. */
module Outcomes {

  datatype Error =
    | NotPdf(filename: string)        // AssertionError of the extension gate
    | Unreadable(filename: string)    // the PDF cannot be opened or parsed
    | NoMetadata(filename: string)    // dict(None): the PDF has no document information
    | ZeroDivision                    // alpha ratio of an empty chunk
    | MissingKey(key: string)         // KeyError on a dict lookup
    | DateOverflow                    // date arithmetic below 0001-01-01
    | InvalidDate                     // ValueError of date.replace
    | EmptyWindow                     // no article falls in the requested time window
    | LlmFailure                      // the model call or the parsing of its answer failed

  datatype Option<+T> = None | Some(value: T)

  datatype Result<+T> = Ok(value: T) | Fail(error: Error) {

    predicate IsFailure() {
      Fail?
    }

    function PropagateFailure<U>(): Result<U>
      requires Fail?
    {
      Fail(error)
    }

    function Extract(): T
      requires Ok?
    {
      value
    }
  }
}
