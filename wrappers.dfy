/** Option and Result, the failure-compatible wrappers the model uses for JavaScript's
    `null` values and thrown errors. */
module Wrappers {

  datatype Option<+T> = None | Some(value: T)

  datatype Result<+T, +E> = Ok(value: T) | Err(error: E) {

    predicate IsFailure() {
      Err?
    }

    function PropagateFailure<U>(): Result<U, E>
      requires Err?
    {
      Err(error)
    }

    function Extract(): T
      requires Ok?
    {
      value
    }
  }
}

/** The errors the reader throws, one constructor per `throw` site. */
module Errors {
  import opened Bytes

  datatype Error =
    | RangeError                        // readUtf8String: "Invalid start or end positions"
    | FetchFailed(status: int)          // a range fetch whose response is not `ok`
    | FileNotFound(fileName: seq<byte>)  // downloadFile: "File ... not found in zip."
    | UnsupportedCompression(compressionMethod: int)
    | InflateFailed                     // the raw DEFLATE decoder rejected its input
}
