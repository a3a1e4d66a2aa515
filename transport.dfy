/** What the reader sees of an HTTP response to a range request: the status, the
    `Content-Length` header as `parseInt` reads it (absent or unparsable counts as
    `NaN`, here `None`) and the body as the chunks its stream reader delivers. */
module Http {
  import opened Bytes
  import opened Wrappers

  datatype Response = Response(status: int, contentLength: Option<int>, chunks: seq<seq<byte>>)

  /** `response.ok`: a status in the range 200-299. */
  predicate IsOk(r: Response) {
    200 <= r.status <= 299
  }

  /** `response.arrayBuffer()`: the chunks joined in arrival order. */
  function Body(r: Response): seq<byte> {
    Flatten(r.chunks)
  }

  /** A fetch of the archive's URL with a given `Range` header value. The bucket and
      key, and the URL built from them, are fixed for the lifetime of a fetch. */
  type Fetch = string -> Response
}
