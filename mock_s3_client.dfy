/** `MockS3Client.send`, MockS3Client.js:12-56: an S3 client stand-in that answers a
    `GetObjectCommand` from an in-memory store, cutting the object with the same
    `Range` selection as the mock HTTP server but without its 416 guard. The promise
    is reduced to its outcome and the body to the bytes `transformToByteArray` yields;
    `transformToString` (a UTF-8 decode) and the `ContentRange` string are not part of
    the model. */
module MockS3Client {
  import opened Bytes
  import opened Wrappers
  import opened RangeHeader
  import opened MockRange
  import MockHttpServer

  /** `command.constructor.name` and `command.input`'s `Bucket`, `Key` and `Range`. */
  datatype Command = Command(className: string, bucket: string, key: string, range: Option<string>)

  /** The three rejections: "Unsupported command", "NoSuchKey: ...", "InvalidRange: ...". */
  datatype S3Error = UnsupportedCommand | NoSuchKey | InvalidRange

  /** The resolved value: the body's bytes and `ContentLength`. */
  datatype GetObjectOutput = GetObjectOutput(body: seq<byte>, contentLength: nat)

  /** `Range` is truthy: present and not the empty string. */
  predicate HasRange(cmd: Command) {
    cmd.range.Some? && cmd.range.value != ""
  }

  /** `send(command)`. */
  function Send(store: MockHttpServer.Store, cmd: Command): (r: Result<GetObjectOutput, S3Error>)
    ensures r.Ok? ==> r.value.contentLength == |r.value.body|
  {
    if cmd.className != "GetObjectCommand" then Err(UnsupportedCommand)
    else if !MockHttpServer.Stored(store, cmd.bucket, cmd.key) then Err(NoSuchKey)
    else
      var content := store[cmd.bucket][cmd.key];
      if !HasRange(cmd) then Ok(GetObjectOutput(content, |content|))
      else match MatchRange(cmd.range.value)
        case None => Err(InvalidRange)
        case Some(m) =>
          if m.start.None? && m.end.None? then Err(InvalidRange)
          else
            var body := SelectRange(content, m);
            Ok(GetObjectOutput(body, |body|))
  }

  /** Each rejection happens exactly in its case, checked in this order: the command
      class, the object, the `Range` header (no match, or `bytes=-` with both bounds
      empty). */
  lemma SendErrors(store: MockHttpServer.Store, cmd: Command)
    ensures var r := Send(store, cmd);
            var valid := cmd.className == "GetObjectCommand";
            var stored := MockHttpServer.Stored(store, cmd.bucket, cmd.key);
            && (r == Err(UnsupportedCommand) <==> !valid)
            && (r == Err(NoSuchKey) <==> valid && !stored)
            && (r == Err(InvalidRange) <==>
                  && valid && stored && HasRange(cmd)
                  && (MatchRange(cmd.range.value).None? ||
                      MatchRange(cmd.range.value) == Some(RangeMatch(None, None))))
  {
  }

  /** Without a `Range` the body is the whole object; with one, a span is cut to the
      object, a start alone yields the rest from it (nothing when it is past the end),
      and an end alone the last `end` bytes, or, when `end` exceeds the length `n`, the
      bytes from `2 * n - end` on (floored at 0): there is no 416. */
  lemma SendBody(store: MockHttpServer.Store, cmd: Command)
    requires Send(store, cmd).Ok?
    ensures var c := store[cmd.bucket][cmd.key];
            var n := |c|;
            var body := Send(store, cmd).value.body;
            && (!HasRange(cmd) ==> body == c)
            && (HasRange(cmd) ==>
                  var m := MatchRange(cmd.range.value).value;
                  && (m.start.Some? && m.end.Some? ==>
                        var lo, hi := Min(m.start.value, n), Min(m.end.value + 1, n);
                        body == if lo < hi then c[lo..hi] else [])
                  && (m.start.Some? && m.end.None? ==>
                        body == if m.start.value <= n then c[m.start.value..] else [])
                  && (m.start.None? && m.end.Some? ==>
                        body == if m.end.value <= n then c[n - m.end.value..] else c[Max(2 * n - m.end.value, 0)..]))
  {
    if HasRange(cmd) {
      SelectRangeSpec(store[cmd.bucket][cmd.key], MatchRange(cmd.range.value).value);
    }
  }

  /** The two mocks serve the same bytes: whenever the HTTP server answers 200 or 206 for
      a range other than `bytes=-`, the S3 mock resolves a `GetObjectCommand` for the same
      object and `Range` with exactly that content. */
  lemma AgreesWithHttpServer(store: MockHttpServer.Store, req: MockHttpServer.Request)
    requires MockHttpServer.Select(store, req).Selected?
    requires MockHttpServer.HasRange(req) ==> MatchRange(req.range.value) != Some(RangeMatch(None, None))
    ensures var content := MockHttpServer.Select(store, req).content;
            Send(store, Command("GetObjectCommand", req.bucket, req.key, req.range)) ==
              Ok(GetObjectOutput(content, |content|))
  {
  }
}
