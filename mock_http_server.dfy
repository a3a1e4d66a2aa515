/** `MockHTTPServer.handleRequest`, MockHTTPServer.js:16-89: an object store behind HTTP
    that answers a GET of `/<bucket>/<key>` with the stored bytes, or with the part a
    `Range` header selects, streamed in at most `chunkCount` chunks. The listening
    socket, the URL parsing and the timer between chunks are not part of the model: a
    request arrives as its bucket, key and `Range` header, and the response is the status,
    the `Content-Length` header and the chunks written, in order. */
module MockHttpServer {
  import opened Bytes
  import opened Wrappers
  import opened RangeHeader
  import opened MockRange
  import opened Http

  /** The stored objects, `this.data`: bucket, then key, then content. */
  type Store = map<string, map<string, seq<byte>>>

  /** What the handler reads of a request: the two path segments and `req.headers.range`. */
  datatype Request = Request(bucket: string, key: string, range: Option<string>)

  /** `!this.data[bucket] || !this.data[bucket][key]` is false: the object exists (a
      stored buffer is truthy even when it is empty). */
  predicate Stored(store: Store, bucket: string, key: string) {
    bucket in store && key in store[bucket]
  }

  /** An ASCII string as the bytes `res.end` sends: UTF-8 writes each code unit below
      0x80 as the one byte of that value. */
  function Ascii(s: string): (b: seq<byte>)
    requires forall i :: 0 <= i < |s| ==> s[i] < 128 as char
    ensures |b| == |s| && forall i :: 0 <= i < |s| ==> b[i] == s[i] as int
  {
    seq(|s|, i requires 0 <= i < |s| => s[i] as int)
  }

  const NoSuchKeyMessage: seq<byte> := Ascii("NoSuchKey: The specified key does not exist.")
  const InvalidRangeMessage: seq<byte> := Ascii("Invalid Range Header")

  /** `if (req.headers.range)`: the header is there and is not the empty string. */
  predicate HasRange(req: Request) {
    req.range.Some? && req.range.value != ""
  }

  /** A bound in the comparisons `start >= contentLength`, where `null` compares as 0. */
  function OrZero(bound: Option<nat>): nat {
    if bound.Some? then bound.value else 0
  }

  /** The handler's decision: a refusal, sent with `res.end(message)`, or the content to
      stream with its status. */
  datatype Reply =
    | Refused(status: int, message: seq<byte>)
    | Selected(status: int, content: seq<byte>)

  /** Lines 17-72: 404 for a missing object, 200 with the whole content when there is no
      `Range` header, 400 when it does not match `bytes=(\d*)-(\d*)`, 416 when a bound
      (an absent one counting as 0) is not before the end, and 206 with the selected
      bytes otherwise. */
  function Select(store: Store, req: Request): Reply {
    if !Stored(store, req.bucket, req.key) then Refused(404, NoSuchKeyMessage)
    else
      var content := store[req.bucket][req.key];
      if !HasRange(req) then Selected(200, content)
      else match MatchRange(req.range.value)
        case None => Refused(400, InvalidRangeMessage)
        case Some(m) =>
          if OrZero(m.start) >= |content| || OrZero(m.end) >= |content| then Refused(416, [])
          else Selected(206, SelectRange(content, m))
  }

  /** `Math.ceil(content.length / this.chunkCount)`. A count of 0 makes the size
      `Infinity`, which the loop treats exactly as the whole length: one chunk. */
  function ChunkSize(length: nat, chunkCount: nat): (size: nat)
    ensures 0 < size <==> 0 < length
  {
    if chunkCount == 0 then length else (length + chunkCount - 1) / chunkCount
  }

  /** The chunks `sendChunk` writes from `offset` on: `content.subarray(offset,
      Math.min(offset + chunkSize, content.length))` while `offset < content.length`,
      the offset advancing by `chunkSize` each time. */
  function ChunksFrom(content: seq<byte>, offset: nat, chunkSize: nat): seq<seq<byte>>
    requires 0 < chunkSize || |content| <= offset
    decreases |content| - offset
  {
    if offset < |content| then
      [content[offset..Min(offset + chunkSize, |content|)]] + ChunksFrom(content, offset + chunkSize, chunkSize)
    else []
  }

  /** The `sendChunk` loop, lines 74-88: the chunks it writes are the chunks from offset
      0. */
  method SendChunks(content: seq<byte>, chunkSize: nat) returns (chunks: seq<seq<byte>>)
    requires 0 < chunkSize || |content| == 0
    ensures chunks == ChunksFrom(content, 0, chunkSize)
  {
    chunks := [];
    var offset := 0;
    while offset < |content|
      invariant chunks + ChunksFrom(content, offset, chunkSize) == ChunksFrom(content, 0, chunkSize)
      decreases |content| - offset
    {
      var chunk := content[offset..Min(offset + chunkSize, |content|)];
      assert ChunksFrom(content, offset, chunkSize) == [chunk] + ChunksFrom(content, offset + chunkSize, chunkSize);
      chunks := chunks + [chunk];
      offset := offset + chunkSize;
    }
  }

  /** The response as the client reads it: a refusal is one chunk holding its message
      (none for 416, whose body is empty) and no `Content-Length`; content comes with
      `Content-Length` set to its length, in chunks of `ChunkSize`. */
  function Serve(store: Store, chunkCount: nat, req: Request): Response {
    match Select(store, req)
    case Refused(status, message) => Response(status, None, if |message| == 0 then [] else [message])
    case Selected(status, content) =>
      Response(status, Some(|content|), ChunksFrom(content, 0, ChunkSize(|content|, chunkCount)))
  }

  /** `handleRequest(req, res)`: decides, then streams. */
  method HandleRequest(store: Store, chunkCount: nat, req: Request) returns (response: Response)
    ensures response == Serve(store, chunkCount, req)
  {
    var reply := Select(store, req);
    match reply
    case Refused(status, message) =>
      response := Response(status, None, if |message| == 0 then [] else [message]);
    case Selected(status, content) =>
      var chunks := SendChunks(content, ChunkSize(|content|, chunkCount));
      response := Response(status, Some(|content|), chunks);
  }

  // ----- The status -----

  /** Each status is chosen exactly in its case. */
  lemma SelectStatus(store: Store, req: Request)
    ensures var r := Select(store, req);
            && (r.status == 404 <==> !Stored(store, req.bucket, req.key))
            && (r.status == 200 <==> Stored(store, req.bucket, req.key) && !HasRange(req))
            && (r.status == 400 <==> Stored(store, req.bucket, req.key) && HasRange(req) && MatchRange(req.range.value).None?)
            && (r.status == 416 <==>
                  && Stored(store, req.bucket, req.key) && HasRange(req) && MatchRange(req.range.value).Some?
                  && var m, n := MatchRange(req.range.value).value, |store[req.bucket][req.key]|;
                     OrZero(m.start) >= n || OrZero(m.end) >= n)
            && (r.status == 206 <==>
                  && Stored(store, req.bucket, req.key) && HasRange(req) && MatchRange(req.range.value).Some?
                  && var m, n := MatchRange(req.range.value).value, |store[req.bucket][req.key]|;
                     OrZero(m.start) < n && OrZero(m.end) < n)
            && (r.Selected? <==> r.status == 200 || r.status == 206)
  {
  }

  /** An absent bound never triggers 416 on its own, except on empty content, where even
      `bytes=-` does since `null >= 0` holds. */
  lemma EmptyContentRefusesRanges(store: Store, req: Request)
    requires Stored(store, req.bucket, req.key) && HasRange(req) && MatchRange(req.range.value).Some?
    ensures |store[req.bucket][req.key]| == 0 ==> Select(store, req).status == 416
    ensures var m := MatchRange(req.range.value).value;
            m.start.None? && m.end.None? && |store[req.bucket][req.key]| > 0 ==>
              Select(store, req) == Selected(206, store[req.bucket][req.key])
  {
  }

  // ----- The bytes selected -----

  /** The content of a 206 response: the inclusive span, the rest from `start`, the last
      `end` bytes, or, for `bytes=-`, everything; the content of a 200 response is the
      whole object. */
  lemma SelectContent(store: Store, req: Request)
    requires Select(store, req).Selected?
    ensures var c := store[req.bucket][req.key];
            var r := Select(store, req);
            && (r.status == 200 ==> r.content == c)
            && (r.status == 206 ==>
                  var m := MatchRange(req.range.value).value;
                  && (m.start.Some? && m.end.Some? ==>
                        r.content == if m.start.value <= m.end.value then c[m.start.value..m.end.value + 1] else [])
                  && (m.start.Some? && m.end.None? ==> r.content == c[m.start.value..])
                  && (m.start.None? && m.end.Some? ==> r.content == c[|c| - m.end.value..])
                  && (m.start.None? && m.end.None? ==> r.content == c))
  {
    var r := Select(store, req);
    if r.status == 206 {
      SelectRangeInBounds(store[req.bucket][req.key], MatchRange(req.range.value).value);
    }
  }

  // ----- The chunks -----

  /** The chunks from `offset` join to the content from there on. */
  lemma {:induction false} ChunksJoin(content: seq<byte>, offset: nat, chunkSize: nat)
    requires offset <= |content| && 0 < chunkSize
    ensures Flatten(ChunksFrom(content, offset, chunkSize)) == content[offset..]
    decreases |content| - offset
  {
    if offset < |content| {
      var next := Min(offset + chunkSize, |content|);
      var chunk := content[offset..next];
      var rest := ChunksFrom(content, offset + chunkSize, chunkSize);
      var single: seq<seq<byte>> := [chunk];
      FlattenAppend(single, rest);
      assert Flatten(single) == chunk by {
        assert |single[..0]| == 0;
      }
      if offset + chunkSize < |content| {
        ChunksJoin(content, offset + chunkSize, chunkSize);
      } else {
        assert rest == [];
      }
      assert content[offset..] == chunk + content[next..];
    }
  }

  /** Every chunk is non-empty and at most `chunkSize` long, and their number is the
      ceiling of `(length - offset) / chunkSize`: the least that, at `chunkSize` each,
      covers the rest of the content. */
  lemma {:induction false} ChunksShape(content: seq<byte>, offset: nat, chunkSize: nat)
    requires offset <= |content| && 0 < chunkSize
    ensures var chunks := ChunksFrom(content, offset, chunkSize);
            && (forall i :: 0 <= i < |chunks| ==> 0 < |chunks[i]| <= chunkSize)
            && |content| - offset <= |chunks| * chunkSize
            && (offset < |content| ==> (|chunks| - 1) * chunkSize < |content| - offset)
            && (offset == |content| ==> |chunks| == 0)
    decreases |content| - offset
  {
    var chunks := ChunksFrom(content, offset, chunkSize);
    if offset < |content| {
      if offset + chunkSize < |content| {
        var rest := ChunksFrom(content, offset + chunkSize, chunkSize);
        ChunksShape(content, offset + chunkSize, chunkSize);
        assert chunks == [content[offset..offset + chunkSize]] + rest;
        assert |chunks| * chunkSize == |rest| * chunkSize + chunkSize;
      } else {
        assert chunks == [content[offset..|content|]];
      }
    }
  }

  /** A product keeps the order of its factors when the other factor is positive. */
  lemma LessOfProducts(a: int, b: int, s: int)
    requires 0 < s && a * s < b * s
    ensures a < b
  {
  }

  /** `Math.ceil(length / chunkCount)` is the least size that `chunkCount` chunks of it
      can hold the content in. */
  lemma ChunkSizeIsCeiling(length: nat, chunkCount: nat)
    requires 0 < chunkCount
    ensures var size := ChunkSize(length, chunkCount);
            length <= size * chunkCount && (0 < length ==> (size - 1) * chunkCount < length)
  {
    var size := ChunkSize(length, chunkCount);
    assert size * chunkCount + (length + chunkCount - 1) % chunkCount == length + chunkCount - 1;
  }

  /** The handler writes at most `chunkCount` chunks for a positive count, one for a
      count of 0, and none for empty content; they join to the content and none is empty
      or longer than `ChunkSize`. */
  lemma ChunkCount(content: seq<byte>, chunkCount: nat)
    ensures var size := ChunkSize(|content|, chunkCount);
            var chunks := ChunksFrom(content, 0, size);
            && Flatten(chunks) == content
            && (forall i :: 0 <= i < |chunks| ==> 0 < |chunks[i]| <= size)
            && (0 < chunkCount ==> |chunks| <= chunkCount)
            && (chunkCount == 0 && 0 < |content| ==> |chunks| == 1)
            && (|content| == 0 ==> |chunks| == 0)
  {
    var size := ChunkSize(|content|, chunkCount);
    if |content| == 0 {
      assert ChunksFrom(content, 0, size) == [];
      assert content[0..] == content;
    } else {
      ChunksJoin(content, 0, size);
      ChunksShape(content, 0, size);
      assert content[0..] == content;
      var chunks := ChunksFrom(content, 0, size);
      if 0 < chunkCount {
        ChunkSizeIsCeiling(|content|, chunkCount);
        assert (|chunks| - 1) * size < chunkCount * size;
        LessOfProducts(|chunks| - 1, chunkCount, size);
      } else {
        assert (|chunks| - 1) * size < size;
        LessOfProducts(|chunks| - 1, 1, size);
      }
    }
  }

  // ----- The response -----

  /** A 200 or 206 response's `Content-Length` is the length of its body, and its body is
      the selected content; a refusal's body is its message and has no length header. */
  lemma ServeBody(store: Store, chunkCount: nat, req: Request)
    ensures var response := Serve(store, chunkCount, req);
            var reply := Select(store, req);
            && response.status == reply.status
            && (reply.Selected? ==> Body(response) == reply.content && response.contentLength == Some(|Body(response)|))
            && (reply.Refused? ==> Body(response) == reply.message && response.contentLength.None?)
  {
    var reply := Select(store, req);
    match reply
    case Selected(_, content) =>
      ChunkCount(content, chunkCount);
    case Refused(_, message) =>
      if |message| > 0 {
        var single: seq<seq<byte>> := [message];
        assert |single[..0]| == 0;
        assert Flatten(single) == Flatten(single[..0]) + message;
      }
  }
}
