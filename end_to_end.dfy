/** The reader against the mock HTTP server, as test/test.js:8-39 runs it: every fetch
    of the reader is a GET of one stored object carrying the reader's `Range` header. */
module EndToEnd {
  import opened Bytes
  import opened Wrappers
  import opened Errors
  import opened Http
  import opened RangeHeader
  import opened ZipRecords
  import opened RangeZip
  import opened MockRange
  import opened MockHttpServer

  /** The fetch the reader is given when its URL names `bucket` and `key` on the mock
      server. */
  function ServerFetch(store: Store, chunkCount: nat, bucket: string, key: string): Fetch {
    range => Serve(store, chunkCount, Request(bucket, key, Some(range)))
  }

  /** A request whose `Range` header matches with bounds inside the object is answered
      206 with the bytes those bounds select, announced with their length and streamed
      in the server's chunks. */
  lemma RangeOverServer(store: Store, chunkCount: nat, bucket: string, key: string, range: string, m: RangeMatch)
    requires Stored(store, bucket, key) && MatchRange(range) == Some(m)
    requires OrZero(m.start) < |store[bucket][key]| && OrZero(m.end) < |store[bucket][key]|
    ensures var response := ServerFetch(store, chunkCount, bucket, key)(range);
            var content := SelectRange(store[bucket][key], m);
            && response.status == 206 && Body(response) == content && response.contentLength == Some(|content|)
            && response == Response(206, Some(|content|), ChunksFrom(content, 0, ChunkSize(|content|, chunkCount)))
  {
    var req := Request(bucket, key, Some(range));
    assert MatchesAt(range, MatchPosition(range, 0).value);
    assert Select(store, req) == Selected(206, SelectRange(store[bucket][key], m));
    ServeBody(store, chunkCount, req);
  }

  /** The suffix request for the last 22 bytes of an object longer than that is answered
      with exactly those bytes. */
  lemma SuffixOverServer(store: Store, chunkCount: nat, bucket: string, key: string)
    requires Stored(store, bucket, key) && |store[bucket][key]| > EndOfCentralDirectorySize
    ensures var z := store[bucket][key];
            var response := ServerFetch(store, chunkCount, bucket, key)(LastBytesRange(EndOfCentralDirectorySize));
            IsOk(response) && Body(response) == z[|z| - EndOfCentralDirectorySize..]
  {
    var m := RangeMatch(None, Some(EndOfCentralDirectorySize));
    SuffixRequestMatch();
    RangeOverServer(store, chunkCount, bucket, key, LastBytesRange(EndOfCentralDirectorySize), m);
    SelectSuffix(store[bucket][key], EndOfCentralDirectorySize);
  }

  /** An object of at most 22 bytes, such as an empty archive that holds nothing but its
      End of Central Directory record, is refused the suffix request with 416: the
      server's guard `end >= contentLength` rejects a suffix as long as the object. So
      the directory of such an archive cannot be read from this server. */
  lemma ShortObjectRefused(store: Store, chunkCount: nat, bucket: string, key: string)
    requires Stored(store, bucket, key) && |store[bucket][key]| <= EndOfCentralDirectorySize
    ensures ServerFetch(store, chunkCount, bucket, key)(LastBytesRange(EndOfCentralDirectorySize)).status == 416
    ensures FileListOf(ServerFetch(store, chunkCount, bucket, key)) == Err(FetchFailed(416))
  {
    var range := LastBytesRange(EndOfCentralDirectorySize);
    var req := Request(bucket, key, Some(range));
    SuffixRequestMatch();
    assert MatchesAt(range, MatchPosition(range, 0).value);
    assert Select(store, req) == Refused(416, []);
  }

  /** A span request that the reader writes with bounds inside the object is answered
      with exactly the bytes of the span. */
  lemma SpanOverServer(store: Store, chunkCount: nat, bucket: string, key: string, range: string, first: nat, last: nat)
    requires Stored(store, bucket, key) && first <= last < |store[bucket][key]|
    requires MatchRange(range) == Some(RangeMatch(Some(first), Some(last)))
    ensures var z := store[bucket][key];
            var response := ServerFetch(store, chunkCount, bucket, key)(range);
            && IsOk(response) && Body(response) == z[first..last + 1]
            && response.contentLength == Some(last + 1 - first)
            && var content := z[first..last + 1];
               response == Response(206, Some(|content|), ChunksFrom(content, 0, ChunkSize(|content|, chunkCount)))
  {
    var m := RangeMatch(Some(first), Some(last));
    RangeOverServer(store, chunkCount, bucket, key, range, m);
    SelectSpan(store[bucket][key], first, last);
  }

  /** An object laid out as a ZIP archive, a non-empty Central Directory followed (after
      anything) by an End of Central Directory record without a comment that names it,
      is listed with the directory's entries, in order. */
  lemma FileListOverServer(store: Store, chunkCount: nat, bucket: string, key: string,
                           front: seq<byte>, rs: seq<CentralRecord>, mid: seq<byte>, eocd: EndOfCentralDirectory)
    requires WellFormedEOCD(eocd) && eocd.comment == []
    requires forall i :: 0 <= i < |rs| ==> WellFormedCentralRecord(rs[i])
    requires 0 < |rs|
    requires eocd.centralDirectoryOffset == |front| && eocd.centralDirectorySize == |EncodeCentralDirectory(rs)|
    requires Stored(store, bucket, key)
    requires store[bucket][key] == front + EncodeCentralDirectory(rs) + mid + EncodeEOCD(eocd)
    ensures FileListOf(ServerFetch(store, chunkCount, bucket, key)) == Ok(EntriesOf(rs))
  {
    var fetch := ServerFetch(store, chunkCount, bucket, key);
    var d, tail := EncodeCentralDirectory(rs), EncodeEOCD(eocd);
    assert 0 < |d| by {
      assert d == EncodeCentralRecord(rs[0]) + EncodeCentralDirectory(rs[1..]);
    }
    EOCDOverServer(store, chunkCount, bucket, key, front, d, mid, tail);
    DirectoryOverServer(store, chunkCount, bucket, key, front, d, mid, tail, eocd);
    assert d == d + [];
    FileListOfArchive(fetch, eocd, rs, []);
  }

  /** The suffix request of an archive ending in a 22-byte record is answered with that
      record. */
  lemma EOCDOverServer(store: Store, chunkCount: nat, bucket: string, key: string,
                       front: seq<byte>, d: seq<byte>, mid: seq<byte>, tail: seq<byte>)
    requires Stored(store, bucket, key) && store[bucket][key] == front + d + mid + tail
    requires 0 < |d| && |tail| == EndOfCentralDirectorySize
    ensures var response := ServerFetch(store, chunkCount, bucket, key)(LastBytesRange(EndOfCentralDirectorySize));
            IsOk(response) && Body(response) == tail
  {
    Pieces(store[bucket][key], front, d, mid, tail);
    SuffixOverServer(store, chunkCount, bucket, key);
  }

  /** The span request for a directory that the record places inside the object is
      answered with exactly the directory's bytes. */
  lemma DirectoryOverServer(store: Store, chunkCount: nat, bucket: string, key: string,
                            front: seq<byte>, d: seq<byte>, mid: seq<byte>, tail: seq<byte>, eocd: EndOfCentralDirectory)
    requires Stored(store, bucket, key) && store[bucket][key] == front + d + mid + tail
    requires eocd.centralDirectoryOffset == |front| && eocd.centralDirectorySize == |d| && 0 < |d|
    ensures var response := ServerFetch(store, chunkCount, bucket, key)(DirectoryRange(eocd));
            IsOk(response) && Body(response) == d
  {
    Pieces(store[bucket][key], front, d, mid, tail);
    DirectoryRequestMatch(eocd);
    SpanOverServer(store, chunkCount, bucket, key, DirectoryRange(eocd),
                   eocd.centralDirectoryOffset, eocd.centralDirectoryOffset + eocd.centralDirectorySize - 1);
  }

  /** An entry whose Local File Header and data sit at its recorded offset is fetched
      exactly and extracted from those bytes: stored data of an uncompressed entry
      comes back unchanged. */
  lemma EntryOverServer(store: Store, chunkCount: nat, bucket: string, key: string,
                        files: seq<FileEntry>, fileName: seq<byte>, inflate: Inflate, utf8: bool,
                        pre: seq<byte>, h: LocalFileHeader, data: seq<byte>, post: seq<byte>)
    requires FindEntry(files, fileName).Some?
    requires var e := files[FindEntry(files, fileName).value];
             && e.relativeOffsetOfLocalHeader == |pre| && e.compressedSize == |data|
             && WellFormedLocalHeader(h) && |h.fileName| == |e.fileName|
    requires Stored(store, bucket, key)
    requires store[bucket][key] == pre + EncodeLocalFileHeader(h) + data + post
    ensures var e := files[FindEntry(files, fileName).value];
            var out := ExtractEntry(ServerFetch(store, chunkCount, bucket, key), files, fileName, inflate, utf8);
            && out == ExtractFrom(EncodeLocalFileHeader(h) + data, e, inflate, utf8)
            && (h.compressionMethod == 0 && !utf8 ==> out == Ok(data))
  {
    var e := files[FindEntry(files, fileName).value];
    Pieces(store[bucket][key], pre, EncodeLocalFileHeader(h), data, post);
    var first, last := e.relativeOffsetOfLocalHeader, e.relativeOffsetOfLocalHeader + EntrySpan(e) - 1;
    EntryRequestMatch(e);
    SpanOverServer(store, chunkCount, bucket, key, EntryRequest(e), first, last);
    ExtractOfEncodedEntry(h, data, e, inflate, utf8);
  }

  /** Where the pieces of a buffer put together from four of them lie. */
  lemma Pieces(z: seq<byte>, a: seq<byte>, b: seq<byte>, c: seq<byte>, d: seq<byte>)
    requires z == a + b + c + d
    ensures && z[|a|..|a| + |b|] == b
            && z[|a|..|a| + |b| + |c|] == b + c
            && z[|a| + |b|..|a| + |b| + |c|] == c
            && z[|z| - |d|..] == d
  {
  }

  /** The progress calls for content the server streams: at most `chunkCount` of them
      for a positive count, strictly increasing, each announcing the content's length and
      the last reaching it. */
  lemma ProgressOfServedContent(content: seq<byte>, chunkCount: nat)
    requires 0 < |content|
    ensures var chunks := ChunksFrom(content, 0, ChunkSize(|content|, chunkCount));
            var events := ProgressEvents(chunks, Some(|content|));
            && (0 < chunkCount ==> |events| <= chunkCount)
            && 0 < |events| && events[|events| - 1].received == |content|
            && (forall i, j :: 0 <= i < j < |events| ==> events[i].received < events[j].received)
            && (forall i :: 0 <= i < |events| ==> events[i].total == Some(|content|))
  {
    var chunks := ChunksFrom(content, 0, ChunkSize(|content|, chunkCount));
    ChunkCount(content, chunkCount);
    ProgressEventsTotals(chunks, Some(|content|));
    ProgressEventsIncrease(chunks, Some(|content|));
  }

  /** The progress calls of a download from the server number at most `chunkCount`
      (test/test.js:33 expects exactly that many), strictly increase (test/test.js:28)
      and end at the length of the span received. */
  lemma ProgressOverServer(store: Store, chunkCount: nat, bucket: string, key: string, e: FileEntry)
    requires Stored(store, bucket, key)
    requires 0 <= e.relativeOffsetOfLocalHeader && 0 <= e.compressedSize
    requires e.relativeOffsetOfLocalHeader + EntrySpan(e) <= |store[bucket][key]|
    ensures var response := ServerFetch(store, chunkCount, bucket, key)(EntryRequest(e));
            var events := ProgressEvents(response.chunks, response.contentLength);
            && IsOk(response)
            && (0 < chunkCount ==> |events| <= chunkCount)
            && 0 < |events| && events[|events| - 1].received == EntrySpan(e)
            && (forall i, j :: 0 <= i < j < |events| ==> events[i].received < events[j].received)
            && (forall i :: 0 <= i < |events| ==> events[i].total == Some(EntrySpan(e)))
  {
    var content := EntryContentOverServer(store, chunkCount, bucket, key, e);
    ProgressOfServedContent(content, chunkCount);
  }

  /** The answer to an entry request inside the object: 206, announced with the span's
      length, and streamed as the server chunks the span's bytes. */
  lemma EntryContentOverServer(store: Store, chunkCount: nat, bucket: string, key: string, e: FileEntry)
    returns (content: seq<byte>)
    requires Stored(store, bucket, key)
    requires 0 <= e.relativeOffsetOfLocalHeader && 0 <= e.compressedSize
    requires e.relativeOffsetOfLocalHeader + EntrySpan(e) <= |store[bucket][key]|
    ensures var response := ServerFetch(store, chunkCount, bucket, key)(EntryRequest(e));
            && content == store[bucket][key][e.relativeOffsetOfLocalHeader..e.relativeOffsetOfLocalHeader + EntrySpan(e)]
            && |content| == EntrySpan(e)
            && response == Response(206, Some(|content|), ChunksFrom(content, 0, ChunkSize(|content|, chunkCount)))
  {
    var first, last := e.relativeOffsetOfLocalHeader, e.relativeOffsetOfLocalHeader + EntrySpan(e) - 1;
    var z := store[bucket][key];
    assert first <= last < |z|;
    content := z[first..last + 1];
    assert |content| == last + 1 - first == EntrySpan(e);
    EntryRequestMatch(e);
    SpanOverServer(store, chunkCount, bucket, key, EntryRequest(e), first, last);
  }
}
