/** `S3RangeZip`, index.js:3-183: it reads the directory of a ZIP archive stored behind
    a URL that honours HTTP range requests, then downloads and unpacks one entry, each
    with the smallest requests that suffice. The directory is cached in `fileList`.
    The fetch, the raw DEFLATE decoder (`pako.inflate`) and the UTF-8 decoder are not
    part of the model: the first two are parameters and the last one is reduced to its
    bounds check. */
module RangeZip {
  import opened Bytes
  import opened Wrappers
  import opened Errors
  import opened BinaryReader
  import opened ZipRecords
  import opened RangeHeader
  import opened Http

  /** `pako.inflate(data, {raw: true})`; `None` when it throws. */
  type Inflate = seq<byte> -> Option<seq<byte>>

  /** One `onProgress(receivedLength, contentLength)` call. */
  datatype Progress = Progress(received: nat, total: Option<int>)

  // =====================================================================
  // Fetching the directory, index.js:9-37 and 111-119
  // =====================================================================

  /** `getLastBytes` and `getCentralDirectory`: one range fetch, refused unless the
      response is `ok`, whose body is the bytes received. */
  function FetchRange(fetch: Fetch, range: string): Result<seq<byte>, Error> {
    var response := fetch(range);
    if IsOk(response) then Ok(Body(response)) else Err(FetchFailed(response.status))
  }

  /** The `Range` header of the directory request, from the End of Central Directory
      record: the inclusive span `[offset, offset + size - 1]`. */
  function DirectoryRange(eocd: EndOfCentralDirectory): string {
    ByteRange(eocd.centralDirectoryOffset, eocd.centralDirectoryOffset + eocd.centralDirectorySize - 1)
  }

  /** What `fetchFileList` returns: the last 22 bytes are read as the End of Central
      Directory record, the span it names is fetched and walked. */
  function FileListOf(fetch: Fetch): Result<seq<FileEntry>, Error> {
    var eocdBuffer :- FetchRange(fetch, LastBytesRange(EndOfCentralDirectorySize));
    var centralDirectoryBuffer :- FetchRange(fetch, DirectoryRange(ParseEOCD(eocdBuffer)));
    CentralDirectoryFrom(centralDirectoryBuffer, 0)
  }

  /** The directory depends on nothing but the answers to the suffix request for 22 bytes
      and to the span request that the first answer names. */
  lemma FileListRequests(f: Fetch, g: Fetch)
    requires f(LastBytesRange(22)) == g(LastBytesRange(22))
    requires IsOk(f(LastBytesRange(22))) ==>
               var range := DirectoryRange(ParseEOCD(Body(f(LastBytesRange(22)))));
               f(range) == g(range)
    ensures FileListOf(f) == FileListOf(g)
  {
  }

  /** An archive whose last 22 bytes are an encoded End of Central Directory record and
      whose span named there holds an encoded directory lists the directory's entries. */
  lemma FileListOfArchive(fetch: Fetch, eocd: EndOfCentralDirectory, rs: seq<CentralRecord>, tail: seq<byte>)
    requires WellFormedEOCD(eocd)
    requires forall i :: 0 <= i < |rs| ==> WellFormedCentralRecord(rs[i])
    requires !HasCentralSignature(tail, 0)
    requires IsOk(fetch(LastBytesRange(22))) && Body(fetch(LastBytesRange(22))) == EncodeEOCD(eocd)
    requires IsOk(fetch(DirectoryRange(eocd))) && Body(fetch(DirectoryRange(eocd))) == EncodeCentralDirectory(rs) + tail
    ensures FileListOf(fetch) == Ok(EntriesOf(rs))
  {
    ParseEOCDOfEncoding(eocd);
    CentralDirectoryOfEncoding(rs, tail);
    FileListFrom(fetch, EncodeEOCD(eocd), EncodeCentralDirectory(rs) + tail);
  }

  /** The directory is the walk of the second answer when both answers are `ok`. */
  lemma FileListFrom(fetch: Fetch, eocdBuffer: seq<byte>, centralDirectoryBuffer: seq<byte>)
    requires FetchRange(fetch, LastBytesRange(EndOfCentralDirectorySize)) == Ok(eocdBuffer)
    requires FetchRange(fetch, DirectoryRange(ParseEOCD(eocdBuffer))) == Ok(centralDirectoryBuffer)
    ensures FileListOf(fetch) == CentralDirectoryFrom(centralDirectoryBuffer, 0)
  {
  }

  /** The suffix request asks for the last 22 bytes. */
  lemma SuffixRequestMatch()
    ensures MatchRange(LastBytesRange(EndOfCentralDirectorySize)) == Some(RangeMatch(None, Some(22)))
  {
    MatchLastBytes(LastBytesRange(EndOfCentralDirectorySize), EndOfCentralDirectorySize);
  }

  /** The span request asks, inclusively, for the bytes the record names, whenever the
      offset and the last position are not negative. */
  lemma DirectoryRequestMatch(eocd: EndOfCentralDirectory)
    ensures var first, last := eocd.centralDirectoryOffset, eocd.centralDirectoryOffset + eocd.centralDirectorySize - 1;
            0 <= first && 0 <= last ==>
              MatchRange(DirectoryRange(eocd)) == Some(RangeMatch(Some(first), Some(last)))
  {
    var first, last := eocd.centralDirectoryOffset, eocd.centralDirectoryOffset + eocd.centralDirectorySize - 1;
    if 0 <= first && 0 <= last {
      MatchByteRange(DirectoryRange(eocd), first, last);
    }
  }

  // =====================================================================
  // Downloading an entry, index.js:121-182
  // =====================================================================

  /** `fileList.find(file => file.fileName === fileName)`, as the index of the entry. */
  function FindEntry(files: seq<FileEntry>, fileName: seq<byte>): (r: Option<nat>)
    ensures r.None? <==> forall i :: 0 <= i < |files| ==> files[i].fileName != fileName
    ensures r.Some? ==> && r.value < |files| && files[r.value].fileName == fileName
                        && forall i :: 0 <= i < r.value ==> files[i].fileName != fileName
  {
    if |files| == 0 then None
    else if files[0].fileName == fileName then Some(0)
    else match FindEntry(files[1..], fileName)
      case None => None
      case Some(i) => Some(i + 1)
  }

  /** `30 + fileEntry.fileName.length + fileEntry.compressedSize`: the Local File
      Header's fixed part, the name and the compressed data. */
  function EntrySpan(e: FileEntry): int {
    LocalHeaderSize + |e.fileName| + e.compressedSize
  }

  /** The `Range` header of the entry request, index.js:131-137. */
  function EntryRequest(e: FileEntry): string {
    ByteRange(e.relativeOffsetOfLocalHeader, e.relativeOffsetOfLocalHeader + EntrySpan(e) - 1)
  }

  /** The inclusive range requested for an entry starts at its Local File Header and
      covers exactly `30 + name length + compressed size` bytes. */
  lemma EntryRequestMatch(e: FileEntry)
    requires e.relativeOffsetOfLocalHeader >= 0 && e.compressedSize >= 0
    ensures var first := e.relativeOffsetOfLocalHeader;
            var last := first + EntrySpan(e) - 1;
            && MatchRange(EntryRequest(e)) == Some(RangeMatch(Some(first), Some(last)))
            && last - first + 1 == 30 + |e.fileName| + e.compressedSize
  {
    var first, last := e.relativeOffsetOfLocalHeader, e.relativeOffsetOfLocalHeader + EntrySpan(e) - 1;
    MatchByteRange(EntryRequest(e), first, last);
  }

  /** `chunksAll.slice(localFileHeaderSize, chunksAll.length)`: the payload is taken to
      start right after the name counted by the Central Directory entry. */
  function Payload(buffer: seq<byte>, e: FileEntry): seq<byte> {
    Slice(buffer, LocalHeaderSize + |e.fileName|, |buffer|)
  }

  /** The dispatch on the Local File Header's compression method, index.js:169-176. */
  function Decompress(compressionMethod: int, data: seq<byte>, inflate: Inflate): Result<seq<byte>, Error> {
    if compressionMethod == 8 then
      match inflate(data)
      case None => Err(InflateFailed)
      case Some(out) => Ok(out)
    else if compressionMethod == 0 then Ok(data)
    else Err(UnsupportedCompression(compressionMethod))
  }

  /** Index.js:166-181 on the received buffer: parse the Local File Header, slice the
      payload, decompress it and, for `encoding: 'utf8'`, pass it through
      `readUtf8String`. */
  function ExtractFrom(buffer: seq<byte>, e: FileEntry, inflate: Inflate, utf8: bool): Result<seq<byte>, Error> {
    var localFileHeader :- ParseLocalFileHeader(buffer);
    var decompressed :- Decompress(localFileHeader.compressionMethod, Payload(buffer, e), inflate);
    if utf8 then ReadUtf8String(decompressed, 0, |decompressed|) else Ok(decompressed)
  }

  /** Index.js:126-181 once the directory is known: find the entry, fetch its span and
      extract it. */
  function ExtractEntry(fetch: Fetch, files: seq<FileEntry>, fileName: seq<byte>, inflate: Inflate, utf8: bool)
    : Result<seq<byte>, Error>
  {
    match FindEntry(files, fileName)
    case None => Err(FileNotFound(fileName))
    case Some(i) =>
      var response := fetch(EntryRequest(files[i]));
      if IsOk(response) then ExtractFrom(Body(response), files[i], inflate, utf8)
      else Err(FetchFailed(response.status))
  }

  /** The directory `downloadFile` works with: the cached one unless it is empty. */
  function ListFor(fetch: Fetch, cached: seq<FileEntry>): Result<seq<FileEntry>, Error> {
    if |cached| == 0 then FileListOf(fetch) else Ok(cached)
  }

  /** `fileList` after `downloadFile`: replaced only when it was empty and the directory
      was read. */
  function CachedList(fetch: Fetch, cached: seq<FileEntry>): seq<FileEntry> {
    if |cached| == 0 && FileListOf(fetch).Ok? then FileListOf(fetch).value else cached
  }

  /** What `downloadFile` returns or throws. */
  function DownloadOf(fetch: Fetch, cached: seq<FileEntry>, fileName: seq<byte>, inflate: Inflate, utf8: bool)
    : Result<seq<byte>, Error>
  {
    var files :- ListFor(fetch, cached);
    ExtractEntry(fetch, files, fileName, inflate, utf8)
  }

  /** The `onProgress` calls for a stream of chunks: one per chunk, with the bytes
      received so far and the announced length. */
  function ProgressEvents(chunks: seq<seq<byte>>, total: Option<int>): (events: seq<Progress>)
    ensures |events| == |chunks|
  {
    if |chunks| == 0 then []
    else ProgressEvents(chunks[..|chunks| - 1], total) + [Progress(|Flatten(chunks)|, total)]
  }

  /** The `onProgress` calls `downloadFile` makes: none unless the entry was found and its
      response is `ok`. */
  function DownloadEvents(fetch: Fetch, cached: seq<FileEntry>, fileName: seq<byte>): seq<Progress> {
    var files := ListFor(fetch, cached);
    if files.Err? then []
    else match FindEntry(files.value, fileName)
      case None => []
      case Some(i) =>
        var response := fetch(EntryRequest(files.value[i]));
        if IsOk(response) then ProgressEvents(response.chunks, response.contentLength) else []
  }

  class S3RangeZip {
    var fileList: seq<FileEntry>

    constructor()
      ensures fileList == []
    {
      fileList := [];
    }

    /** `fetchFileList`, index.js:111-119: `fileList` is assigned only once both fetches
        and the walk have succeeded. */
    method FetchFileList(fetch: Fetch) returns (r: Result<seq<FileEntry>, Error>)
      modifies this
      ensures r == FileListOf(fetch)
      ensures fileList == if r.Ok? then r.value else old(fileList)
    {
      var eocdBuffer := FetchRange(fetch, LastBytesRange(EndOfCentralDirectorySize));
      if eocdBuffer.Err? {
        return Err(eocdBuffer.error);
      }
      var eocd := ParseEOCD(eocdBuffer.value);
      var centralDirectoryBuffer := FetchRange(fetch, DirectoryRange(eocd));
      if centralDirectoryBuffer.Err? {
        return Err(centralDirectoryBuffer.error);
      }
      r := ParseCentralDirectory(centralDirectoryBuffer.value);
      if r.Ok? {
        fileList := r.value;
      }
    }

    /** `downloadFile`, index.js:121-182. It also returns the `onProgress` calls it
        makes; `utf8` stands for `options.encoding === 'utf8'`, under which the bytes
        that `TextDecoder` would decode are returned. */
    method DownloadFile(fetch: Fetch, fileName: seq<byte>, inflate: Inflate, utf8: bool)
      returns (r: Result<seq<byte>, Error>, events: seq<Progress>)
      modifies this
      ensures r == DownloadOf(fetch, old(fileList), fileName, inflate, utf8)
      ensures events == DownloadEvents(fetch, old(fileList), fileName)
      ensures fileList == CachedList(fetch, old(fileList))
    {
      if |fileList| == 0 {
        var listed := FetchFileList(fetch);
        if listed.Err? {
          return Err(listed.error), [];
        }
      }
      var found := FindEntry(fileList, fileName);
      if found.None? {
        return Err(FileNotFound(fileName)), [];
      }
      var fileEntry := fileList[found.value];
      var response := fetch(EntryRequest(fileEntry));
      if !IsOk(response) {
        return Err(FetchFailed(response.status)), [];
      }
      var chunks, receivedLength;
      chunks, receivedLength, events := ReceiveChunks(response.chunks, response.contentLength);
      var chunksAll := ConcatChunks(chunks, receivedLength);
      r := ExtractFrom(chunksAll[..], fileEntry, inflate, utf8);
    }
  }

  /** The stream loop, index.js:146-157: every chunk is kept in order, the received
      length is their total and `onProgress` is called once per chunk. */
  method ReceiveChunks(stream: seq<seq<byte>>, contentLength: Option<int>)
    returns (chunks: seq<seq<byte>>, receivedLength: nat, events: seq<Progress>)
    ensures chunks == stream
    ensures receivedLength == |Flatten(stream)|
    ensures events == ProgressEvents(stream, contentLength)
  {
    chunks, receivedLength, events := [], 0, [];
    var i := 0;
    while i < |stream|
      invariant i <= |stream|
      invariant chunks == stream[..i]
      invariant receivedLength == |Flatten(stream[..i])|
      invariant events == ProgressEvents(stream[..i], contentLength)
    {
      var value := stream[i];
      assert stream[..i + 1][..i] == stream[..i];
      chunks := chunks + [value];
      receivedLength := receivedLength + |value|;
      events := events + [Progress(receivedLength, contentLength)];
      i := i + 1;
    }
    assert stream[..i] == stream;
  }

  /** The copy loop, index.js:159-164: a buffer of the received length with each chunk
      set at the running position holds the chunks joined in order. */
  method ConcatChunks(chunks: seq<seq<byte>>, receivedLength: nat) returns (chunksAll: array<byte>)
    requires receivedLength == |Flatten(chunks)|
    ensures fresh(chunksAll)
    ensures chunksAll[..] == Flatten(chunks)
  {
    chunksAll := new byte[receivedLength];
    var position := 0;
    var i := 0;
    while i < |chunks|
      invariant i <= |chunks|
      invariant position == |Flatten(chunks[..i])| <= receivedLength
      invariant chunksAll[..position] == Flatten(chunks[..i])
    {
      var chunk := chunks[i];
      assert chunks[..i + 1][..i] == chunks[..i];
      FlattenPrefix(chunks, i + 1);
      forall k | 0 <= k < |chunk| {
        chunksAll[position + k] := chunk[k];
      }
      assert chunksAll[..position + |chunk|] == chunksAll[..position] + chunk;
      position := position + |chunk|;
      i := i + 1;
    }
    assert chunks[..i] == chunks;
  }

  // ----- Properties of the download -----

  /** The progress calls carry the running totals: each adds its chunk's length to the
      previous one, the last equals the length of the joined buffer, the totals never
      decrease and, when no chunk is empty, strictly increase from a positive first
      one. */
  lemma {:induction false} ProgressEventsTotals(chunks: seq<seq<byte>>, total: Option<int>)
    ensures var events := ProgressEvents(chunks, total);
            && (forall i :: 0 <= i < |chunks| ==> events[i].total == total)
            && (forall i :: 0 <= i < |chunks| ==> events[i].received == |Flatten(chunks[..i + 1])|)
            && (|chunks| > 0 ==> events[|chunks| - 1].received == |Flatten(chunks)|)
  {
    if |chunks| > 0 {
      var init := chunks[..|chunks| - 1];
      ProgressEventsTotals(init, total);
      assert chunks[..|chunks|] == chunks;
      forall i | 0 <= i < |init|
        ensures ProgressEvents(chunks, total)[i].received == |Flatten(chunks[..i + 1])|
      {
        assert init[..i + 1] == chunks[..i + 1];
      }
    }
  }

  /** The first total is the first chunk's length and each later one adds its chunk's
      length to the one before. */
  lemma ProgressEventsStep(chunks: seq<seq<byte>>, total: Option<int>)
    ensures var events := ProgressEvents(chunks, total);
            && (|chunks| > 0 ==> events[0].received == |chunks[0]|)
            && (forall i :: 0 < i < |chunks| ==> events[i].received == events[i - 1].received + |chunks[i]|)
  {
    var events := ProgressEvents(chunks, total);
    ProgressEventsTotals(chunks, total);
    if |chunks| > 0 {
      assert chunks[..1][..0] == chunks[..0];
    }
    forall i | 0 < i < |chunks|
      ensures events[i].received == events[i - 1].received + |chunks[i]|
    {
      assert chunks[..i + 1][..i] == chunks[..i];
    }
  }

  /** Between two progress calls the total grows by the lengths of the chunks received in
      between. */
  lemma ProgressEventsGap(chunks: seq<seq<byte>>, total: Option<int>, i: nat, j: nat)
    requires i <= j < |chunks|
    ensures var events := ProgressEvents(chunks, total);
            events[i].received + |Flatten(chunks[i + 1..j + 1])| == events[j].received
  {
    ProgressEventsTotals(chunks, total);
    FlattenPrefix(chunks[..j + 1], i + 1);
    assert chunks[..j + 1][..i + 1] == chunks[..i + 1];
    assert chunks[..j + 1][i + 1..] == chunks[i + 1..j + 1];
  }

  /** The totals never decrease and, when no chunk is empty, strictly increase from a
      positive first one. */
  lemma ProgressEventsIncrease(chunks: seq<seq<byte>>, total: Option<int>)
    ensures var events := ProgressEvents(chunks, total);
            && (forall i, j :: 0 <= i <= j < |chunks| ==> events[i].received <= events[j].received)
            && ((forall i :: 0 <= i < |chunks| ==> |chunks[i]| > 0) ==>
                  && (|chunks| > 0 ==> events[0].received > 0)
                  && forall i, j :: 0 <= i < j < |chunks| ==> events[i].received < events[j].received)
  {
    var events := ProgressEvents(chunks, total);
    ProgressEventsStep(chunks, total);
    forall i, j | 0 <= i <= j < |chunks|
      ensures events[i].received <= events[j].received
    {
      ProgressEventsGap(chunks, total, i, j);
    }
    forall i, j | 0 <= i < j < |chunks| && |chunks[i + 1]| > 0
      ensures events[i].received < events[j].received
    {
      ProgressEventsGap(chunks, total, i, j);
      var rest := chunks[i + 1..j + 1];
      FlattenPrefix(rest, 1);
      assert rest[..1][..0] == rest[..0];
    }
  }

  /** An entry missing from the directory is reported before any request is made: the
      result is "not found" whatever the fetch answers. */
  lemma NotFoundFetchesNothing(fetch: Fetch, files: seq<FileEntry>, fileName: seq<byte>, inflate: Inflate, utf8: bool)
    ensures ExtractEntry(fetch, files, fileName, inflate, utf8) == Err(FileNotFound(fileName))
            <==> forall i :: 0 <= i < |files| ==> files[i].fileName != fileName
  {
  }

  /** Once the entry is found, the download depends on nothing but the answer to the
      entry's range request. */
  lemma ExtractEntryRequest(f: Fetch, g: Fetch, files: seq<FileEntry>, fileName: seq<byte>, inflate: Inflate, utf8: bool)
    requires var found := FindEntry(files, fileName);
             found.Some? ==> f(EntryRequest(files[found.value])) == g(EntryRequest(files[found.value]))
    ensures ExtractEntry(f, files, fileName, inflate, utf8) == ExtractEntry(g, files, fileName, inflate, utf8)
  {
  }

  /** A non-empty cached directory is used as it is and kept. */
  lemma DownloadFromCache(fetch: Fetch, cached: seq<FileEntry>, fileName: seq<byte>, inflate: Inflate, utf8: bool)
    requires |cached| > 0
    ensures DownloadOf(fetch, cached, fileName, inflate, utf8) == ExtractEntry(fetch, cached, fileName, inflate, utf8)
    ensures CachedList(fetch, cached) == cached
  {
  }

  /** An entry fetched as its encoded Local File Header followed by its data is
      extracted by its compression method: stored data comes back unchanged, deflated
      data goes through the decoder, any other method is refused with its code; under
      `utf8` an empty result fails the bounds check. */
  lemma ExtractOfEncodedEntry(h: LocalFileHeader, data: seq<byte>, e: FileEntry, inflate: Inflate, utf8: bool)
    requires WellFormedLocalHeader(h) && |h.fileName| == |e.fileName|
    ensures var out := ExtractFrom(EncodeLocalFileHeader(h) + data, e, inflate, utf8);
            var m := h.compressionMethod;
            && (m == 0 ==> out == if utf8 && |data| == 0 then Err(RangeError) else Ok(data))
            && (m == 8 && inflate(data).None? ==> out == Err(InflateFailed))
            && (m == 8 && inflate(data).Some? ==>
                  var d := inflate(data).value;
                  out == if utf8 && |d| == 0 then Err(RangeError) else Ok(d))
            && (m != 0 && m != 8 ==> out == Err(UnsupportedCompression(m)))
  {
    var b := EncodeLocalFileHeader(h) + data;
    ParseLocalFileHeaderOfEncoding(h, data);
    assert Payload(b, e) == data by {
      assert b[LocalHeaderSize + |e.fileName|..|b|] == data;
    }
    var dec := Decompress(h.compressionMethod, data, inflate);
    assert ExtractFrom(b, e, inflate, utf8)
           == if dec.Err? then Err(dec.error)
              else if utf8 then ReadUtf8String(dec.value, 0, |dec.value|) else dec;
    if dec.Ok? {
      assert dec.value[0..|dec.value|] == dec.value;
    }
  }

  /** The payload is taken to start right after the name, not after the local extra
      field: a Local File Header with an extra field contributes that field to the
      front of the stored data returned. */
  lemma ExtractKeepsLocalExtraField(h: LocalFileHeader, extra: seq<byte>, data: seq<byte>, e: FileEntry, inflate: Inflate)
    requires WellFormedLocalHeader(h) && |h.fileName| == |e.fileName| && h.compressionMethod == 0
    requires h.extraFieldLength == |extra|
    ensures ExtractFrom(EncodeLocalFileHeader(h) + extra + data, e, inflate, false) == Ok(extra + data)
  {
    assert EncodeLocalFileHeader(h) + extra + data == EncodeLocalFileHeader(h) + (extra + data);
    ExtractOfEncodedEntry(h, extra + data, e, inflate, false);
  }
}
