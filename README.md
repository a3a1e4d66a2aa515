# s3-range-zip, modelled in Dafny

`S3RangeZip` (index.js) reads one entry of a ZIP archive that sits behind a URL which
honours HTTP `Range` requests, without downloading the whole archive. It makes three
requests:

1. The last 22 bytes, read as the End of Central Directory record (PKWARE APPNOTE.TXT
   section 4.3.16).
2. The span of bytes that record names, walked as the Central Directory (section 4.3.12).
   The result is cached in the `fileList` field.
3. For the entry asked for: its Local File Header (section 4.3.7) together with its
   compressed data. The reader streams this response, reports progress after each chunk,
   joins the chunks, and then returns the payload either stored or inflated.

The repository tests the reader against two mock range sources:

- `MockHTTPServer.handleRequest` serves stored objects over HTTP. It slices them by the
  `Range` header, with 404/400/416 refusals, and streams the result in at most `chunkCount` chunks.
- `MockS3Client.send` answers `GetObjectCommand`s with the same slicing, but without
  the 416 guard.

## Modules, following the program

| file | module | models |
|---|---|---|
| wrappers.dfy | Wrappers, Errors | `Option`/`Result`, and the errors the reader throws |
| bytes.dfy | Bytes | byte buffers, an out-of-range read as 0, and `slice`/`subarray` clamping |
| binary_reader.dfy | BinaryReader | `readUint16LE`, `readUint32LE` (signed, through JS `\|` and `<<`), `readUtf8String`'s bounds check |
| range_header.dfy | RangeHeader | the headers the reader writes, and the mocks' `/bytes=(\d*)-(\d*)/` match |
| zip_records.dfy | ZipRecords | `parseEOCD`, `parseCentralDirectory` (a method with its cursor loop), `parseLocalFileHeader`, and an encoder for each record |
| transport.dfy | Http | a response: its status, `Content-Length` and body chunks |
| s3_range_zip.dfy | RangeZip | the class `S3RangeZip` with its `fileList` field, `fetchFileList`, `downloadFile` and its two loops |
| mock_range.dfy | MockRange | the `subarray` selection that both mocks share |
| mock_http_server.dfy | MockHttpServer | the status choice, the content selection, and the `sendChunk` loop |
| mock_s3_client.dfy | MockS3Client | `send` |
| end_to_end.dfy | EndToEnd | the reader's requests as answered by the mock HTTP server |

The network is not modelled. A fetch is a function from the `Range` header value to a
response, so the properties hold for every transport that answers each `Range` value
with one fixed status, `Content-Length` and list of chunks. A fetch that rejects, or a
stream that fails part-way, is not covered (see "Left out"). `EndToEnd` then
instantiates that function with the mock HTTP server.

### How the code reads the records

The model follows the code on each of these points, including where it departs from
PKWARE APPNOTE.TXT:

- **Signature checks.** Only Central Directory records have their signature compared
  (index.js:60). The End of Central Directory and Local File Header signatures are read
  and never compared.
- **Signed 32-bit fields.** APPNOTE.TXT defines the 4-byte fields as unsigned. The code's
  `readUint32LE` combines bytes with `|` and `<<`, so a field with bit 31 set reads as
  negative.
- **Payload offset.** APPNOTE.TXT places the data after the Local File Header's own name
  and extra field. The code starts it at `30` plus the length of the name held in the
  Central Directory entry (index.js:131, 167), so a local extra field is not skipped.
- **Bad Central Directory signature.** A record without the signature ends the walk
  (index.js:60-62), and the entries read before it are returned without an error.

## Model

| member | source | states |
|---|---|---|
| BinaryReader.ReadUint16LE | index.js:192-194 | the value lies in [0, 65535] |
| BinaryReader.ReadUint16LEIsBitwise | index.js:192-194 | `b[o] \| (b[o+1] << 8)` is the little-endian sum of the two bytes; a byte past the end counts as 0 |
| BinaryReader.ReadUint32LE | index.js:185-190 | the value is a signed 32-bit integer |
| BinaryReader.ReadUint32LEIsBitwise | index.js:185-190 | the `\|`/`<<` expression equals the four-byte little-endian sum when the top byte is below 0x80, and that sum less 2^32 otherwise |
| BinaryReader.ReadUint16LEOfLE16 | index.js:192-194 | two bytes that encode `v` read back as `v` |
| BinaryReader.ReadUint32LEOfLE32 | index.js:185-190 | four bytes that encode the unsigned `v` read back as `v` below 2^31 and as `v - 2^32` from there on |
| BinaryReader.ReadUint32LEOfLE32Signed | index.js:185-190 | four bytes that encode a signed `v` read back as `v` |
| BinaryReader.ReadsAfterPrefix | index.js:185-194 | a prefix shifts both readers by its length |
| BinaryReader.ReadsBeforeSuffix | index.js:185-194 | bytes after the field do not change what the readers return |
| BinaryReader.ReadUtf8String | index.js:196-206 | throws `RangeError` exactly when `start < 0`, `end > length` or `start >= end`; otherwise gives exactly `b[start..end)`, which is non-empty |
| Bytes.RelativeIndex | index.js:49 | a typed-array bound: a negative bound counts from the end and is floored at 0; a bound past the length is capped at it |
| Bytes.Slice | index.js:167 | `slice`/`subarray` gives the bytes between the clamped bounds, and none when those bounds are reversed; in-range bounds are taken literally |
| Bytes.FlattenPrefix | index.js:159-164 | joining a prefix of the chunks gives a prefix of the joined stream |
| RangeHeader.MatchPosition | test/mock/MockHTTPServer.js:34 | `match` finds the leftmost position where the pattern matches, or reports that it matches nowhere |
| RangeHeader.DigitRunEnd | test/mock/MockHTTPServer.js:34 | a greedy `\d*` stops at the first non-digit character |
| RangeHeader.ParseDecimalOfDecimal | test/mock/MockHTTPServer.js:36-37 | `parseInt` of a number's decimal form gives the number back |
| RangeHeader.MatchByteRange | index.js:27 | the header `bytes=${first}-${last}` matches with both captures present and equal to `first` and `last` |
| RangeHeader.MatchLastBytes | index.js:12 | the header `bytes=-${count}` matches with no start and `count` as its end |
| ZipRecords.ParseEOCDSpec | index.js:39-51 | the CD size is the u32 at 12, the CD offset the u32 at 16, the comment length the u16 at 20; the comment is what the buffer holds of `b[22..22+len)`; no field is validated and each lies in its reader's range |
| ZipRecords.EOCDDiskFields | index.js:41-43 | the signature and the two disk numbers of an encoded record read back |
| ZipRecords.EOCDCountFields | index.js:44-46 | the two entry counts and the directory size read back |
| ZipRecords.EOCDTrailingFields | index.js:47-49 | the directory offset, the comment length and the comment read back |
| ZipRecords.ParseEOCDOfEncoding | index.js:39-51 | parsing an encoded End of Central Directory record gives it back |
| ZipRecords.CentralRecordLength | index.js:88 | the cursor advances by at least 46 bytes per record |
| ZipRecords.CentralEntryAtSpec | index.js:70-86 | a record's entry fails with `RangeError` exactly when its name is empty or runs past the buffer; otherwise the name is `b[off+46 .. off+46+n)` and the sizes and offset are the u32s at `off+20`, `off+24` and `off+42` |
| ZipRecords.ParseCentralDirectory | index.js:53-92 | the cursor loop yields the walk `CentralDirectoryFrom(b, 0)`, with fewer than `\|b\|/46 + 1` entries |
| ZipRecords.CentralDirectoryStep | index.js:57-89 | a record with the signature puts its entry first, or aborts the walk when its name fails to read |
| ZipRecords.CentralDirectoryBound | index.js:88 | a walk over `n` bytes yields at most `n/46` entries, rounded up |
| ZipRecords.RecordOffsetsWalk | index.js:57-88 | the cursor starts at `off`, visits only in-buffer positions that carry the signature, and moves by each record's length |
| ZipRecords.WalkEndAfterOffsets | index.js:57-62 | the walk stops one record past the last one it visits: at or past the end of the buffer, or on a position without the signature |
| ZipRecords.CollectSpec | index.js:80-86 | a list of reads fails exactly when one of them fails; otherwise its entries are the reads in order |
| ZipRecords.CentralDirectoryCollects | index.js:53-92 | the walk is the collection of the reads at the positions it visits |
| ZipRecords.CentralDirectoryRecords | index.js:53-92 | the walk fails exactly when a visited record's name fails to read; otherwise its i-th entry is the one read at the i-th visited position, in buffer order |
| ZipRecords.CentralRecordFields | index.js:59-80 | the signature, sizes, lengths, offset and name of an encoded record read back |
| ZipRecords.CentralRecordSizes | index.js:59-71 | the signature and the two sizes read back |
| ZipRecords.CentralRecordLengths | index.js:72-74 | the name, extra and comment lengths read back |
| ZipRecords.CentralRecordOffsetAndName | index.js:78-80 | the local header offset and the name read back |
| ZipRecords.ReadsAsRecordAfterPrefix | index.js:57-88 | bytes in front of a record do not change how it reads |
| ZipRecords.ReadsAsRecordEntry | index.js:59-88 | bytes that read as a record are recognised, measured by its size and read as its entry |
| ZipRecords.CentralRecordAt | index.js:57-88 | a record encoded anywhere in a buffer is recognised, measured and read correctly |
| ZipRecords.NoSignatureAfter | index.js:60-62 | a tail without the signature still stops the walk after the records in front of it |
| ZipRecords.FromAfterRecord | index.js:81-88 | a recognised record's entry comes before the entries of the rest of the walk |
| ZipRecords.CentralDirectoryOfEncodingAt | index.js:53-92 | an encoded directory, whatever precedes it, walks to one entry per record, in order |
| ZipRecords.CentralDirectoryOfEncoding | index.js:53-92 | parsing an encoded directory followed by bytes without the signature yields its records' entries, in order |
| ZipRecords.ParseLocalFileHeaderSpec | index.js:94-109 | the header fails with `RangeError` exactly when its name is empty or runs past the buffer; otherwise the method is the u16 at 8 and the name is the `fileNameLength` bytes after 30 |
| ZipRecords.ParseLocalFileHeaderOfEncoding | index.js:94-109 | parsing an encoded Local File Header, whatever follows it, gives it back |
| ZipRecords.LocalHeaderVersionFields | index.js:96-98 | the signature, version and flags read back |
| ZipRecords.LocalHeaderMethodFields | index.js:99-101 | the method, time and date read back |
| ZipRecords.LocalHeaderSizeFields | index.js:102-104 | the CRC-32 and the two sizes read back |
| ZipRecords.LocalHeaderNameFields | index.js:105-107 | the two lengths and the name read back |
| RangeZip.FileListRequests | index.js:111-119 | the directory depends only on the answer to the 22-byte suffix request and the answer to the span request that the first answer names |
| RangeZip.FileListFrom | index.js:111-117 | when both answers are `ok`, the directory is the walk of the second answer |
| RangeZip.FileListOfArchive | index.js:111-119 | an archive whose answers are an encoded EOCD record and an encoded directory is listed with the directory's entries, in order |
| RangeZip.SuffixRequestMatch | index.js:112-113 | the first request asks for the last 22 bytes |
| RangeZip.DirectoryRequestMatch | index.js:24-29 | the second request asks for the inclusive span `[offset, offset+size-1]` whenever both bounds are non-negative |
| RangeZip.FindEntry | index.js:126-129 | finds the first entry whose name is exactly equal, and finds none exactly when no name is equal |
| RangeZip.EntryRequestMatch | index.js:131-137 | the entry request asks for the inclusive span from the local header offset, covering exactly `30 + name length + compressedSize` bytes |
| RangeZip.S3RangeZip.constructor | index.js:4-7 | `fileList` starts out empty |
| RangeZip.S3RangeZip.FetchFileList | index.js:111-119 | returns the directory the two requests give, and replaces `fileList` only when that succeeds; a failure leaves the previous list |
| RangeZip.S3RangeZip.DownloadFile | index.js:121-182 | fetches the directory only when `fileList` is empty; returns what finding, fetching and extracting the entry gives; reports one progress call per chunk; updates the cache only from an empty list |
| RangeZip.ReceiveChunks | index.js:146-157 | the stream loop keeps every chunk in order, totals their lengths, and makes one progress call per chunk |
| RangeZip.ConcatChunks | index.js:159-164 | the copy loop's buffer holds the chunks joined in arrival order |
| RangeZip.ProgressEvents | index.js:156 | one progress call per chunk |
| RangeZip.ProgressEventsTotals | index.js:149-157 | the i-th call's total is the length of the first i+1 chunks joined; the last call's total is the buffer length; every call carries the announced length |
| RangeZip.ProgressEventsStep | index.js:154-156 | the first total is the first chunk's length, and each later total adds its chunk's length |
| RangeZip.ProgressEventsGap | index.js:149-157 | between two calls the total grows by the lengths of the chunks received in between |
| RangeZip.ProgressEventsIncrease | index.js:149-157 | the totals never decrease, and they strictly increase when no chunk is empty |
| RangeZip.NotFoundFetchesNothing | index.js:126-129 | the result is "not found", whatever the fetch answers, exactly when no entry has the name |
| RangeZip.ExtractEntryRequest | index.js:131-143 | once the entry is found, the result depends only on the answer to its range request |
| RangeZip.DownloadFromCache | index.js:122-124 | a non-empty cached list is used as it is and kept |
| RangeZip.ExtractOfEncodedEntry | index.js:166-181 | method 0 returns the data unchanged and method 8 returns the inflated data; any other method throws with its code; under `utf8` an empty result fails the bounds check |
| RangeZip.ExtractKeepsLocalExtraField | index.js:167 | a local extra field ends up at the front of the stored data returned |
| MockRange.SelectRangeSpec | test/mock/MockHTTPServer.js:45-54 | each header form selects the clamped span, the rest from `start`, or the last `end` bytes (from `2n - end`, floored at 0, when `end > n`); with neither bound it selects everything |
| MockRange.SelectRangeInBounds | test/mock/MockHTTPServer.js:45-54 | in-range bounds select `c[start..end+1)` (empty when reversed), `c[start..)`, or the last `end` bytes |
| MockRange.SelectSpan | test/mock/MockHTTPServer.js:45-47 | an in-range inclusive span selects exactly its bytes |
| MockRange.SelectSuffix | test/mock/MockHTTPServer.js:51-54 | a suffix no longer than the content selects its last `count` bytes |
| MockHttpServer.SelectStatus | test/mock/MockHTTPServer.js:20-72 | 404 exactly for a missing object; 200 exactly without a `Range` header; 400 exactly for a non-matching header; 416 exactly when a bound (an absent one counting as 0) is at or past the end; 206 otherwise |
| MockHttpServer.EmptyContentRefusesRanges | test/mock/MockHTTPServer.js:36-43 | on empty content every matching header is refused with 416, because `null >= 0` holds; on non-empty content `bytes=-` is answered 206 with everything |
| MockHttpServer.SelectContent | test/mock/MockHTTPServer.js:26-54 | a 200 response holds the whole object; a 206 response holds the inclusive span, the rest from `start`, the last `end` bytes, or (for `bytes=-`) everything |
| MockHttpServer.ChunkSize | test/mock/MockHTTPServer.js:74 | the chunk size is positive exactly for non-empty content |
| MockHttpServer.ChunkSizeIsCeiling | test/mock/MockHTTPServer.js:74 | the size is `ceil(length / chunkCount)`: the least size at which `chunkCount` chunks hold the content |
| MockHttpServer.SendChunks | test/mock/MockHTTPServer.js:75-88 | the `sendChunk` loop writes the chunks `ChunksFrom(content, 0, size)` |
| MockHttpServer.ChunksJoin | test/mock/MockHTTPServer.js:77-86 | joined, the chunks are the content |
| MockHttpServer.ChunksShape | test/mock/MockHTTPServer.js:77-86 | every chunk is non-empty and at most `chunkSize` long, and there are `ceil(rest / chunkSize)` of them |
| MockHttpServer.ChunkCount | test/mock/MockHTTPServer.js:74-88 | the chunks join to the content; each is non-empty and at most the chunk size long; for a positive count there are at most `chunkCount` of them, and none for empty content |
| MockHttpServer.HandleRequest | test/mock/MockHTTPServer.js:16-88 | decides the reply, streams it, and returns the response `Serve` describes |
| MockHttpServer.ServeBody | test/mock/MockHTTPServer.js:56-72 | a 200/206 response's `Content-Length` is its body's length and its body is the selected content; a refusal's body is its message |
| MockS3Client.Send | test/mock/MockS3Client.js:45-50 | `ContentLength` is the length of the body |
| MockS3Client.SendErrors | test/mock/MockS3Client.js:12-56 | "Unsupported command" exactly for another command class; NoSuchKey exactly for a missing object; InvalidRange exactly for a non-matching header or `bytes=-` |
| MockS3Client.SendBody | test/mock/MockS3Client.js:20-36 | without `Range` the body is the object; with one it is the clamped span, the rest from `start`, or the last `end` bytes; there is no 416 |
| MockS3Client.AgreesWithHttpServer | test/mock/MockS3Client.js:22-43 | whenever the HTTP mock answers 200 or 206 (except for `bytes=-`), the S3 mock resolves the same request with the same bytes |
| EndToEnd.RangeOverServer | test/mock/MockHTTPServer.js:32-61 | a header that matches with in-range bounds is answered 206 with the selected bytes, in the server's chunks, announced with their length |
| EndToEnd.SuffixOverServer | index.js:9-21 | the 22-byte suffix request is answered `ok` with the object's last 22 bytes |
| EndToEnd.ShortObjectRefused | test/mock/MockHTTPServer.js:36-43 | an object of at most 22 bytes, such as an empty archive holding only its end record, is refused the 22-byte suffix request with 416, so listing it fails with `FetchFailed(416)` |
| EndToEnd.SpanOverServer | index.js:24-36 | an in-range span request is answered `ok` with exactly the span's bytes |
| EndToEnd.EOCDOverServer | index.js:112-113 | an archive that ends in an EOCD record is answered with that record |
| EndToEnd.DirectoryOverServer | index.js:116 | the directory request is answered with exactly the directory's bytes |
| EndToEnd.FileListOverServer | index.js:111-119 | a stored archive whose uncommented EOCD record names a non-empty directory is listed with that directory's entries, in order |
| EndToEnd.EntryOverServer | index.js:131-181 | an entry laid out at its recorded offset is fetched exactly and extracted from those bytes; stored data comes back unchanged |
| EndToEnd.EntryContentOverServer | index.js:131-145 | the entry request is answered 206 with exactly the `30 + name length + compressedSize` bytes at the entry's offset |
| EndToEnd.ProgressOfServedContent | test/mock/MockHTTPServer.js:74-88 | served content gives at most `chunkCount` progress calls, strictly increasing, each with the content length, the last one reaching it |
| EndToEnd.ProgressOverServer | index.js:146-157 | a download from the server makes at most `chunkCount` progress calls, strictly increasing, ending at the entry span's length |

## Left out

- HTTP and `fetch` (index.js:9-37, 135-145). A fetch is a parameter from the `Range` header to the status, `Content-Length` and body chunks. `response.ok` means a status from 200 to 299. The URL that `s3UrlFun` builds is folded into the fetch.
- `pako.inflate` (index.js:171) is a foreign DEFLATE decoder. It is a parameter, with a failure standing for a throw.
- `TextDecoder` (index.js:204-205, 178-179) is not modelled. `readUtf8String` keeps its bounds check and returns the bytes it would decode.
- BinaryReader.ReadUtf8String: returns the byte range instead of the decoded string.
- RangeZip.FindEntry: names are compared as bytes, while index.js:126 compares the strings `TextDecoder` produces (index.js:204-205). The two differ when a name starts with a UTF-8 byte order mark, which the decoder drops (`EF BB BF 61 62` matches `'ab'` in the source but not in the model), and when a name holds invalid UTF-8, since different invalid names all decode to U+FFFD and can match in the source. For names that are valid UTF-8 without a byte order mark, the two comparisons agree.
- RangeZip.EntrySpan: counts the name in bytes, while index.js:131 adds `fileEntry.fileName.length`, the decoded name's UTF-16 length. The two agree for ASCII names. For a name that is valid UTF-8 and not ASCII, the source requests fewer bytes than the entry spans.
- RangeZip.EntryRequest: built from RangeZip.EntrySpan, so it shares that line's byte count for non-ASCII names.
- RangeZip.Payload: starts at `30` plus the name's byte count, while index.js:166-167 uses its UTF-16 length. For a name that is valid UTF-8 and not ASCII, the source's payload starts too early, inside the name.
- A `fetch` that rejects, or a `reader.read()` that rejects part-way through the body (index.js:135-157). A fetch is a total function from the `Range` header to one response. So the model has no network error, and no failure that comes after some `onProgress` calls.
- The promise and `await` structure, and concurrent `downloadFile` calls racing on `fileList`.
- `onProgress` is not called. `DownloadFile` returns the list of `(receivedLength, contentLength)` pairs it would be called with. `contentLength` is the parsed `Content-Length`, and the precision that `parseInt` loses above 2^53 is not modelled.
- ZIP64, multi-disk and encrypted archives, which the code does not handle either.
- An EOCD record with a comment. It is not in the last 22 bytes, and the reader then misreads the trailer. EndToEnd.FileListOverServer therefore requires an empty comment.
- Node's HTTP server (listening, URL parsing, `writeHead`/`write`/`end`, `setTimeout` between chunks) and `readFileSync` (test/mock/MockHTTPServer.js:1-13, 91-107; test/mock/MockS3Client.js:1-9). A request is its bucket, key and `Range` header. A response is its status, `Content-Length` and the chunks written. TCP may regroup those chunks in transit, which the model ignores.
- MockHttpServer.Serve: a refusal carries no `Content-Length`, though Node may add one to the message it sends.
- MockHttpServer.ChunkSize: `chunkCount` is a natural number. A negative or fractional count would make the loop run forever or send unusual sizes; neither is modelled. A count of 0 (chunk size `Infinity`) is modelled as one chunk.
- The `Content-Range` header strings (test/mock/MockHTTPServer.js:57, test/mock/MockS3Client.js:51), which are informational only.
- MockS3Client.Send: `transformToString` (a UTF-8 decode) is not modelled. The promise is reduced to its outcome.
