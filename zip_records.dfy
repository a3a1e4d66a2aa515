/** The three ZIP records the reader decodes (PKWARE APPNOTE.TXT, sections 4.3.16,
    4.3.12 and 4.3.7), exactly as index.js reads them: every field through
    `readUint16LE`/`readUint32LE` at a fixed offset, names through `readUtf8String`.
    Only Central Directory records have their signature compared; the End of Central
    Directory and Local File Header signatures are read and kept, never checked.
    Each parser has an encoder beside it, the APPNOTE layout written out, and a lemma
    that parsing an encoded record gives the record back. */
module ZipRecords {
  import opened Bytes
  import opened Wrappers
  import opened Errors
  import opened BinaryReader

  const EndOfCentralDirectorySize: nat := 22
  const CentralDirectorySignature: int := 0x02014b50
  const CentralHeaderSize: nat := 46
  const LocalHeaderSize: nat := 30

  predicate IsUint16(v: int) {
    0 <= v < 0x1_0000
  }

  // =====================================================================
  // End of Central Directory record, index.js:39-51
  // =====================================================================

  datatype EndOfCentralDirectory = EndOfCentralDirectory(
    signature: int,
    numberOfThisDisk: int,
    diskWithCentralDirectory: int,
    entriesOnThisDisk: int,
    totalEntries: int,
    centralDirectorySize: int,
    centralDirectoryOffset: int,
    commentLength: int,
    comment: seq<byte>)

  /** `parseEOCD(buffer)`: reads every field at its offset and validates none of them;
      the comment is `buffer.slice(22, 22 + commentLength)`, so it holds only the
      comment bytes that are actually in the buffer. */
  function ParseEOCD(b: seq<byte>): EndOfCentralDirectory {
    var commentLength := ReadUint16LE(b, 20);
    EndOfCentralDirectory(
      ReadUint32LE(b, 0),
      ReadUint16LE(b, 4),
      ReadUint16LE(b, 6),
      ReadUint16LE(b, 8),
      ReadUint16LE(b, 10),
      ReadUint32LE(b, 12),
      ReadUint32LE(b, 16),
      commentLength,
      Slice(b, 22, 22 + commentLength))
  }

  /** Every field has the range of its reader, and the comment is what the buffer holds
      of the `commentLength` bytes after offset 22: all of them when they are there,
      none when the buffer ends at 22. */
  lemma ParseEOCDSpec(b: seq<byte>)
    ensures var r := ParseEOCD(b);
            && IsInt32(r.signature) && IsInt32(r.centralDirectorySize) && IsInt32(r.centralDirectoryOffset)
            && IsUint16(r.numberOfThisDisk) && IsUint16(r.diskWithCentralDirectory)
            && IsUint16(r.entriesOnThisDisk) && IsUint16(r.totalEntries) && IsUint16(r.commentLength)
            && r.centralDirectorySize == ReadUint32LE(b, 12) && r.centralDirectoryOffset == ReadUint32LE(b, 16)
            && r.commentLength == ReadUint16LE(b, 20)
            && |r.comment| <= r.commentLength
            && (|b| > 22 ==> 22 + |r.comment| <= |b| && r.comment == b[22..22 + |r.comment|])
            && (22 + r.commentLength <= |b| ==> r.comment == b[22..22 + r.commentLength])
            && (|b| <= 22 ==> r.comment == [])
  {
  }

  predicate WellFormedEOCD(e: EndOfCentralDirectory) {
    IsInt32(e.signature) && IsInt32(e.centralDirectorySize) && IsInt32(e.centralDirectoryOffset) &&
    IsUint16(e.numberOfThisDisk) && IsUint16(e.diskWithCentralDirectory) &&
    IsUint16(e.entriesOnThisDisk) && IsUint16(e.totalEntries) &&
    e.commentLength == |e.comment| && IsUint16(e.commentLength)
  }

  /** The record as APPNOTE section 4.3.16 lays it out. */
  function EncodeEOCD(e: EndOfCentralDirectory): (r: seq<byte>)
    ensures |r| == 22 + |e.comment|
  {
    LE32Signed(e.signature) + LE16(e.numberOfThisDisk) + LE16(e.diskWithCentralDirectory) +
    LE16(e.entriesOnThisDisk) + LE16(e.totalEntries) + LE32Signed(e.centralDirectorySize) +
    LE32Signed(e.centralDirectoryOffset) + LE16(e.commentLength) + e.comment
  }

  /** The fixed fields of an encoded End of Central Directory record read back, three
      at a time, and so does the comment. */
  lemma EOCDDiskFields(e: EndOfCentralDirectory, post: seq<byte>)
    requires WellFormedEOCD(e)
    ensures var s := EncodeEOCD(e) + post;
            && ReadUint32LE(s, 0) == e.signature
            && ReadUint16LE(s, 4) == e.numberOfThisDisk
            && ReadUint16LE(s, 6) == e.diskWithCentralDirectory
  {
    var signature := LE32Signed(e.signature);
    var disk := LE16(e.numberOfThisDisk);
    var cdDisk := LE16(e.diskWithCentralDirectory);
    var entries := LE16(e.entriesOnThisDisk);
    var total := LE16(e.totalEntries);
    var size := LE32Signed(e.centralDirectorySize);
    var offset := LE32Signed(e.centralDirectoryOffset);
    var commentLength := LE16(e.commentLength);
    var comment := e.comment;
    ReadsBeforeSuffix(signature + disk + cdDisk + entries + total + size + offset + commentLength + comment, post, 0);
    ReadsBeforeSuffix(signature + disk + cdDisk + entries + total + size + offset + commentLength, comment, 0);
    ReadsBeforeSuffix(signature + disk + cdDisk + entries + total + size + offset, commentLength, 0);
    ReadsBeforeSuffix(signature + disk + cdDisk + entries + total + size, offset, 0);
    ReadsBeforeSuffix(signature + disk + cdDisk + entries + total, size, 0);
    ReadsBeforeSuffix(signature + disk + cdDisk + entries, total, 0);
    ReadsBeforeSuffix(signature + disk + cdDisk, entries, 0);
    ReadsBeforeSuffix(signature + disk, cdDisk, 0);
    ReadsBeforeSuffix(signature, disk, 0);
    assert [] + signature == signature;
    Read32Last([], signature, e.signature);
    ReadsBeforeSuffix(signature + disk + cdDisk + entries + total + size + offset + commentLength + comment, post, 4);
    ReadsBeforeSuffix(signature + disk + cdDisk + entries + total + size + offset + commentLength, comment, 4);
    ReadsBeforeSuffix(signature + disk + cdDisk + entries + total + size + offset, commentLength, 4);
    ReadsBeforeSuffix(signature + disk + cdDisk + entries + total + size, offset, 4);
    ReadsBeforeSuffix(signature + disk + cdDisk + entries + total, size, 4);
    ReadsBeforeSuffix(signature + disk + cdDisk + entries, total, 4);
    ReadsBeforeSuffix(signature + disk + cdDisk, entries, 4);
    ReadsBeforeSuffix(signature + disk, cdDisk, 4);
    Read16Last(signature, disk, e.numberOfThisDisk);
    ReadsBeforeSuffix(signature + disk + cdDisk + entries + total + size + offset + commentLength + comment, post, 6);
    ReadsBeforeSuffix(signature + disk + cdDisk + entries + total + size + offset + commentLength, comment, 6);
    ReadsBeforeSuffix(signature + disk + cdDisk + entries + total + size + offset, commentLength, 6);
    ReadsBeforeSuffix(signature + disk + cdDisk + entries + total + size, offset, 6);
    ReadsBeforeSuffix(signature + disk + cdDisk + entries + total, size, 6);
    ReadsBeforeSuffix(signature + disk + cdDisk + entries, total, 6);
    ReadsBeforeSuffix(signature + disk + cdDisk, entries, 6);
    Read16Last(signature + disk, cdDisk, e.diskWithCentralDirectory);
  }

  lemma EOCDCountFields(e: EndOfCentralDirectory, post: seq<byte>)
    requires WellFormedEOCD(e)
    ensures var s := EncodeEOCD(e) + post;
            && ReadUint16LE(s, 8) == e.entriesOnThisDisk
            && ReadUint16LE(s, 10) == e.totalEntries
            && ReadUint32LE(s, 12) == e.centralDirectorySize
  {
    var signature := LE32Signed(e.signature);
    var disk := LE16(e.numberOfThisDisk);
    var cdDisk := LE16(e.diskWithCentralDirectory);
    var entries := LE16(e.entriesOnThisDisk);
    var total := LE16(e.totalEntries);
    var size := LE32Signed(e.centralDirectorySize);
    var offset := LE32Signed(e.centralDirectoryOffset);
    var commentLength := LE16(e.commentLength);
    var comment := e.comment;
    ReadsBeforeSuffix(signature + disk + cdDisk + entries + total + size + offset + commentLength + comment, post, 8);
    ReadsBeforeSuffix(signature + disk + cdDisk + entries + total + size + offset + commentLength, comment, 8);
    ReadsBeforeSuffix(signature + disk + cdDisk + entries + total + size + offset, commentLength, 8);
    ReadsBeforeSuffix(signature + disk + cdDisk + entries + total + size, offset, 8);
    ReadsBeforeSuffix(signature + disk + cdDisk + entries + total, size, 8);
    ReadsBeforeSuffix(signature + disk + cdDisk + entries, total, 8);
    Read16Last(signature + disk + cdDisk, entries, e.entriesOnThisDisk);
    ReadsBeforeSuffix(signature + disk + cdDisk + entries + total + size + offset + commentLength + comment, post, 10);
    ReadsBeforeSuffix(signature + disk + cdDisk + entries + total + size + offset + commentLength, comment, 10);
    ReadsBeforeSuffix(signature + disk + cdDisk + entries + total + size + offset, commentLength, 10);
    ReadsBeforeSuffix(signature + disk + cdDisk + entries + total + size, offset, 10);
    ReadsBeforeSuffix(signature + disk + cdDisk + entries + total, size, 10);
    Read16Last(signature + disk + cdDisk + entries, total, e.totalEntries);
    ReadsBeforeSuffix(signature + disk + cdDisk + entries + total + size + offset + commentLength + comment, post, 12);
    ReadsBeforeSuffix(signature + disk + cdDisk + entries + total + size + offset + commentLength, comment, 12);
    ReadsBeforeSuffix(signature + disk + cdDisk + entries + total + size + offset, commentLength, 12);
    ReadsBeforeSuffix(signature + disk + cdDisk + entries + total + size, offset, 12);
    Read32Last(signature + disk + cdDisk + entries + total, size, e.centralDirectorySize);
  }

  lemma EOCDTrailingFields(e: EndOfCentralDirectory, post: seq<byte>)
    requires WellFormedEOCD(e)
    ensures var s := EncodeEOCD(e) + post;
            && ReadUint32LE(s, 16) == e.centralDirectoryOffset
            && ReadUint16LE(s, 20) == e.commentLength
            && 22 + |e.comment| <= |s| && s[22..22 + |e.comment|] == e.comment
  {
    var signature := LE32Signed(e.signature);
    var disk := LE16(e.numberOfThisDisk);
    var cdDisk := LE16(e.diskWithCentralDirectory);
    var entries := LE16(e.entriesOnThisDisk);
    var total := LE16(e.totalEntries);
    var size := LE32Signed(e.centralDirectorySize);
    var offset := LE32Signed(e.centralDirectoryOffset);
    var commentLength := LE16(e.commentLength);
    var comment := e.comment;
    ReadsBeforeSuffix(signature + disk + cdDisk + entries + total + size + offset + commentLength + comment, post, 16);
    ReadsBeforeSuffix(signature + disk + cdDisk + entries + total + size + offset + commentLength, comment, 16);
    ReadsBeforeSuffix(signature + disk + cdDisk + entries + total + size + offset, commentLength, 16);
    Read32Last(signature + disk + cdDisk + entries + total + size, offset, e.centralDirectoryOffset);
    ReadsBeforeSuffix(signature + disk + cdDisk + entries + total + size + offset + commentLength + comment, post, 20);
    ReadsBeforeSuffix(signature + disk + cdDisk + entries + total + size + offset + commentLength, comment, 20);
    Read16Last(signature + disk + cdDisk + entries + total + size + offset, commentLength, e.commentLength);
    SliceBeforeSuffix(signature + disk + cdDisk + entries + total + size + offset + commentLength + comment, post, 22, |e.comment|);
    assert (signature + disk + cdDisk + entries + total + size + offset + commentLength + comment)[22..22 + |e.comment|] == comment;
  }

  /** Parsing an encoded End of Central Directory record gives it back. */
  lemma ParseEOCDOfEncoding(e: EndOfCentralDirectory)
    requires WellFormedEOCD(e)
    ensures ParseEOCD(EncodeEOCD(e)) == e
  {
    var b := EncodeEOCD(e);
    assert b + [] == b;
    EOCDDiskFields(e, []);
    EOCDCountFields(e, []);
    EOCDTrailingFields(e, []);
  }

  // =====================================================================
  // Central Directory file headers, index.js:53-92
  // =====================================================================

  /** What the reader keeps of a Central Directory record. */
  datatype FileEntry = FileEntry(
    fileName: seq<byte>,
    compressedSize: int,
    uncompressedSize: int,
    relativeOffsetOfLocalHeader: int)

  predicate HasCentralSignature(b: seq<byte>, off: int) {
    ReadUint32LE(b, off) == CentralDirectorySignature
  }

  /** `46 + fileNameLength + extraFieldLength + fileCommentLength`: how far the cursor
      moves past a record. */
  function CentralRecordLength(b: seq<byte>, off: int): (n: nat)
    ensures n >= CentralHeaderSize
  {
    CentralHeaderSize + ReadUint16LE(b, off + 28) + ReadUint16LE(b, off + 30) + ReadUint16LE(b, off + 32)
  }

  /** One record's entry: the name is `readUtf8String(buffer, off + 46, off + 46 +
      fileNameLength)`, which throws for an empty name or one that runs past the end. */
  function CentralEntryAt(b: seq<byte>, off: nat): Result<FileEntry, Error> {
    var fileName := ReadUtf8String(b, off + 46, off + 46 + ReadUint16LE(b, off + 28));
    if fileName.Err? then Err(fileName.error)
    else Ok(FileEntry(fileName.value, ReadUint32LE(b, off + 20), ReadUint32LE(b, off + 24), ReadUint32LE(b, off + 42)))
  }

  /** A record's entry fails, with a `RangeError`, exactly when its name is empty or
      runs past the buffer; otherwise it holds the name bytes and the three 32-bit
      fields at offsets 20, 24 and 42. */
  lemma CentralEntryAtSpec(b: seq<byte>, off: nat)
    ensures var r := CentralEntryAt(b, off);
            var n := ReadUint16LE(b, off + 28);
            && (r.Err? <==> n == 0 || off + CentralHeaderSize + n > |b|)
            && (r.Err? ==> r.error == RangeError)
            && (r.Ok? ==> && r.value.fileName == b[off + CentralHeaderSize..off + CentralHeaderSize + n]
                          && r.value.compressedSize == ReadUint32LE(b, off + 20)
                          && r.value.uncompressedSize == ReadUint32LE(b, off + 24)
                          && r.value.relativeOffsetOfLocalHeader == ReadUint32LE(b, off + 42))
  {
  }

  /** The walk of `parseCentralDirectory` from cursor `off`: it ends at the end of the
      buffer or at the first record without the signature, and a name that fails its
      bounds check aborts the whole walk. */
  function CentralDirectoryFrom(b: seq<byte>, off: nat): Result<seq<FileEntry>, Error>
    decreases |b| - off
  {
    if off >= |b| || !HasCentralSignature(b, off) then Ok([])
    else
      var entry := CentralEntryAt(b, off);
      if entry.Err? then Err(entry.error)
      else
        var rest := CentralDirectoryFrom(b, off + CentralRecordLength(b, off));
        if rest.Err? then rest else Ok([entry.value] + rest.value)
  }

  function Prepend(files: seq<FileEntry>, r: Result<seq<FileEntry>, Error>): Result<seq<FileEntry>, Error> {
    if r.Ok? then Ok(files + r.value) else r
  }

  /** `parseCentralDirectory(buffer)`: the cursor loop, with the entries pushed in
      buffer order. */
  method ParseCentralDirectory(b: seq<byte>) returns (r: Result<seq<FileEntry>, Error>)
    ensures r == CentralDirectoryFrom(b, 0)
    ensures r.Ok? ==> 46 * |r.value| < |b| + 46
  {
    var files: seq<FileEntry> := [];
    var offset: nat := 0;
    PrependNothing(CentralDirectoryFrom(b, 0));
    while offset < |b|
      invariant CentralDirectoryFrom(b, 0) == Prepend(files, CentralDirectoryFrom(b, offset))
      decreases |b| - offset
    {
      if ReadUint32LE(b, offset) != CentralDirectorySignature {
        break;
      }
      CentralDirectoryStep(b, offset);
      var entry := CentralEntryAt(b, offset);
      if entry.Err? {
        return Err(entry.error);
      }
      var next := offset + CentralRecordLength(b, offset);
      PrependOne(files, entry.value, CentralDirectoryFrom(b, next));
      files := files + [entry.value];
      offset := next;
    }
    assert files + [] == files;
    r := Ok(files);
    CentralDirectoryBound(b, 0);
  }

  /** One step of the walk over a record that has the signature: a name that fails
      its read ends the walk with that error, otherwise the entry comes first. */
  lemma CentralDirectoryStep(b: seq<byte>, off: nat)
    requires off < |b| && HasCentralSignature(b, off)
    ensures var entry := CentralEntryAt(b, off);
            CentralDirectoryFrom(b, off)
            == if entry.Err? then Err(entry.error)
               else Prepend([entry.value], CentralDirectoryFrom(b, off + CentralRecordLength(b, off)))
  {
  }

  lemma PrependNothing(r: Result<seq<FileEntry>, Error>)
    ensures Prepend([], r) == r
  {
    if r.Ok? {
      assert [] + r.value == r.value;
    }
  }

  lemma PrependOne(files: seq<FileEntry>, entry: FileEntry, rest: Result<seq<FileEntry>, Error>)
    ensures Prepend(files, Prepend([entry], rest)) == Prepend(files + [entry], rest)
  {
    if rest.Ok? {
      assert files + ([entry] + rest.value) == (files + [entry]) + rest.value;
    }
  }

  /** Each record is at least 46 bytes long, so a walk over `n` bytes yields at most
      `n / 46` entries, rounded up. */
  lemma {:induction false} CentralDirectoryBound(b: seq<byte>, off: nat)
    requires off <= |b|
    ensures var r := CentralDirectoryFrom(b, off);
            r.Ok? ==> 46 * |r.value| < |b| - off + 46
    decreases |b| - off
  {
    if off < |b| && HasCentralSignature(b, off) && CentralEntryAt(b, off).Ok? {
      var next := off + CentralRecordLength(b, off);
      if next <= |b| {
        CentralDirectoryBound(b, next);
      } else {
        assert CentralDirectoryFrom(b, next) == Ok([]);
      }
    }
  }

  /** The cursor positions the walk visits: each record start with the signature. */
  function RecordOffsets(b: seq<byte>, off: nat): seq<nat>
    decreases |b| - off
  {
    if off >= |b| || !HasCentralSignature(b, off) then []
    else [off] + RecordOffsets(b, off + CentralRecordLength(b, off))
  }

  /** Where the walk stops: at or past the end of the buffer, or on a record without
      the signature. */
  function WalkEnd(b: seq<byte>, off: nat): nat
    decreases |b| - off
  {
    if off >= |b| || !HasCentralSignature(b, off) then off
    else WalkEnd(b, off + CentralRecordLength(b, off))
  }

  /** How the walk moves: the cursor starts at `off`, visits only record starts that
      carry the signature and moves by each record's length. */
  lemma {:induction false} RecordOffsetsWalk(b: seq<byte>, off: nat)
    ensures var offs := RecordOffsets(b, off);
            && (forall i :: 0 <= i < |offs| ==> offs[i] < |b| && HasCentralSignature(b, offs[i]))
            && (|offs| > 0 ==> offs[0] == off)
            && (forall i :: 0 <= i < |offs| - 1 ==> offs[i + 1] == offs[i] + CentralRecordLength(b, offs[i]))
    decreases |b| - off
  {
    if off < |b| && HasCentralSignature(b, off) {
      var next := off + CentralRecordLength(b, off);
      RecordOffsetsWalk(b, next);
      var offs := RecordOffsets(b, off);
      var rest := RecordOffsets(b, next);
      assert offs == [off] + rest;
      assert forall i :: 1 <= i < |offs| ==> offs[i] == rest[i - 1];
    }
  }

  /** Where the walk stops: one record length past the last record it visits (or at
      `off` when it visits none), at or past the end of the buffer or on a record
      without the signature. */
  lemma {:induction false} WalkEndAfterOffsets(b: seq<byte>, off: nat)
    ensures var offs := RecordOffsets(b, off);
            && WalkEnd(b, off) == (if |offs| == 0 then off else offs[|offs| - 1] + CentralRecordLength(b, offs[|offs| - 1]))
            && (WalkEnd(b, off) >= |b| || !HasCentralSignature(b, WalkEnd(b, off)))
    decreases |b| - off
  {
    if off < |b| && HasCentralSignature(b, off) {
      var next := off + CentralRecordLength(b, off);
      WalkEndAfterOffsets(b, next);
      var offs := RecordOffsets(b, off);
      var rest := RecordOffsets(b, next);
      assert offs == [off] + rest;
      if |rest| > 0 {
        assert offs[|offs| - 1] == rest[|rest| - 1];
      }
    }
  }

  /** The entries read at the given cursor positions, each one a success or an error. */
  function EntriesAt(b: seq<byte>, offs: seq<nat>): (rs: seq<Result<FileEntry, Error>>)
    ensures |rs| == |offs|
  {
    seq(|offs|, i requires 0 <= i < |offs| => CentralEntryAt(b, offs[i]))
  }

  /** The first error of a list of reads, or all their entries. */
  function Collect(rs: seq<Result<FileEntry, Error>>): Result<seq<FileEntry>, Error> {
    if |rs| == 0 then Ok([])
    else if rs[0].Err? then Err(rs[0].error)
    else
      var rest := Collect(rs[1..]);
      if rest.Err? then rest else Ok([rs[0].value] + rest.value)
  }

  lemma {:induction false} CollectSpec(rs: seq<Result<FileEntry, Error>>)
    ensures var r := Collect(rs);
            && (r.Err? <==> exists i :: 0 <= i < |rs| && rs[i].Err?)
            && (r.Ok? ==> |r.value| == |rs| && forall i :: 0 <= i < |rs| ==> rs[i] == Ok(r.value[i]))
  {
    if |rs| > 0 {
      var tail := rs[1..];
      CollectSpec(tail);
      assert forall i :: 1 <= i < |rs| ==> rs[i] == tail[i - 1];
      if rs[0].Ok? && Collect(tail).Ok? {
        var v := [rs[0].value] + Collect(tail).value;
        assert forall i :: 1 <= i < |rs| ==> v[i] == Collect(tail).value[i - 1];
      }
    }
  }

  /** The walk is the collection of the reads at the cursor positions it visits. */
  lemma {:induction false} CentralDirectoryCollects(b: seq<byte>, off: nat)
    ensures CentralDirectoryFrom(b, off) == Collect(EntriesAt(b, RecordOffsets(b, off)))
    decreases |b| - off
  {
    if off < |b| && HasCentralSignature(b, off) {
      var next := off + CentralRecordLength(b, off);
      CentralDirectoryCollects(b, next);
      var offs := RecordOffsets(b, off);
      assert offs == [off] + RecordOffsets(b, next);
      assert EntriesAt(b, offs)[1..] == EntriesAt(b, RecordOffsets(b, next));
    }
  }

  /** What the walk yields: it fails exactly when one of the records it visits has a
      name that is empty or runs past the buffer, and otherwise its i-th entry is the
      one read at its i-th cursor position. */
  lemma CentralDirectoryRecords(b: seq<byte>, off: nat)
    ensures var offs := RecordOffsets(b, off);
            var r := CentralDirectoryFrom(b, off);
            && (r.Err? <==> exists i :: 0 <= i < |offs| && CentralEntryAt(b, offs[i]).Err?)
            && (r.Ok? ==> |r.value| == |offs| &&
                          forall i :: 0 <= i < |offs| ==> CentralEntryAt(b, offs[i]) == Ok(r.value[i]))
  {
    var offs := RecordOffsets(b, off);
    var rs := EntriesAt(b, offs);
    CentralDirectoryCollects(b, off);
    CollectSpec(rs);
    assert forall i :: 0 <= i < |offs| ==> rs[i] == CentralEntryAt(b, offs[i]);
  }

  /** A Central Directory record with every field the layout holds. The reader retains
      the sizes, the offset and the name; the other fixed fields are kept as raw bytes:
      `header` holds the 16 bytes at offsets 4-19 (versions, flags, method, time, date,
      CRC-32), `attributes` the 8 bytes at offsets 34-41 (disk number, internal and
      external attributes). */
  datatype CentralRecord = CentralRecord(
    header: seq<byte>,
    compressedSize: int,
    uncompressedSize: int,
    attributes: seq<byte>,
    relativeOffsetOfLocalHeader: int,
    fileName: seq<byte>,
    extraField: seq<byte>,
    fileComment: seq<byte>)

  predicate WellFormedCentralRecord(r: CentralRecord) {
    |r.header| == 16 && |r.attributes| == 8 &&
    IsInt32(r.compressedSize) && IsInt32(r.uncompressedSize) && IsInt32(r.relativeOffsetOfLocalHeader) &&
    0 < |r.fileName| < 0x1_0000 && |r.extraField| < 0x1_0000 && |r.fileComment| < 0x1_0000
  }

  /** The record as APPNOTE section 4.3.12 lays it out. */
  function EncodeCentralRecord(r: CentralRecord): (e: seq<byte>)
    ensures |e| == RecordSize(r)
  {
    LE32(CentralDirectorySignature) + r.header + LE32Signed(r.compressedSize) + LE32Signed(r.uncompressedSize) +
    LE16(|r.fileName|) + LE16(|r.extraField|) + LE16(|r.fileComment|) + r.attributes +
    LE32Signed(r.relativeOffsetOfLocalHeader) + r.fileName + r.extraField + r.fileComment
  }

  /** The number of bytes a record occupies. */
  function RecordSize(r: CentralRecord): nat {
    22 + |r.header| + |r.attributes| + |r.fileName| + |r.extraField| + |r.fileComment|
  }

  function DirectorySize(rs: seq<CentralRecord>): nat {
    if |rs| == 0 then 0 else RecordSize(rs[0]) + DirectorySize(rs[1..])
  }

  function EncodeCentralDirectory(rs: seq<CentralRecord>): (e: seq<byte>)
    ensures |e| == DirectorySize(rs)
  {
    if |rs| == 0 then [] else EncodeCentralRecord(rs[0]) + EncodeCentralDirectory(rs[1..])
  }

  function EntryOf(r: CentralRecord): FileEntry {
    FileEntry(r.fileName, r.compressedSize, r.uncompressedSize, r.relativeOffsetOfLocalHeader)
  }

  /** The entries of a list of records, in order. */
  function EntriesOf(rs: seq<CentralRecord>): (es: seq<FileEntry>)
    ensures |es| == |rs|
  {
    if |rs| == 0 then [] else [EntryOf(rs[0])] + EntriesOf(rs[1..])
  }

  /** The bytes of `b` at `off` read as record `r`: signature, sizes, offset, the three
      lengths and the name. */
  predicate ReadsAsRecord(b: seq<byte>, off: nat, r: CentralRecord) {
    && HasCentralSignature(b, off)
    && ReadUint32LE(b, off + 20) == r.compressedSize
    && ReadUint32LE(b, off + 24) == r.uncompressedSize
    && ReadUint16LE(b, off + 28) == |r.fileName|
    && ReadUint16LE(b, off + 30) == |r.extraField|
    && ReadUint16LE(b, off + 32) == |r.fileComment|
    && ReadUint32LE(b, off + 42) == r.relativeOffsetOfLocalHeader
    && off + CentralHeaderSize + |r.fileName| <= |b|
    && b[off + CentralHeaderSize..off + CentralHeaderSize + |r.fileName|] == r.fileName
  }

  /** The fields of an encoded record, read from the start of the buffer it begins,
      a few at a time in the lemmas below. */
  lemma CentralRecordFields(r: CentralRecord, post: seq<byte>)
    requires WellFormedCentralRecord(r)
    ensures ReadsAsRecord(EncodeCentralRecord(r) + post, 0, r)
  {
    CentralRecordSizes(r, post);
    CentralRecordLengths(r, post);
    CentralRecordOffsetAndName(r, post);
  }

  lemma CentralRecordSizes(r: CentralRecord, post: seq<byte>)
    requires WellFormedCentralRecord(r)
    ensures var s := EncodeCentralRecord(r) + post;
            && ReadUint32LE(s, 0) == CentralDirectorySignature
            && ReadUint32LE(s, 20) == r.compressedSize
            && ReadUint32LE(s, 24) == r.uncompressedSize
  {
    var signature := LE32(CentralDirectorySignature);
    var header := r.header;
    var compressed := LE32Signed(r.compressedSize);
    var uncompressed := LE32Signed(r.uncompressedSize);
    var nameLength := LE16(|r.fileName|);
    var extraLength := LE16(|r.extraField|);
    var commentLength := LE16(|r.fileComment|);
    var attributes := r.attributes;
    var offset := LE32Signed(r.relativeOffsetOfLocalHeader);
    var name := r.fileName;
    var extra := r.extraField;
    var comment := r.fileComment;
    ReadsBeforeSuffix(signature + header + compressed + uncompressed + nameLength + extraLength + commentLength + attributes + offset + name + extra + comment, post, 0);
    ReadsBeforeSuffix(signature + header + compressed + uncompressed + nameLength + extraLength + commentLength + attributes + offset + name + extra, comment, 0);
    ReadsBeforeSuffix(signature + header + compressed + uncompressed + nameLength + extraLength + commentLength + attributes + offset + name, extra, 0);
    ReadsBeforeSuffix(signature + header + compressed + uncompressed + nameLength + extraLength + commentLength + attributes + offset, name, 0);
    ReadsBeforeSuffix(signature + header + compressed + uncompressed + nameLength + extraLength + commentLength + attributes, offset, 0);
    ReadsBeforeSuffix(signature + header + compressed + uncompressed + nameLength + extraLength + commentLength, attributes, 0);
    ReadsBeforeSuffix(signature + header + compressed + uncompressed + nameLength + extraLength, commentLength, 0);
    ReadsBeforeSuffix(signature + header + compressed + uncompressed + nameLength, extraLength, 0);
    ReadsBeforeSuffix(signature + header + compressed + uncompressed, nameLength, 0);
    ReadsBeforeSuffix(signature + header + compressed, uncompressed, 0);
    ReadsBeforeSuffix(signature + header, compressed, 0);
    ReadsBeforeSuffix(signature, header, 0);
    assert [] + signature == signature;
    Read32Last([], signature, CentralDirectorySignature);
    ReadsBeforeSuffix(signature + header + compressed + uncompressed + nameLength + extraLength + commentLength + attributes + offset + name + extra + comment, post, 20);
    ReadsBeforeSuffix(signature + header + compressed + uncompressed + nameLength + extraLength + commentLength + attributes + offset + name + extra, comment, 20);
    ReadsBeforeSuffix(signature + header + compressed + uncompressed + nameLength + extraLength + commentLength + attributes + offset + name, extra, 20);
    ReadsBeforeSuffix(signature + header + compressed + uncompressed + nameLength + extraLength + commentLength + attributes + offset, name, 20);
    ReadsBeforeSuffix(signature + header + compressed + uncompressed + nameLength + extraLength + commentLength + attributes, offset, 20);
    ReadsBeforeSuffix(signature + header + compressed + uncompressed + nameLength + extraLength + commentLength, attributes, 20);
    ReadsBeforeSuffix(signature + header + compressed + uncompressed + nameLength + extraLength, commentLength, 20);
    ReadsBeforeSuffix(signature + header + compressed + uncompressed + nameLength, extraLength, 20);
    ReadsBeforeSuffix(signature + header + compressed + uncompressed, nameLength, 20);
    ReadsBeforeSuffix(signature + header + compressed, uncompressed, 20);
    Read32Last(signature + header, compressed, r.compressedSize);
    ReadsBeforeSuffix(signature + header + compressed + uncompressed + nameLength + extraLength + commentLength + attributes + offset + name + extra + comment, post, 24);
    ReadsBeforeSuffix(signature + header + compressed + uncompressed + nameLength + extraLength + commentLength + attributes + offset + name + extra, comment, 24);
    ReadsBeforeSuffix(signature + header + compressed + uncompressed + nameLength + extraLength + commentLength + attributes + offset + name, extra, 24);
    ReadsBeforeSuffix(signature + header + compressed + uncompressed + nameLength + extraLength + commentLength + attributes + offset, name, 24);
    ReadsBeforeSuffix(signature + header + compressed + uncompressed + nameLength + extraLength + commentLength + attributes, offset, 24);
    ReadsBeforeSuffix(signature + header + compressed + uncompressed + nameLength + extraLength + commentLength, attributes, 24);
    ReadsBeforeSuffix(signature + header + compressed + uncompressed + nameLength + extraLength, commentLength, 24);
    ReadsBeforeSuffix(signature + header + compressed + uncompressed + nameLength, extraLength, 24);
    ReadsBeforeSuffix(signature + header + compressed + uncompressed, nameLength, 24);
    Read32Last(signature + header + compressed, uncompressed, r.uncompressedSize);
  }

  lemma CentralRecordLengths(r: CentralRecord, post: seq<byte>)
    requires WellFormedCentralRecord(r)
    ensures var s := EncodeCentralRecord(r) + post;
            && ReadUint16LE(s, 28) == |r.fileName|
            && ReadUint16LE(s, 30) == |r.extraField|
            && ReadUint16LE(s, 32) == |r.fileComment|
  {
    var signature := LE32(CentralDirectorySignature);
    var header := r.header;
    var compressed := LE32Signed(r.compressedSize);
    var uncompressed := LE32Signed(r.uncompressedSize);
    var nameLength := LE16(|r.fileName|);
    var extraLength := LE16(|r.extraField|);
    var commentLength := LE16(|r.fileComment|);
    var attributes := r.attributes;
    var offset := LE32Signed(r.relativeOffsetOfLocalHeader);
    var name := r.fileName;
    var extra := r.extraField;
    var comment := r.fileComment;
    ReadsBeforeSuffix(signature + header + compressed + uncompressed + nameLength + extraLength + commentLength + attributes + offset + name + extra + comment, post, 28);
    ReadsBeforeSuffix(signature + header + compressed + uncompressed + nameLength + extraLength + commentLength + attributes + offset + name + extra, comment, 28);
    ReadsBeforeSuffix(signature + header + compressed + uncompressed + nameLength + extraLength + commentLength + attributes + offset + name, extra, 28);
    ReadsBeforeSuffix(signature + header + compressed + uncompressed + nameLength + extraLength + commentLength + attributes + offset, name, 28);
    ReadsBeforeSuffix(signature + header + compressed + uncompressed + nameLength + extraLength + commentLength + attributes, offset, 28);
    ReadsBeforeSuffix(signature + header + compressed + uncompressed + nameLength + extraLength + commentLength, attributes, 28);
    ReadsBeforeSuffix(signature + header + compressed + uncompressed + nameLength + extraLength, commentLength, 28);
    ReadsBeforeSuffix(signature + header + compressed + uncompressed + nameLength, extraLength, 28);
    Read16Last(signature + header + compressed + uncompressed, nameLength, |r.fileName|);
    ReadsBeforeSuffix(signature + header + compressed + uncompressed + nameLength + extraLength + commentLength + attributes + offset + name + extra + comment, post, 30);
    ReadsBeforeSuffix(signature + header + compressed + uncompressed + nameLength + extraLength + commentLength + attributes + offset + name + extra, comment, 30);
    ReadsBeforeSuffix(signature + header + compressed + uncompressed + nameLength + extraLength + commentLength + attributes + offset + name, extra, 30);
    ReadsBeforeSuffix(signature + header + compressed + uncompressed + nameLength + extraLength + commentLength + attributes + offset, name, 30);
    ReadsBeforeSuffix(signature + header + compressed + uncompressed + nameLength + extraLength + commentLength + attributes, offset, 30);
    ReadsBeforeSuffix(signature + header + compressed + uncompressed + nameLength + extraLength + commentLength, attributes, 30);
    ReadsBeforeSuffix(signature + header + compressed + uncompressed + nameLength + extraLength, commentLength, 30);
    Read16Last(signature + header + compressed + uncompressed + nameLength, extraLength, |r.extraField|);
    ReadsBeforeSuffix(signature + header + compressed + uncompressed + nameLength + extraLength + commentLength + attributes + offset + name + extra + comment, post, 32);
    ReadsBeforeSuffix(signature + header + compressed + uncompressed + nameLength + extraLength + commentLength + attributes + offset + name + extra, comment, 32);
    ReadsBeforeSuffix(signature + header + compressed + uncompressed + nameLength + extraLength + commentLength + attributes + offset + name, extra, 32);
    ReadsBeforeSuffix(signature + header + compressed + uncompressed + nameLength + extraLength + commentLength + attributes + offset, name, 32);
    ReadsBeforeSuffix(signature + header + compressed + uncompressed + nameLength + extraLength + commentLength + attributes, offset, 32);
    ReadsBeforeSuffix(signature + header + compressed + uncompressed + nameLength + extraLength + commentLength, attributes, 32);
    Read16Last(signature + header + compressed + uncompressed + nameLength + extraLength, commentLength, |r.fileComment|);
  }

  lemma CentralRecordOffsetAndName(r: CentralRecord, post: seq<byte>)
    requires WellFormedCentralRecord(r)
    ensures var s := EncodeCentralRecord(r) + post;
            && ReadUint32LE(s, 42) == r.relativeOffsetOfLocalHeader
            && 46 + |r.fileName| <= |s| && s[46..46 + |r.fileName|] == r.fileName
  {
    var signature := LE32(CentralDirectorySignature);
    var header := r.header;
    var compressed := LE32Signed(r.compressedSize);
    var uncompressed := LE32Signed(r.uncompressedSize);
    var nameLength := LE16(|r.fileName|);
    var extraLength := LE16(|r.extraField|);
    var commentLength := LE16(|r.fileComment|);
    var attributes := r.attributes;
    var offset := LE32Signed(r.relativeOffsetOfLocalHeader);
    var name := r.fileName;
    var extra := r.extraField;
    var comment := r.fileComment;
    ReadsBeforeSuffix(signature + header + compressed + uncompressed + nameLength + extraLength + commentLength + attributes + offset + name + extra + comment, post, 42);
    ReadsBeforeSuffix(signature + header + compressed + uncompressed + nameLength + extraLength + commentLength + attributes + offset + name + extra, comment, 42);
    ReadsBeforeSuffix(signature + header + compressed + uncompressed + nameLength + extraLength + commentLength + attributes + offset + name, extra, 42);
    ReadsBeforeSuffix(signature + header + compressed + uncompressed + nameLength + extraLength + commentLength + attributes + offset, name, 42);
    Read32Last(signature + header + compressed + uncompressed + nameLength + extraLength + commentLength + attributes, offset, r.relativeOffsetOfLocalHeader);
    SliceBeforeSuffix(signature + header + compressed + uncompressed + nameLength + extraLength + commentLength + attributes + offset + name + extra + comment, post, 46, |r.fileName|);
    SliceBeforeSuffix(signature + header + compressed + uncompressed + nameLength + extraLength + commentLength + attributes + offset + name + extra, comment, 46, |r.fileName|);
    SliceBeforeSuffix(signature + header + compressed + uncompressed + nameLength + extraLength + commentLength + attributes + offset + name, extra, 46, |r.fileName|);
    assert (signature + header + compressed + uncompressed + nameLength + extraLength + commentLength + attributes + offset + name)[46..46 + |r.fileName|] == name;
  }

  /** What precedes a record does not change how it reads. */
  lemma ReadsAsRecordAfterPrefix(p: seq<byte>, s: seq<byte>, i: nat, r: CentralRecord)
    requires ReadsAsRecord(s, i, r)
    ensures ReadsAsRecord(p + s, |p| + i, r)
  {
    ReadsAfterPrefix(p, s, i);
    ReadsAfterPrefix(p, s, i + 20);
    ReadsAfterPrefix(p, s, i + 24);
    ReadsAfterPrefix(p, s, i + 28);
    ReadsAfterPrefix(p, s, i + 30);
    ReadsAfterPrefix(p, s, i + 32);
    ReadsAfterPrefix(p, s, i + 42);
    assert (p + s)[|p| + i + 46..|p| + i + 46 + |r.fileName|] == s[i + 46..i + 46 + |r.fileName|];
  }

  /** Bytes that read as a record are recognised, measured and read as its entry. */
  lemma ReadsAsRecordEntry(b: seq<byte>, off: nat, r: CentralRecord)
    requires WellFormedCentralRecord(r) && ReadsAsRecord(b, off, r)
    ensures && off < |b| && HasCentralSignature(b, off)
            && CentralRecordLength(b, off) == RecordSize(r)
            && CentralEntryAt(b, off) == Ok(EntryOf(r))
  {
  }

  /** A record encoded at position `|pre|` of a buffer is recognised, measured and read
      correctly whatever surrounds it. */
  lemma CentralRecordAt(pre: seq<byte>, r: CentralRecord, post: seq<byte>)
    requires WellFormedCentralRecord(r)
    ensures var b := pre + EncodeCentralRecord(r) + post;
            && HasCentralSignature(b, |pre|)
            && CentralRecordLength(b, |pre|) == |EncodeCentralRecord(r)|
            && CentralEntryAt(b, |pre|) == Ok(EntryOf(r))
  {
    var s := EncodeCentralRecord(r) + post;
    assert pre + EncodeCentralRecord(r) + post == pre + s;
    CentralRecordFields(r, post);
    ReadsAsRecordAfterPrefix(pre, s, 0, r);
    ReadsAsRecordEntry(pre + s, |pre|, r);
  }

  lemma NoSignatureAfter(d: seq<byte>, tail: seq<byte>)
    requires !HasCentralSignature(tail, 0)
    ensures !HasCentralSignature(d + tail, |d|)
  {
    ReadsAfterPrefix(d, tail, 0);
  }

  /** A record that the walk recognises and reads puts its entry before those of the
      rest of the walk. */
  lemma FromAfterRecord(b: seq<byte>, off: nat, next: nat, entry: FileEntry, entries: seq<FileEntry>)
    requires off < |b| && HasCentralSignature(b, off)
    requires off + CentralRecordLength(b, off) == next && CentralEntryAt(b, off) == Ok(entry)
    requires CentralDirectoryFrom(b, next) == Ok(entries)
    ensures CentralDirectoryFrom(b, off) == Ok([entry] + entries)
  {
    CentralDirectoryStep(b, off);
  }

  lemma Regroup(a: seq<byte>, b: seq<byte>, c: seq<byte>, d: seq<byte>)
    ensures a + ((b + c) + d) == a + b + (c + d)
  {
  }

  /** The walk from the start of an encoded directory, whatever precedes it, yields one
      entry per record, in order, when what follows it does not start with the record
      signature. */
  lemma {:induction false} CentralDirectoryOfEncodingAt(pre: seq<byte>, rs: seq<CentralRecord>, tail: seq<byte>)
    requires forall i :: 0 <= i < |rs| ==> WellFormedCentralRecord(rs[i])
    requires !HasCentralSignature(tail, 0)
    ensures CentralDirectoryFrom(pre + (EncodeCentralDirectory(rs) + tail), |pre|) == Ok(EntriesOf(rs))
    decreases |rs|
  {
    if |rs| == 0 {
      assert EncodeCentralDirectory(rs) + tail == tail;
      NoSignatureAfter(pre, tail);
    } else {
      var e, rest := EncodeCentralRecord(rs[0]), EncodeCentralDirectory(rs[1..]);
      CentralDirectoryOfEncodingAt(pre + e, rs[1..], tail);
      CentralRecordAt(pre, rs[0], rest + tail);
      FromAfterRecord(pre + e + (rest + tail), |pre|, |pre + e|, EntryOf(rs[0]), EntriesOf(rs[1..]));
      assert EncodeCentralDirectory(rs) == e + rest;
      Regroup(pre, e, rest, tail);
      assert EntriesOf(rs) == [EntryOf(rs[0])] + EntriesOf(rs[1..]);
    }
  }

  /** Parsing an encoded Central Directory yields one entry per record, in order, when
      what follows it does not start with the record signature (the End of Central
      Directory record, say, or nothing at all). */
  lemma CentralDirectoryOfEncoding(rs: seq<CentralRecord>, tail: seq<byte>)
    requires forall i :: 0 <= i < |rs| ==> WellFormedCentralRecord(rs[i])
    requires !HasCentralSignature(tail, 0)
    ensures CentralDirectoryFrom(EncodeCentralDirectory(rs) + tail, 0) == Ok(EntriesOf(rs))
  {
    CentralDirectoryOfEncodingAt([], rs, tail);
    assert [] + (EncodeCentralDirectory(rs) + tail) == EncodeCentralDirectory(rs) + tail;
  }

  // =====================================================================
  // Local File Header, index.js:94-109
  // =====================================================================

  datatype LocalFileHeader = LocalFileHeader(
    signature: int,
    versionNeededToExtract: int,
    generalPurposeBitFlag: int,
    compressionMethod: int,
    lastModFileTime: int,
    lastModFileDate: int,
    crc32: int,
    compressedSize: int,
    uncompressedSize: int,
    fileNameLength: int,
    extraFieldLength: int,
    fileName: seq<byte>)

  /** `parseLocalFileHeader(buffer)`: every field at its offset, no signature check; the
      name read throws for an empty name or one that runs past the buffer. */
  function ParseLocalFileHeader(b: seq<byte>): Result<LocalFileHeader, Error> {
    var fileNameLength := ReadUint16LE(b, 26);
    var fileName :- ReadUtf8String(b, 30, 30 + fileNameLength);
    Ok(LocalFileHeader(
      ReadUint32LE(b, 0),
      ReadUint16LE(b, 4),
      ReadUint16LE(b, 6),
      ReadUint16LE(b, 8),
      ReadUint16LE(b, 10),
      ReadUint16LE(b, 12),
      ReadUint32LE(b, 14),
      ReadUint32LE(b, 18),
      ReadUint32LE(b, 22),
      fileNameLength,
      ReadUint16LE(b, 28),
      fileName))
  }

  /** The header fails, with a `RangeError`, exactly when its name is empty or runs past
      the buffer; otherwise its compression method is the u16 at offset 8 and its name
      the `fileNameLength` bytes after offset 30. */
  lemma ParseLocalFileHeaderSpec(b: seq<byte>)
    ensures var r := ParseLocalFileHeader(b);
            var n := ReadUint16LE(b, 26);
            && (r.Err? <==> n == 0 || LocalHeaderSize + n > |b|)
            && (r.Err? ==> r.error == RangeError)
            && (r.Ok? ==> && r.value.fileNameLength == n
                          && r.value.compressionMethod == ReadUint16LE(b, 8)
                          && r.value.fileName == b[LocalHeaderSize..LocalHeaderSize + n])
  {
  }

  predicate WellFormedLocalHeader(h: LocalFileHeader) {
    IsInt32(h.signature) && IsInt32(h.crc32) && IsInt32(h.compressedSize) && IsInt32(h.uncompressedSize) &&
    IsUint16(h.versionNeededToExtract) && IsUint16(h.generalPurposeBitFlag) && IsUint16(h.compressionMethod) &&
    IsUint16(h.lastModFileTime) && IsUint16(h.lastModFileDate) && IsUint16(h.extraFieldLength) &&
    h.fileNameLength == |h.fileName| && 0 < |h.fileName| < 0x1_0000
  }

  /** The header as APPNOTE section 4.3.7 lays it out, up to and including the name. */
  function EncodeLocalFileHeader(h: LocalFileHeader): (e: seq<byte>)
    ensures |e| == LocalHeaderSize + |h.fileName|
  {
    LE32Signed(h.signature) + LE16(h.versionNeededToExtract) + LE16(h.generalPurposeBitFlag) +
    LE16(h.compressionMethod) + LE16(h.lastModFileTime) + LE16(h.lastModFileDate) +
    LE32Signed(h.crc32) + LE32Signed(h.compressedSize) + LE32Signed(h.uncompressedSize) +
    LE16(h.fileNameLength) + LE16(h.extraFieldLength) + h.fileName
  }

  /** Parsing an encoded Local File Header gives it back, whatever follows it (its extra
      field, the entry's data). */
  lemma ParseLocalFileHeaderOfEncoding(h: LocalFileHeader, rest: seq<byte>)
    requires WellFormedLocalHeader(h)
    ensures ParseLocalFileHeader(EncodeLocalFileHeader(h) + rest) == Ok(h)
  {
    LocalHeaderVersionFields(h, rest);
    LocalHeaderMethodFields(h, rest);
    LocalHeaderSizeFields(h, rest);
    LocalHeaderNameFields(h, rest);
  }

  /** The fields of an encoded Local File Header read back, three at a time. */
  lemma LocalHeaderVersionFields(h: LocalFileHeader, rest: seq<byte>)
    requires WellFormedLocalHeader(h)
    ensures var s := EncodeLocalFileHeader(h) + rest;
            && ReadUint32LE(s, 0) == h.signature
            && ReadUint16LE(s, 4) == h.versionNeededToExtract
            && ReadUint16LE(s, 6) == h.generalPurposeBitFlag
  {
    var signature := LE32Signed(h.signature);
    var version := LE16(h.versionNeededToExtract);
    var flags := LE16(h.generalPurposeBitFlag);
    var compression := LE16(h.compressionMethod);
    var time := LE16(h.lastModFileTime);
    var date := LE16(h.lastModFileDate);
    var crc := LE32Signed(h.crc32);
    var compressed := LE32Signed(h.compressedSize);
    var uncompressed := LE32Signed(h.uncompressedSize);
    var nameLength := LE16(h.fileNameLength);
    var extraLength := LE16(h.extraFieldLength);
    var name := h.fileName;
    ReadsBeforeSuffix(signature + version + flags + compression + time + date + crc + compressed + uncompressed + nameLength + extraLength + name, rest, 0);
    ReadsBeforeSuffix(signature + version + flags + compression + time + date + crc + compressed + uncompressed + nameLength + extraLength, name, 0);
    ReadsBeforeSuffix(signature + version + flags + compression + time + date + crc + compressed + uncompressed + nameLength, extraLength, 0);
    ReadsBeforeSuffix(signature + version + flags + compression + time + date + crc + compressed + uncompressed, nameLength, 0);
    ReadsBeforeSuffix(signature + version + flags + compression + time + date + crc + compressed, uncompressed, 0);
    ReadsBeforeSuffix(signature + version + flags + compression + time + date + crc, compressed, 0);
    ReadsBeforeSuffix(signature + version + flags + compression + time + date, crc, 0);
    ReadsBeforeSuffix(signature + version + flags + compression + time, date, 0);
    ReadsBeforeSuffix(signature + version + flags + compression, time, 0);
    ReadsBeforeSuffix(signature + version + flags, compression, 0);
    ReadsBeforeSuffix(signature + version, flags, 0);
    ReadsBeforeSuffix(signature, version, 0);
    assert [] + signature == signature;
    Read32Last([], signature, h.signature);
    ReadsBeforeSuffix(signature + version + flags + compression + time + date + crc + compressed + uncompressed + nameLength + extraLength + name, rest, 4);
    ReadsBeforeSuffix(signature + version + flags + compression + time + date + crc + compressed + uncompressed + nameLength + extraLength, name, 4);
    ReadsBeforeSuffix(signature + version + flags + compression + time + date + crc + compressed + uncompressed + nameLength, extraLength, 4);
    ReadsBeforeSuffix(signature + version + flags + compression + time + date + crc + compressed + uncompressed, nameLength, 4);
    ReadsBeforeSuffix(signature + version + flags + compression + time + date + crc + compressed, uncompressed, 4);
    ReadsBeforeSuffix(signature + version + flags + compression + time + date + crc, compressed, 4);
    ReadsBeforeSuffix(signature + version + flags + compression + time + date, crc, 4);
    ReadsBeforeSuffix(signature + version + flags + compression + time, date, 4);
    ReadsBeforeSuffix(signature + version + flags + compression, time, 4);
    ReadsBeforeSuffix(signature + version + flags, compression, 4);
    ReadsBeforeSuffix(signature + version, flags, 4);
    Read16Last(signature, version, h.versionNeededToExtract);
    ReadsBeforeSuffix(signature + version + flags + compression + time + date + crc + compressed + uncompressed + nameLength + extraLength + name, rest, 6);
    ReadsBeforeSuffix(signature + version + flags + compression + time + date + crc + compressed + uncompressed + nameLength + extraLength, name, 6);
    ReadsBeforeSuffix(signature + version + flags + compression + time + date + crc + compressed + uncompressed + nameLength, extraLength, 6);
    ReadsBeforeSuffix(signature + version + flags + compression + time + date + crc + compressed + uncompressed, nameLength, 6);
    ReadsBeforeSuffix(signature + version + flags + compression + time + date + crc + compressed, uncompressed, 6);
    ReadsBeforeSuffix(signature + version + flags + compression + time + date + crc, compressed, 6);
    ReadsBeforeSuffix(signature + version + flags + compression + time + date, crc, 6);
    ReadsBeforeSuffix(signature + version + flags + compression + time, date, 6);
    ReadsBeforeSuffix(signature + version + flags + compression, time, 6);
    ReadsBeforeSuffix(signature + version + flags, compression, 6);
    Read16Last(signature + version, flags, h.generalPurposeBitFlag);
  }

  lemma LocalHeaderMethodFields(h: LocalFileHeader, rest: seq<byte>)
    requires WellFormedLocalHeader(h)
    ensures var s := EncodeLocalFileHeader(h) + rest;
            && ReadUint16LE(s, 8) == h.compressionMethod
            && ReadUint16LE(s, 10) == h.lastModFileTime
            && ReadUint16LE(s, 12) == h.lastModFileDate
  {
    var signature := LE32Signed(h.signature);
    var version := LE16(h.versionNeededToExtract);
    var flags := LE16(h.generalPurposeBitFlag);
    var compression := LE16(h.compressionMethod);
    var time := LE16(h.lastModFileTime);
    var date := LE16(h.lastModFileDate);
    var crc := LE32Signed(h.crc32);
    var compressed := LE32Signed(h.compressedSize);
    var uncompressed := LE32Signed(h.uncompressedSize);
    var nameLength := LE16(h.fileNameLength);
    var extraLength := LE16(h.extraFieldLength);
    var name := h.fileName;
    ReadsBeforeSuffix(signature + version + flags + compression + time + date + crc + compressed + uncompressed + nameLength + extraLength + name, rest, 8);
    ReadsBeforeSuffix(signature + version + flags + compression + time + date + crc + compressed + uncompressed + nameLength + extraLength, name, 8);
    ReadsBeforeSuffix(signature + version + flags + compression + time + date + crc + compressed + uncompressed + nameLength, extraLength, 8);
    ReadsBeforeSuffix(signature + version + flags + compression + time + date + crc + compressed + uncompressed, nameLength, 8);
    ReadsBeforeSuffix(signature + version + flags + compression + time + date + crc + compressed, uncompressed, 8);
    ReadsBeforeSuffix(signature + version + flags + compression + time + date + crc, compressed, 8);
    ReadsBeforeSuffix(signature + version + flags + compression + time + date, crc, 8);
    ReadsBeforeSuffix(signature + version + flags + compression + time, date, 8);
    ReadsBeforeSuffix(signature + version + flags + compression, time, 8);
    Read16Last(signature + version + flags, compression, h.compressionMethod);
    ReadsBeforeSuffix(signature + version + flags + compression + time + date + crc + compressed + uncompressed + nameLength + extraLength + name, rest, 10);
    ReadsBeforeSuffix(signature + version + flags + compression + time + date + crc + compressed + uncompressed + nameLength + extraLength, name, 10);
    ReadsBeforeSuffix(signature + version + flags + compression + time + date + crc + compressed + uncompressed + nameLength, extraLength, 10);
    ReadsBeforeSuffix(signature + version + flags + compression + time + date + crc + compressed + uncompressed, nameLength, 10);
    ReadsBeforeSuffix(signature + version + flags + compression + time + date + crc + compressed, uncompressed, 10);
    ReadsBeforeSuffix(signature + version + flags + compression + time + date + crc, compressed, 10);
    ReadsBeforeSuffix(signature + version + flags + compression + time + date, crc, 10);
    ReadsBeforeSuffix(signature + version + flags + compression + time, date, 10);
    Read16Last(signature + version + flags + compression, time, h.lastModFileTime);
    ReadsBeforeSuffix(signature + version + flags + compression + time + date + crc + compressed + uncompressed + nameLength + extraLength + name, rest, 12);
    ReadsBeforeSuffix(signature + version + flags + compression + time + date + crc + compressed + uncompressed + nameLength + extraLength, name, 12);
    ReadsBeforeSuffix(signature + version + flags + compression + time + date + crc + compressed + uncompressed + nameLength, extraLength, 12);
    ReadsBeforeSuffix(signature + version + flags + compression + time + date + crc + compressed + uncompressed, nameLength, 12);
    ReadsBeforeSuffix(signature + version + flags + compression + time + date + crc + compressed, uncompressed, 12);
    ReadsBeforeSuffix(signature + version + flags + compression + time + date + crc, compressed, 12);
    ReadsBeforeSuffix(signature + version + flags + compression + time + date, crc, 12);
    Read16Last(signature + version + flags + compression + time, date, h.lastModFileDate);
  }

  lemma LocalHeaderSizeFields(h: LocalFileHeader, rest: seq<byte>)
    requires WellFormedLocalHeader(h)
    ensures var s := EncodeLocalFileHeader(h) + rest;
            && ReadUint32LE(s, 14) == h.crc32
            && ReadUint32LE(s, 18) == h.compressedSize
            && ReadUint32LE(s, 22) == h.uncompressedSize
  {
    var signature := LE32Signed(h.signature);
    var version := LE16(h.versionNeededToExtract);
    var flags := LE16(h.generalPurposeBitFlag);
    var compression := LE16(h.compressionMethod);
    var time := LE16(h.lastModFileTime);
    var date := LE16(h.lastModFileDate);
    var crc := LE32Signed(h.crc32);
    var compressed := LE32Signed(h.compressedSize);
    var uncompressed := LE32Signed(h.uncompressedSize);
    var nameLength := LE16(h.fileNameLength);
    var extraLength := LE16(h.extraFieldLength);
    var name := h.fileName;
    ReadsBeforeSuffix(signature + version + flags + compression + time + date + crc + compressed + uncompressed + nameLength + extraLength + name, rest, 14);
    ReadsBeforeSuffix(signature + version + flags + compression + time + date + crc + compressed + uncompressed + nameLength + extraLength, name, 14);
    ReadsBeforeSuffix(signature + version + flags + compression + time + date + crc + compressed + uncompressed + nameLength, extraLength, 14);
    ReadsBeforeSuffix(signature + version + flags + compression + time + date + crc + compressed + uncompressed, nameLength, 14);
    ReadsBeforeSuffix(signature + version + flags + compression + time + date + crc + compressed, uncompressed, 14);
    ReadsBeforeSuffix(signature + version + flags + compression + time + date + crc, compressed, 14);
    Read32Last(signature + version + flags + compression + time + date, crc, h.crc32);
    ReadsBeforeSuffix(signature + version + flags + compression + time + date + crc + compressed + uncompressed + nameLength + extraLength + name, rest, 18);
    ReadsBeforeSuffix(signature + version + flags + compression + time + date + crc + compressed + uncompressed + nameLength + extraLength, name, 18);
    ReadsBeforeSuffix(signature + version + flags + compression + time + date + crc + compressed + uncompressed + nameLength, extraLength, 18);
    ReadsBeforeSuffix(signature + version + flags + compression + time + date + crc + compressed + uncompressed, nameLength, 18);
    ReadsBeforeSuffix(signature + version + flags + compression + time + date + crc + compressed, uncompressed, 18);
    Read32Last(signature + version + flags + compression + time + date + crc, compressed, h.compressedSize);
    ReadsBeforeSuffix(signature + version + flags + compression + time + date + crc + compressed + uncompressed + nameLength + extraLength + name, rest, 22);
    ReadsBeforeSuffix(signature + version + flags + compression + time + date + crc + compressed + uncompressed + nameLength + extraLength, name, 22);
    ReadsBeforeSuffix(signature + version + flags + compression + time + date + crc + compressed + uncompressed + nameLength, extraLength, 22);
    ReadsBeforeSuffix(signature + version + flags + compression + time + date + crc + compressed + uncompressed, nameLength, 22);
    Read32Last(signature + version + flags + compression + time + date + crc + compressed, uncompressed, h.uncompressedSize);
  }

  lemma LocalHeaderNameFields(h: LocalFileHeader, rest: seq<byte>)
    requires WellFormedLocalHeader(h)
    ensures var s := EncodeLocalFileHeader(h) + rest;
            && ReadUint16LE(s, 26) == h.fileNameLength
            && ReadUint16LE(s, 28) == h.extraFieldLength
            && 30 + |h.fileName| <= |s| && s[30..30 + |h.fileName|] == h.fileName
  {
    var signature := LE32Signed(h.signature);
    var version := LE16(h.versionNeededToExtract);
    var flags := LE16(h.generalPurposeBitFlag);
    var compression := LE16(h.compressionMethod);
    var time := LE16(h.lastModFileTime);
    var date := LE16(h.lastModFileDate);
    var crc := LE32Signed(h.crc32);
    var compressed := LE32Signed(h.compressedSize);
    var uncompressed := LE32Signed(h.uncompressedSize);
    var nameLength := LE16(h.fileNameLength);
    var extraLength := LE16(h.extraFieldLength);
    var name := h.fileName;
    ReadsBeforeSuffix(signature + version + flags + compression + time + date + crc + compressed + uncompressed + nameLength + extraLength + name, rest, 26);
    ReadsBeforeSuffix(signature + version + flags + compression + time + date + crc + compressed + uncompressed + nameLength + extraLength, name, 26);
    ReadsBeforeSuffix(signature + version + flags + compression + time + date + crc + compressed + uncompressed + nameLength, extraLength, 26);
    Read16Last(signature + version + flags + compression + time + date + crc + compressed + uncompressed, nameLength, h.fileNameLength);
    ReadsBeforeSuffix(signature + version + flags + compression + time + date + crc + compressed + uncompressed + nameLength + extraLength + name, rest, 28);
    ReadsBeforeSuffix(signature + version + flags + compression + time + date + crc + compressed + uncompressed + nameLength + extraLength, name, 28);
    Read16Last(signature + version + flags + compression + time + date + crc + compressed + uncompressed + nameLength, extraLength, h.extraFieldLength);
    SliceBeforeSuffix(signature + version + flags + compression + time + date + crc + compressed + uncompressed + nameLength + extraLength + name, rest, 30, |h.fileName|);
    assert (signature + version + flags + compression + time + date + crc + compressed + uncompressed + nameLength + extraLength + name)[30..30 + |h.fileName|] == name;
  }
}
