/**
  One segment file of the store: its id, its write cursor and the IO manager
  holding its bytes. Reading turns an offset into exactly one log record and
  its length on disk; writing appends raw bytes and advances the cursor.
 */
module DataFile {
  import opened Types
  import opened LogRecordCodec
  import FileIO
  import DataFileName

  datatype DataFile = DataFile(fileId: uint32, writeOff: int, io: FileIO.ByteSource)

  /** The outcome of reading one record. Every outcome but `Record` carries no record. */
  datatype ReadResult =
    | Record(record: LogRecord, size: int)  // the record and its length on disk
    | EOF                                   // no header, or the all-zero sentinel header
    | InvalidCRC                            // the stored CRC disagrees with the recomputed one
    | IOError(error: IoError)               // the IO manager failed; passed on unchanged

  /**
    A data file and the error of the write that produced it. After a failed
    write the file may still have grown: its IO manager keeps what it wrote.
   */
  datatype WriteOutcome = WriteOutcome(file: DataFile, err: Option<IoError>)

  /**
    Opens the segment for `fileId` in `dirPath`. `newIOManager` stands for
    opening or creating the named file.
   */
  function OpenDataFile(dirPath: string, fileId: uint32, newIOManager: string -> Result<FileIO.ByteSource>)
    : (r: Result<DataFile>)
    ensures var created := newIOManager(DataFileName.DataFileName(dirPath, fileId));
      && (created.Err? <==> r.Err?)
      && (r.Err? ==> r.error == created.error)
      && (r.Ok? ==> r.value.fileId == fileId && r.value.writeOff == 0 && r.value.io == created.value)
  {
    var fileName := DataFileName.DataFileName(dirPath, fileId);
    match newIOManager(fileName)
    case Err(e) => Err(e)
    case Ok(ioManager) => Ok(DataFile(fileId, 0, ioManager))
  }

  /**
    How many bytes to read for the header at `offset`: the header bound,
    cut short at the end of the file.
   */
  function HeaderReadLength(maxHeaderSize: int, fileSize: int, offset: int): (n: int)
    ensures n == maxHeaderSize || n == fileSize - offset
    ensures n <= maxHeaderSize && offset + n <= fileSize
    ensures 0 <= maxHeaderSize && offset <= fileSize ==> 0 <= n
  {
    if offset + maxHeaderSize > fileSize then fileSize - offset else maxHeaderSize
  }

  /** Reads exactly `n` bytes at `offset` (the buffer length is `n`, so `n` cannot be negative). */
  function ReadNBytes(df: DataFile, n: int, offset: int): (r: Result<seq<byte>>)
    requires 0 <= n
    ensures r.Ok? <==> df.io.fault.None? && 0 <= offset && offset + n <= |df.io.data|
    ensures r.Ok? ==> |r.value| == n && r.value == df.io.data[offset..offset + n]
    ensures r.Err? ==> r.error == (if df.io.fault.Some? then df.io.fault.value
                                   else if offset < 0 then NegativeOffset else ShortRead)
  {
    FileIO.ReadAt(df.io, n, offset)
  }

  /** The header bytes a reader at `offset` hands to the decoder. */
  ghost function HeaderWindow(df: DataFile, codec: HeaderCodec, offset: int): seq<byte>
    requires ValidCodec(codec) && 0 <= offset <= |df.io.data|
  {
    df.io.data[offset..offset + HeaderReadLength(codec.maxHeaderSize, |df.io.data|, offset)]
  }

  ghost function HeaderAt(df: DataFile, codec: HeaderCodec, offset: int): Option<DecodedHeader>
    requires ValidCodec(codec) && 0 <= offset <= |df.io.data|
  {
    codec.decode(HeaderWindow(df, codec, offset))
  }

  /** A header decoded at `offset` whose key and value lie inside the file. */
  ghost predicate PayloadFits(df: DataFile, offset: int, d: DecodedHeader) {
    0 <= offset && 0 <= d.size
    && offset + d.size + d.header.keySize + d.header.valueSize <= |df.io.data|
  }

  /** The record framed by header `d` at `offset`: the key right after the header, then the value. */
  ghost function RecordAt(df: DataFile, offset: int, d: DecodedHeader): LogRecord
    requires PayloadFits(df, offset, d)
  {
    var start := offset + d.size;
    LogRecord(df.io.data[start..start + d.header.keySize],
              df.io.data[start + d.header.keySize..start + d.header.keySize + d.header.valueSize],
              d.header.recordType)
  }

  /** The header bytes that follow the stored CRC, the second input of the checksum. */
  ghost function CheckedHeaderBytes(df: DataFile, offset: int, d: DecodedHeader): seq<byte>
    requires PayloadFits(df, offset, d) && CrcSize <= d.size
  {
    df.io.data[offset + CrcSize..offset + d.size]
  }

  /** Reads the record stored at `offset`. */
  function ReadLogRecord(df: DataFile, codec: HeaderCodec, offset: int): (r: ReadResult)
    requires ValidCodec(codec)
    requires df.io.fault.Some? || offset <= |df.io.data|
    // A failing device or a negative offset is reported by the IO manager.
    ensures df.io.fault.Some? ==> r == IOError(df.io.fault.value)
    ensures df.io.fault.None? && offset < 0 ==> r == IOError(NegativeOffset)
    // End of data: nothing decodes, or the sentinel decodes.
    ensures r.EOF? <==>
      && df.io.fault.None? && 0 <= offset
      && (HeaderAt(df, codec, offset).None? || IsSentinel(HeaderAt(df, codec, offset).value.header))
    // A real header whose payload runs past the end of the file.
    ensures df.io.fault.None? && 0 <= offset && HeaderAt(df, codec, offset).Some?
            && !IsSentinel(HeaderAt(df, codec, offset).value.header)
            && !PayloadFits(df, offset, HeaderAt(df, codec, offset).value)
            ==> r == IOError(ShortRead)
    // A record is returned exactly when the payload fits and the CRC matches.
    ensures r.Record? <==>
      && df.io.fault.None? && 0 <= offset
      && HeaderAt(df, codec, offset).Some?
      && var d := HeaderAt(df, codec, offset).value;
      && !IsSentinel(d.header)
      && PayloadFits(df, offset, d)
      && codec.checksum(RecordAt(df, offset, d), CheckedHeaderBytes(df, offset, d)) == d.header.crc
    ensures r.Record? ==>
      var d := HeaderAt(df, codec, offset).value;
      && r.record == RecordAt(df, offset, d)
      && r.size == d.size + d.header.keySize + d.header.valueSize
      && CrcSize <= r.size && offset + r.size <= |df.io.data|
    ensures r.InvalidCRC? <==>
      && df.io.fault.None? && 0 <= offset
      && HeaderAt(df, codec, offset).Some?
      && var d := HeaderAt(df, codec, offset).value;
      && !IsSentinel(d.header)
      && PayloadFits(df, offset, d)
      && codec.checksum(RecordAt(df, offset, d), CheckedHeaderBytes(df, offset, d)) != d.header.crc
  {
    match FileIO.Size(df.io)
    case Err(e) => IOError(e)
    case Ok(fileSize) =>
      var headerBytes := HeaderReadLength(codec.maxHeaderSize, fileSize, offset);
      match ReadNBytes(df, headerBytes, offset)
      case Err(e) => IOError(e)
      case Ok(headerBuf) =>
        match codec.decode(headerBuf)
        case None => EOF
        case Some(DecodedHeader(header, headerSize)) =>
          if IsSentinel(header) then EOF
          else
            ReadPayload(df, codec, offset, headerBuf, DecodedHeader(header, headerSize))
  }

  /**
    The second half of a read: given the header bytes at `offset` and the
    real (non-sentinel) header decoded from them, reads the key and value and
    checks the CRC.
   */
  function ReadPayload(df: DataFile, codec: HeaderCodec, offset: int, headerBuf: seq<byte>, d: DecodedHeader)
    : (r: ReadResult)
    requires df.io.fault.None? && 0 <= offset && offset + |headerBuf| <= |df.io.data|
    requires headerBuf == df.io.data[offset..offset + |headerBuf|]
    requires CrcSize <= d.size <= |headerBuf|
    ensures !PayloadFits(df, offset, d) ==> r == IOError(ShortRead)
    ensures r.Record? <==>
      PayloadFits(df, offset, d)
      && codec.checksum(RecordAt(df, offset, d), CheckedHeaderBytes(df, offset, d)) == d.header.crc
    ensures r.InvalidCRC? <==>
      PayloadFits(df, offset, d)
      && codec.checksum(RecordAt(df, offset, d), CheckedHeaderBytes(df, offset, d)) != d.header.crc
    ensures r.Record? ==>
      && r.record == RecordAt(df, offset, d)
      && r.size == d.size + d.header.keySize + d.header.valueSize
  {
    var keySize, valueSize := d.header.keySize, d.header.valueSize;
    var recordSize := d.size + keySize + valueSize;
    var payload :=
      if keySize > 0 || valueSize > 0 then ReadNBytes(df, keySize + valueSize, offset + d.size)
      else Result.Ok([]);
    match payload
    case Err(e) => IOError(e)
    case Ok(kvBuf) =>
      var record := LogRecord(kvBuf[..keySize], kvBuf[keySize..], d.header.recordType);
      assert record == RecordAt(df, offset, d);
      assert headerBuf[CrcSize..d.size] == df.io.data[offset + CrcSize..offset + d.size]
        == CheckedHeaderBytes(df, offset, d);
      if codec.checksum(record, headerBuf[CrcSize..d.size]) != d.header.crc then InvalidCRC
      else Record(record, recordSize)
  }

  /**
    Appends `buf` through the IO manager. On success the cursor advances by
    the byte count the IO manager reports. On error the cursor stays where it
    was, even when the IO manager wrote part of `buf` before failing.
   */
  function Write(df: DataFile, buf: seq<byte>): (r: WriteOutcome)
    ensures r.file.fileId == df.fileId
    ensures r.file.io.fault == df.io.fault && r.file.io.capacity == df.io.capacity
    ensures |df.io.data| <= |r.file.io.data| <= |df.io.data| + |buf|
    ensures r.file.io.data == df.io.data + buf[..|r.file.io.data| - |df.io.data|]
    ensures r.err.None? <==> df.io.fault.None? && |buf| <= FileIO.Room(df.io)
    ensures r.err.None? ==> r.file.io.data == df.io.data + buf && r.file.writeOff == df.writeOff + |buf|
    ensures r.err.Some? ==> r.file.writeOff == df.writeOff
    ensures r.err.Some? && df.io.fault.None? ==>
      r.err == Some(NoSpace) && |r.file.io.data| == |df.io.data| + FileIO.Room(df.io) < |df.io.data| + |buf|
    ensures df.io.fault.Some? ==> r.file == df && r.err == df.io.fault
  {
    var written := FileIO.Write(df.io, buf);
    match written.err
    case Some(e) => WriteOutcome(df.(io := written.src), Some(e))
    case None => WriteOutcome(df.(writeOff := df.writeOff + written.n, io := written.src), None)
  }

  /** At the end of a healthy file there is no header to decode, so the reader reports end of data. */
  lemma ReadAtEndOfFile(df: DataFile, codec: HeaderCodec)
    requires ValidCodec(codec) && df.io.fault.None?
    ensures ReadLogRecord(df, codec, |df.io.data|) == EOF
  {
    assert HeaderWindow(df, codec, |df.io.data|) == [];
  }

  /** A read depends only on the file's bytes: the write cursor and the file id play no part. */
  lemma ReadIgnoresCursor(df: DataFile, codec: HeaderCodec, offset: int, writeOff: int, fileId: uint32)
    requires ValidCodec(codec)
    requires df.io.fault.Some? || offset <= |df.io.data|
    ensures ReadLogRecord(DataFile(fileId, writeOff, df.io), codec, offset) == ReadLogRecord(df, codec, offset)
  {
  }

  /**
    Appending never changes a record that could already be read: with a
    decoder that is stable under extension, every offset that yielded a
    record (or a CRC failure) before a write yields the same after it, also
    when the write failed part-way and left only part of its buffer behind.
   */
  lemma AppendPreservesRecords(df: DataFile, codec: HeaderCodec, offset: int, buf: seq<byte>)
    requires ValidCodec(codec) && ExtensionStable(codec)
    requires 0 <= offset <= |df.io.data|
    requires ReadLogRecord(df, codec, offset).Record? || ReadLogRecord(df, codec, offset).InvalidCRC?
    ensures ReadLogRecord(Write(df, buf).file, codec, offset) == ReadLogRecord(df, codec, offset)
  {
    var df' := Write(df, buf).file;
    var appended := buf[..|df'.io.data| - |df.io.data|];
    var d := ReadableHeader(df, codec, offset);
    AppendKeepsHeader(df, df', codec, offset, appended);
    AppendKeepsFrame(df, df', offset, d, appended);
    SameFrameSameRead(df, df', codec, offset, d);
  }

  /** A read that got as far as the CRC check decoded a real header whose payload fits. */
  lemma ReadableHeader(df: DataFile, codec: HeaderCodec, offset: int) returns (d: DecodedHeader)
    requires ValidCodec(codec) && 0 <= offset <= |df.io.data|
    requires ReadLogRecord(df, codec, offset).Record? || ReadLogRecord(df, codec, offset).InvalidCRC?
    ensures df.io.fault.None? && HeaderAt(df, codec, offset) == Some(d)
    ensures !IsSentinel(d.header) && PayloadFits(df, offset, d)
  {
    d := HeaderAt(df, codec, offset).value;
  }

  /** After an append, an extension-stable decoder still decodes the same header at an old offset. */
  lemma AppendKeepsHeader(df: DataFile, df': DataFile, codec: HeaderCodec, offset: int, buf: seq<byte>)
    requires ValidCodec(codec) && ExtensionStable(codec)
    requires 0 <= offset <= |df.io.data| && df'.io.data == df.io.data + buf
    requires HeaderAt(df, codec, offset).Some?
    ensures HeaderAt(df', codec, offset) == HeaderAt(df, codec, offset)
  {
    var w := HeaderWindow(df, codec, offset);
    var w' := HeaderWindow(df', codec, offset);
    assert w' == w + w'[|w|..];
  }

  /** After an append, a payload that fitted is still there, byte for byte. */
  lemma AppendKeepsFrame(df: DataFile, df': DataFile, offset: int, d: DecodedHeader, buf: seq<byte>)
    requires df'.io.data == df.io.data + buf
    requires PayloadFits(df, offset, d) && CrcSize <= d.size
    ensures PayloadFits(df', offset, d)
    ensures RecordAt(df', offset, d) == RecordAt(df, offset, d)
    ensures CheckedHeaderBytes(df', offset, d) == CheckedHeaderBytes(df, offset, d)
  {
  }

  /** Two healthy files that frame the same header, record and checked bytes at `offset` read alike there. */
  lemma SameFrameSameRead(df: DataFile, df': DataFile, codec: HeaderCodec, offset: int, d: DecodedHeader)
    requires ValidCodec(codec) && df.io.fault.None? && df'.io.fault.None?
    requires 0 <= offset <= |df.io.data| && offset <= |df'.io.data|
    requires HeaderAt(df, codec, offset) == HeaderAt(df', codec, offset) == Some(d)
    requires !IsSentinel(d.header) && PayloadFits(df, offset, d) && PayloadFits(df', offset, d)
    requires RecordAt(df, offset, d) == RecordAt(df', offset, d)
    requires CheckedHeaderBytes(df, offset, d) == CheckedHeaderBytes(df', offset, d)
    ensures ReadLogRecord(df, codec, offset) == ReadLogRecord(df', codec, offset)
  {
  }

  /**
    A file whose cursor marks the end of its bytes keeps that property across
    successful writes, and each such write's bytes start at the cursor it had
    before.
   */
  lemma WriteKeepsCursorAtEnd(df: DataFile, buf: seq<byte>)
    requires df.writeOff == |df.io.data|
    ensures Write(df, buf).err.None? ==>
      && Write(df, buf).file.writeOff == |Write(df, buf).file.io.data|
      && Write(df, buf).file.io.data[df.writeOff..] == buf
  {
  }

  /**
    A write that runs out of space part-way leaves the cursor behind the end
    of the file: the bytes that did reach the file sit at the cursor, and the
    next append will land after them.
   */
  lemma PartialWriteLeavesCursorBehind(df: DataFile, buf: seq<byte>)
    requires df.writeOff == |df.io.data| && df.io.fault.None?
    requires 0 < FileIO.Room(df.io) < |buf|
    ensures var r := Write(df, buf);
      && r.err == Some(NoSpace)
      && r.file.writeOff < |r.file.io.data|
      && r.file.io.data[r.file.writeOff..] == buf[..FileIO.Room(df.io)]
  {
  }

  /**
    Opening starts the cursor at 0, so the cursor marks the end of the file's
    bytes exactly when the opened file is empty; a reopened segment that
    already holds records needs its cursor set by its caller.
   */
  lemma OpenCursorAtEndIffEmpty(dirPath: string, fileId: uint32, newIOManager: string -> Result<FileIO.ByteSource>)
    requires newIOManager(DataFileName.DataFileName(dirPath, fileId)).Ok?
    ensures OpenDataFile(dirPath, fileId, newIOManager).Ok?
    ensures var df := OpenDataFile(dirPath, fileId, newIOManager).value;
      && df.fileId == fileId
      && (df.writeOff == |df.io.data| <==> newIOManager(DataFileName.DataFileName(dirPath, fileId)).value.data == [])
  {
  }
}
