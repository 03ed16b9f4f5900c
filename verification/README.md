# Bitcask data file: record reader and writer

This project models `DataFile`, one segment file of a Bitcask-style log-structured
key-value store. A segment is an append-only file of frames. Each frame is a
header followed by the key and value:

```
[ crc:4 ][ type:1 ][ keySize ][ valueSize ][ key ][ value ]
```

The model covers four operations and proves what each one promises:

- **Open.** `OpenDataFile` builds the segment's file name and starts the write cursor at 0.
- **Read.** `ReadLogRecord` turns a byte offset into exactly one log record plus its length on disk, or into end of data, a CRC failure or an IO error.
- **Write.** `Write` appends bytes and advances the write cursor.
- **Read bytes.** `readNBytes` reads a fixed number of bytes at an offset.

Modules:

- `Types` (types.dfy): bytes, `uint32`, `Option`, `Result` and the IO errors.
- `FileIO` (fio.dfy): the IO manager as an in-memory byte sequence. Writing appends to it, `Size` is its length, and reading at an offset is slicing. A failed device is a `fault` field, and every operation on it returns that error. A `capacity` field bounds the file's length. A write that does not fit appends the part of its buffer that fits and then fails with `NoSpace`, like an operating-system write that stops part-way on a full disk.
- `LogRecordCodec` (log_record.dfy): `LogRecord`, the decoded header, and `HeaderCodec`. `HeaderCodec` bundles the header decoder, the CRC function and the header-size bound. Their code is outside data_file.go, so a reader receives them as a value. It relies only on `ValidCodec`: the bound is positive, and a decoded header is at least 4 bytes long (the CRC) and no longer than the buffer it came from.
- `DataFileName` (file_name.dfy): Go's `%09d` formatting and the segment path.
- `DataFile` (data_file.dfy): the data file, its operations and the lemmas about them.

External effects become parameters:

- Opening a file through the IO manager is the function parameter `newIOManager`.
- The header codec is the `HeaderCodec` parameter.

## Model

| member | source | states |
|---|---|---|
| `DataFileName.Decimal` | data/data_file.go:27 | The decimal rendering of a number is a non-empty digit string with no leading zero |
| `DataFileName.FormatFileId` | data/data_file.go:27 | `%09d` of a file id has at least 9 digits, no zero in front beyond the padding, and parses back to the id, so 10-digit ids are not truncated |
| `DataFileName.FormatFileIdUnique` | data/data_file.go:27 | Any digit string with those three properties equals the `%09d` rendering, so the contract above pins the format down completely |
| `DataFileName.DataFileName` | data/data_file.go:27 | The path is the directory, `/`, exactly the `%09d` rendering of the file id (at least 9 digits that parse back to the id), then the `.data` suffix |
| `LogRecordCodec.IsSentinel` | data/data_file.go:64 | A header is the end-of-data sentinel exactly when it equals the all-zero header, with any type byte: the CRC and both sizes are 0 |
| `DataFileName.DataFileNameInjective` | data/data_file.go:27 | Two different file ids in one directory never get the same file name |
| `DataFile.OpenDataFile` | data/data_file.go:26-38 | Opening fails exactly when the IO manager fails, and returns that error. On success the file has the requested id, cursor 0, and the IO manager opened for the segment's file name |
| `DataFile.OpenCursorAtEndIffEmpty` | data/data_file.go:33-37 | Opening always succeeds when the IO manager does, and the opened file's cursor is at the end of its bytes exactly when the file is empty. A reopened non-empty segment starts with its cursor at 0, behind its records |
| `DataFile.HeaderReadLength` | data/data_file.go:47-51 | The header read length is the minimum of the header bound and the bytes left after the offset: it never reaches past the end of the file, and it is never negative for an offset inside the file |
| `DataFile.ReadNBytes` | data/data_file.go:109-113 | The read succeeds exactly when the device is healthy and `[offset, offset+n)` lies inside the file. It then returns exactly those `n` bytes, and otherwise the device error, a negative-offset error or a short-read error |
| `DataFile.ReadLogRecord` | data/data_file.go:41-90 | A device error or negative offset is passed on. EOF holds exactly when no header decodes or the header is the all-zero sentinel. A record is returned exactly when the payload fits and the CRC over the record and header bytes `[4, headerSize)` matches. InvalidCRC is returned exactly when the payload fits and the CRC does not match. A payload running past the end is an IO error. On success the key is the `keySize` bytes after the header, the value follows it, and `size = headerSize + keySize + valueSize` with `offset + size` inside the file |
| `DataFile.ReadPayload` | data/data_file.go:69-89 | For a real header: a short payload is an IO error, otherwise the result is the record framed at the offset or InvalidCRC, decided by the CRC over the record and header bytes `[4, headerSize)` |
| `DataFile.ReadAtEndOfFile` | data/data_file.go:48-63 | Reading at the end of a healthy file reports EOF: the header window is empty and nothing decodes from it |
| `DataFile.ReadIgnoresCursor` | data/data_file.go:41-90 | The read result depends only on the file's bytes, not on the write cursor or the file id |
| `DataFile.SameFrameSameRead` | data/data_file.go:59-89 | Two files that frame the same header, record and checked header bytes at an offset give the same read result there |
| `DataFile.AppendPreservesRecords` | data/data_file.go:41-98 | With a decoder that is stable under extension, every offset that gave a record, or a CRC failure, before a write gives the same result after it. This holds whether the write succeeded or failed part-way |
| `DataFile.Write` | data/data_file.go:92-98 | The file's bytes always grow by a prefix of the buffer, and the id never changes. The write succeeds exactly when the device is healthy and the buffer fits. Then the whole buffer is appended and the cursor advances by the byte count the IO manager reports, which is the buffer's length. On error the cursor stays where it was, even though a full disk has kept the part of the buffer that fitted. A failed device changes nothing |
| `DataFile.WriteKeepsCursorAtEnd` | data/data_file.go:92-98 | A cursor at the end of the file stays there across successful writes, and the written bytes start at the old cursor |
| `DataFile.PartialWriteLeavesCursorBehind` | data/data_file.go:93-97 | A write that runs out of space part-way returns the error and leaves the cursor behind the end of the file. The bytes that reached the file sit at the cursor, so the next append lands after them |
| `FileIO.Size` | data/data_file.go:42-45 | The size query fails with the device's error exactly when the device has failed, and otherwise returns the file's length |
| `FileIO.ReadAt` | data/data_file.go:111 | The IO manager's read of `n` bytes at an offset returns exactly those bytes when they lie inside a healthy file, and otherwise an error |
| `FileIO.Write` | fio/file_io_test.go:33-43 | When the buffer fits on a healthy device, the IO manager's write appends it and reports its length (0 for an empty buffer). A full disk takes the part that fits, reports that count and fails with `NoSpace`. A failed device writes nothing |
| `FileIO.ReadAfterWrite` | fio/file_io_test.go:50-64 | After an append, the bytes written are read back at the old end of the file, and every read that succeeded before returns the same bytes |

## Left out

- `Sync` and `Close` (data/data_file.go:101-107) only delegate to the IO manager. They carry no logic of their own.
- The IO manager backends and `fio.NewIOManager` (buffered file and memory map) are not part of this model. Opening is the `newIOManager` parameter, and the file is an in-memory byte sequence.
- The header codec (`decodeLogRecordHeader`, `getLogRecordCRC`, `maxLogRecordHeaderSize`, `LogRecord`) and CRC-32 live outside data_file.go and are not part of this model. The reader takes them as a `HeaderCodec` value. So no property here relies on the varint layout or on CRC-32 itself. This leaves several properties out: encode/decode round trips, detection of single-byte corruption, header sizes that vary with the key length, and concrete write-then-read scenarios.
- A short read is modelled as the IO error `ShortRead`. This covers a payload that runs past the end of the file. With the buffered-file backend, Go's `ReadAt` reports this case as `io.EOF`. Because `readNBytes` discards the read count (data/data_file.go:111), `ReadLogRecord` then returns the same `io.EOF` it uses for end of data. The model keeps the two outcomes apart.
- `ReadLogRecord` requires `offset <= fileSize` when the device is healthy. A larger offset makes the header length negative, and `make` panics on that. A negative offset is not excluded: it is the IO manager's error.
- Offsets, sizes and the write cursor are unbounded integers. `int64` overflow of `WriteOff` and `offset + maxLogRecordHeaderSize` is not modelled, since it needs files of 2^63 bytes.
- `filepath.Join` is modelled as concatenation with `/`. Path cleaning and the empty-directory case are not modelled.
- `Write` has no partial-write check and the file has no closed state; the model follows the code. A write that fails part-way returns the IO manager's error with the cursor left behind the bytes that did reach the file (`DataFile.PartialWriteLeavesCursorBehind`).
- Disk space is the only cause of a partial write that is modelled, through the byte source's `capacity`. Other failures in the middle of a write (a device error after some bytes) are modelled as failing before any byte is written.
- Restoring the write cursor when an existing segment is reopened happens outside data_file.go and is not modelled. `OpenDataFile` always starts at 0.
- `DataFile.AppendPreservesRecords`: proved only for decoders whose successful results do not change when more bytes follow in the buffer (`ExtensionStable`). Without that hypothesis, an append near the end of the file gives the decoder a longer header window, and the unseen codec could decode it differently.
