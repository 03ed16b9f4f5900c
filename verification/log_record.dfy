/**
  The log record and its header, as the data file sees them. The header
  codec and the CRC are not part of this model: a reader receives them as a
  `HeaderCodec` value and may rely only on `ValidCodec`.
 */
module LogRecordCodec {
  import opened Types

  /** Length of the stored CRC-32 value at the start of every header (Go's `crc32.Size`). */
  const CrcSize := 4

  /** One key/value mutation: the payload of a frame and its type tag. */
  datatype LogRecord = LogRecord(key: seq<byte>, value: seq<byte>, recordType: byte)

  datatype LogRecordHeader = LogRecordHeader(crc: uint32, recordType: byte, keySize: uint32, valueSize: uint32)

  /** A decoded header together with the number of bytes it occupied. */
  datatype DecodedHeader = DecodedHeader(header: LogRecordHeader, size: int)

  /**
    The collaborators a reader needs: the bound on a header's encoded length,
    the header decoder (`None` when no header could be decoded) and the CRC of
    a record, computed over the record and the header bytes after the CRC.
   */
  datatype HeaderCodec = HeaderCodec(
    maxHeaderSize: int,
    decode: seq<byte> -> Option<DecodedHeader>,
    checksum: (LogRecord, seq<byte>) -> uint32)

  /**
    The all-zero header that marks unused space at the end of a file. Only
    the CRC and the two sizes are tested; the type byte may be anything.
   */
  predicate IsSentinel(h: LogRecordHeader): (b: bool)
    ensures b <==> h == LogRecordHeader(0, h.recordType, 0, 0)
  {
    h.crc == 0 && h.keySize == 0 && h.valueSize == 0
  }

  /**
    What a reader relies on: the header bound is positive, and a decoded
    header covers at least its CRC and never more than the buffer it came from.
   */
  ghost predicate ValidCodec(c: HeaderCodec) {
    && c.maxHeaderSize > 0
    && forall buf: seq<byte> :: c.decode(buf).Some? ==> CrcSize <= c.decode(buf).value.size <= |buf|
  }

  /**
    A decoder whose successful results do not change when more bytes follow
    in the buffer (within the header bound). Only the append-stability
    property of the data file needs it.
   */
  ghost predicate ExtensionStable(c: HeaderCodec) {
    forall buf: seq<byte>, more: seq<byte> ::
      c.decode(buf).Some? && |buf + more| <= c.maxHeaderSize ==> c.decode(buf + more) == c.decode(buf)
  }
}
