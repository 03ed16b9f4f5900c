/**
  The IO manager a data file reads and writes through, as an in-memory byte
  sequence. Writes append at the end, `Size` is the length, and reading `n`
  bytes at an offset is slicing. A device that has failed is modelled by
  `fault`: every operation on it reports that error and changes nothing.
  `capacity` bounds the file's length (the space left on the disk): a write
  that does not fit appends as much of its buffer as fits and then fails,
  like an operating-system write that stops part-way when the disk is full.
 */
module FileIO {
  import opened Types

  datatype ByteSource = ByteSource(data: seq<byte>, fault: Option<IoError>, capacity: nat)

  /**
    The result of an append, as Go's `(n int, err error)`: the source after
    the write, the number of bytes that reached it, and the error, if any.
    The `n` bytes stay in the file even when `err` is set.
   */
  datatype Written = Written(src: ByteSource, n: nat, err: Option<IoError>)

  /** How many more bytes fit in the file. */
  function Room(src: ByteSource): nat {
    if |src.data| < src.capacity then src.capacity - |src.data| else 0
  }

  function Size(src: ByteSource): (r: Result<nat>)
    ensures r.Ok? <==> src.fault.None?
    ensures r.Ok? ==> r.value == |src.data|
    ensures r.Err? ==> r.error == src.fault.value
  {
    match src.fault
    case Some(e) => Err(e)
    case None => Ok(|src.data|)
  }

  /** Reads `n` bytes starting at `offset`; a read that would run past the end fails. */
  function ReadAt(src: ByteSource, n: nat, offset: int): (r: Result<seq<byte>>)
    ensures r.Ok? <==> src.fault.None? && 0 <= offset && offset + n <= |src.data|
    ensures r.Ok? ==> |r.value| == n && r.value == src.data[offset..offset + n]
    ensures src.fault.Some? ==> r == Err(src.fault.value)
    ensures src.fault.None? && offset < 0 ==> r == Err(NegativeOffset)
    ensures src.fault.None? && 0 <= offset && offset + n > |src.data| ==> r == Err(ShortRead)
  {
    if src.fault.Some? then Err(src.fault.value)
    else if offset < 0 then Err(NegativeOffset)
    else if offset + n > |src.data| then Err(ShortRead)
    else Ok(src.data[offset..offset + n])
  }

  /**
    Appends `buf` and reports how many bytes were written. A failed device
    writes nothing; a full disk takes the part of `buf` that fits.
   */
  function Write(src: ByteSource, buf: seq<byte>): (r: Written)
    ensures r.n <= |buf| && r.src.data == src.data + buf[..r.n]
    ensures r.src.fault == src.fault && r.src.capacity == src.capacity
    ensures r.err.None? <==> src.fault.None? && |buf| <= Room(src)
    ensures r.err.None? ==> r.n == |buf|
    ensures src.fault.Some? ==> r.n == 0 && r.err == src.fault
    ensures src.fault.None? && Room(src) < |buf| ==> r.n == Room(src) && r.err == Some(NoSpace)
  {
    match src.fault
    case Some(e) => Written(src, 0, Some(e))
    case None =>
      if |buf| <= Room(src) then Written(src.(data := src.data + buf), |buf|, None)
      else
        var n := Room(src);
        Written(src.(data := src.data + buf[..n]), n, Some(NoSpace))
  }

  /**
    Reading back after an append: the bytes that were written are found
    right after the old end, and every read that succeeded before the append
    returns the same bytes after it, whether the append succeeded or not.
   */
  lemma ReadAfterWrite(src: ByteSource, buf: seq<byte>)
    requires src.fault.None?
    ensures var w := Write(src, buf);
      ReadAt(w.src, w.n, |src.data|) == Ok(buf[..w.n])
    ensures forall n: nat, offset: int :: ReadAt(src, n, offset).Ok? ==>
              ReadAt(Write(src, buf).src, n, offset) == ReadAt(src, n, offset)
  {
    var w := Write(src, buf);
    assert w.src.data[|src.data|..|src.data| + w.n] == buf[..w.n];
    forall n: nat, offset: int | ReadAt(src, n, offset).Ok?
      ensures ReadAt(w.src, n, offset) == ReadAt(src, n, offset)
    {
      assert w.src.data[offset..offset + n] == src.data[offset..offset + n];
    }
  }
}
