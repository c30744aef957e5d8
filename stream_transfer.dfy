/** The streaming transfer engine (transfer_file of the second version):
    the object arrives as a stream of chunks of any size, which a buffer
    re-cuts into writes of exactly the write size, the remainder going out
    as one last shorter write. */
module StreamTransfer {
  import opened Common

  /** The writes of whole units that data yields: one per writeSize
      bytes, front to back. */
  function Full(data: seq<byte>, writeSize: nat): (units: seq<seq<byte>>)
    requires writeSize > 0
    ensures forall i :: 0 <= i < |units| ==> |units[i]| == writeSize
    decreases |data|
  {
    if |data| < writeSize then [] else [data[..writeSize]] + Full(data[writeSize..], writeSize)
  }

  /** What stays in the buffer once the whole units of data are written. */
  function Rest(data: seq<byte>, writeSize: nat): (rest: seq<byte>)
    requires writeSize > 0
    ensures |rest| < writeSize
    decreases |data|
  {
    if |data| < writeSize then data else Rest(data[writeSize..], writeSize)
  }

  /** The writes the whole stream data yields: the whole units, then the
      remainder when it is not empty. */
  function Segments(data: seq<byte>, writeSize: nat): seq<seq<byte>>
    requires writeSize > 0
  {
    var rest := Rest(data, writeSize);
    Full(data, writeSize) + if rest == [] then [] else [rest]
  }

  /** The whole units and the remainder hold all of data, in order. */
  lemma {:induction false} FullRest(data: seq<byte>, writeSize: nat)
    requires writeSize > 0
    ensures Flatten(Full(data, writeSize)) + Rest(data, writeSize) == data
    ensures |data| == |Full(data, writeSize)| * writeSize + |Rest(data, writeSize)|
    decreases |data|
  {
    var units := Full(data, writeSize);
    FlattenUniform(units, writeSize);
    if |data| >= writeSize {
      FullRest(data[writeSize..], writeSize);
      assert units[1..] == Full(data[writeSize..], writeSize);
      assert data == data[..writeSize] + data[writeSize..];
    }
  }

  /** Cutting in two steps, first data and then the rest of it followed by
      more bytes, cuts as data and the bytes together would. */
  lemma {:induction false} FullAppend(data: seq<byte>, more: seq<byte>, writeSize: nat)
    requires writeSize > 0
    ensures Full(data, writeSize) + Full(Rest(data, writeSize) + more, writeSize) == Full(data + more, writeSize)
    ensures Rest(Rest(data, writeSize) + more, writeSize) == Rest(data + more, writeSize)
    decreases |data|
  {
    if |data| >= writeSize {
      FullAppend(data[writeSize..], more, writeSize);
      assert (data + more)[..writeSize] == data[..writeSize];
      assert (data + more)[writeSize..] == data[writeSize..] + more;
    }
  }

  /** The writes carry the stream exactly: no byte lost, doubled or moved;
      every write but the last is a whole unit, the last is not empty and
      at most a unit; and there are as many as units needed for the
      stream, rounding up. */
  lemma SegmentsTile(data: seq<byte>, writeSize: nat)
    requires writeSize > 0
    ensures var s := Segments(data, writeSize);
            && Flatten(s) == data
            && |s| == CeilDiv(|data|, writeSize)
            && (forall i :: 0 <= i < |s| ==> 0 < |s[i]| <= writeSize)
            && (forall i :: 0 <= i < |s| - 1 ==> |s[i]| == writeSize)
  {
    var units, rest := Full(data, writeSize), Rest(data, writeSize);
    FullRest(data, writeSize);
    CeilDivSplit(|units|, |rest|, writeSize);
    if rest != [] {
      FlattenAppend(units, rest);
    } else {
      assert units + [] == units;
    }
  }

  /** The re-chunking buffer of transfer_file: the bytearray, the
      file.write calls it has made (each the bytes it carried) and the
      write_operations counter. */
  class WriteBuffer {
    const writeSize: nat
    var buffer: seq<byte>
    var written: seq<seq<byte>>
    var writeOperations: nat

    /** The counter counts the writes, and the unit is positive. */
    predicate Valid()
      reads this
    {
      writeSize > 0 && writeOperations == |written|
    }

    /** buffer = bytearray() with write_operations = 0. */
    constructor (writeSize: nat)
      requires writeSize > 0
      ensures Valid() && this.writeSize == writeSize
      ensures buffer == [] && written == [] && writeOperations == 0
    {
      this.writeSize := writeSize;
      buffer := [];
      written := [];
      writeOperations := 0;
    }

    /** One turn of the for loop: buffer.extend(chunk), then write and cut
        off whole units from the front while the buffer holds at least
        one. Afterwards the buffer is shorter than a unit, every new write
        is exactly a unit, and the new writes and the buffer hold the old
        buffer followed by chunk. */
    method Accept(chunk: seq<byte>)
      requires Valid()
      modifies this
      ensures Valid()
      ensures written == old(written) + Full(old(buffer) + chunk, writeSize)
      ensures buffer == Rest(old(buffer) + chunk, writeSize)
      ensures |buffer| < writeSize
      ensures forall i :: |old(written)| <= i < |written| ==> |written[i]| == writeSize
    {
      ghost var pending := old(buffer) + chunk;
      buffer := buffer + chunk;
      while |buffer| >= writeSize
        invariant Valid()
        invariant old(written) + Full(pending, writeSize) == written + Full(buffer, writeSize)
        invariant Rest(buffer, writeSize) == Rest(pending, writeSize)
        decreases |buffer|
      {
        written := written + [buffer[..writeSize]];
        buffer := buffer[writeSize..];
        writeOperations := writeOperations + 1;
      }
    }

    /** if buffer: file.write(buffer) — the remainder goes out as one last
        write when it is not empty; the buffer itself is left as it is. */
    method Flush()
      requires Valid()
      modifies this
      ensures Valid()
      ensures written == old(written) + if old(buffer) == [] then [] else [old(buffer)]
      ensures buffer == old(buffer)
    {
      if buffer != [] {
        written := written + [buffer];
        writeOperations := writeOperations + 1;
      }
    }
  }

  /** The streaming part of transfer_file: the write size is the smaller of
      the requested buffer size and the server's maximum; every chunk of
      the stream goes through the buffer and the remainder is flushed. The
      writes made are those the whole stream yields, whatever its chunk
      boundaries. */
  method TransferStream(chunks: seq<seq<byte>>, bufferSize: nat, maxWriteSize: nat)
    returns (segments: seq<seq<byte>>, writeOperations: nat)
    requires bufferSize > 0 && maxWriteSize > 0
    ensures segments == Segments(Flatten(chunks), ClampWriteSize(bufferSize, maxWriteSize))
    ensures writeOperations == |segments|
    ensures forall i :: 0 <= i < |segments| ==> |segments[i]| <= maxWriteSize
  {
    var writeSize: nat := ClampWriteSize(bufferSize, maxWriteSize);
    var w := new WriteBuffer(writeSize);
    var i := 0;
    while i < |chunks|
      invariant 0 <= i <= |chunks|
      invariant w.Valid() && w.writeSize == writeSize
      invariant w.written == Full(Flatten(chunks[..i]), writeSize)
      invariant w.buffer == Rest(Flatten(chunks[..i]), writeSize)
    {
      assert chunks[..i + 1] == chunks[..i] + [chunks[i]];
      FlattenAppend(chunks[..i], chunks[i]);
      FullAppend(Flatten(chunks[..i]), chunks[i], writeSize);
      w.Accept(chunks[i]);
      i := i + 1;
    }
    assert chunks[..i] == chunks;
    w.Flush();
    segments, writeOperations := w.written, w.writeOperations;
    SegmentsTile(Flatten(chunks), writeSize);
  }
}
