/** The destination file on the SMB2 share, as the range-aligned transfer
    loop uses it: a handle that takes writes at explicit offsets and is
    closed once. */
module SmbSink {
  import opened Common

  /** One call smb_file.write(data, offset). */
  datatype WriteOp = WriteOp(offset: nat, data: seq<byte>)

  function Zeros(n: nat): seq<byte>
  {
    seq(n, _ => 0)
  }

  /** A file's content after data is written at offset: the bytes there
      are replaced, the file grows when the write reaches past its end, and
      a gap between the old end and the offset reads as zeros. */
  function Overlay(content: seq<byte>, offset: nat, data: seq<byte>): (r: seq<byte>)
    ensures |r| == Max(|content|, offset + |data|)
    ensures r[offset..offset + |data|] == data
    ensures forall i :: 0 <= i < |r| && (i < offset || offset + |data| <= i) ==>
              r[i] == if i < |content| then content[i] else 0
  {
    var padded := if offset <= |content| then content else content + Zeros(offset - |content|);
    var tail := if offset + |data| < |padded| then padded[offset + |data|..] else [];
    var r := padded[..offset] + data + tail;
    assert r[offset..offset + |data|] == data;
    r
  }

  /** The content of a file opened empty (FILE_OVERWRITE_IF) once the
      writes have been applied in order. */
  function Image(writes: seq<WriteOp>): seq<byte>
  {
    if writes == [] then []
    else
      var w := writes[|writes| - 1];
      Overlay(Image(writes[..|writes| - 1]), w.offset, w.data)
  }

  /** The number of bytes the writes carry. */
  function Written(writes: seq<WriteOp>): nat
  {
    if writes == [] then 0 else Written(writes[..|writes| - 1]) + |writes[|writes| - 1].data|
  }

  /** The bytes the writes carry, in the order they were issued. */
  function Payload(writes: seq<WriteOp>): seq<byte>
  {
    if writes == [] then [] else Payload(writes[..|writes| - 1]) + writes[|writes| - 1].data
  }

  /** The writes tile a prefix of the file: the first starts at offset 0
      and each next one where the previous ended. */
  predicate Tiled(writes: seq<WriteOp>)
  {
    writes == [] || (Tiled(writes[..|writes| - 1]) && writes[|writes| - 1].offset == Written(writes[..|writes| - 1]))
  }

  lemma AppendWrite(writes: seq<WriteOp>, w: WriteOp)
    ensures Written(writes + [w]) == Written(writes) + |w.data|
    ensures Payload(writes + [w]) == Payload(writes) + w.data
    ensures Tiled(writes + [w]) <==> Tiled(writes) && w.offset == Written(writes)
  {
    assert (writes + [w])[..|writes|] == writes;
  }

  /** Tiled writes leave neither gaps nor overlaps: write i begins right
      after the bytes of the writes before it, and ends at or before the
      start of every later write. */
  lemma {:induction false} TiledLayout(writes: seq<WriteOp>)
    requires Tiled(writes)
    ensures forall i :: 0 <= i < |writes| ==> writes[i].offset == Written(writes[..i])
    ensures forall i :: 0 <= i < |writes| ==> writes[i].offset + |writes[i].data| <= Written(writes)
    ensures forall i, j :: 0 <= i < j < |writes| ==> writes[i].offset + |writes[i].data| <= writes[j].offset
  {
    if writes != [] {
      var p := writes[..|writes| - 1];
      var w := writes[|writes| - 1];
      assert writes == p + [w];
      TiledLayout(p);
      AppendWrite(p, w);
      forall i | 0 <= i < |writes|
        ensures writes[i].offset == Written(writes[..i])
      {
        if i < |p| {
          assert writes[i] == p[i] && writes[..i] == p[..i];
        } else {
          assert writes[..i] == p;
        }
      }
      forall i | 0 <= i < |writes|
        ensures writes[i].offset + |writes[i].data| <= Written(writes)
      {
        if i < |p| {
          assert writes[i] == p[i];
        }
      }
      forall i, j | 0 <= i < j < |writes|
        ensures writes[i].offset + |writes[i].data| <= writes[j].offset
      {
        assert writes[i] == p[i];
        if j < |p| {
          assert writes[j] == p[j];
        }
      }
    }
  }

  /** The file written by tiled writes holds exactly their bytes, in order. */
  lemma {:induction false} TiledImage(writes: seq<WriteOp>)
    requires Tiled(writes)
    ensures |Payload(writes)| == Written(writes)
    ensures Image(writes) == Payload(writes)
  {
    if writes != [] {
      var p := writes[..|writes| - 1];
      var w := writes[|writes| - 1];
      TiledImage(p);
      assert w.offset == |Image(p)|;
      assert Overlay(Image(p), w.offset, w.data) == Image(p) + w.data;
    }
  }

  /** The SMB2 file handle. When write calls raise and whether close
      raises are fixed when the handle is made: they stand for the
      transport errors of the share, which the model does not predict. */
  class SmbFile {
    /** The numbers of accepted writes at which a write call raises. */
    const faults: set<nat>
    const closeRaises: bool
    /** The writes the share has accepted, in order. */
    var writes: seq<WriteOp>
    var closeCalls: nat

    function Content(): seq<byte>
      reads this
    {
      Image(writes)
    }

    /** Open.create with FILE_OVERWRITE_IF: the file starts empty. */
    constructor Create(faults: set<nat>, closeRaises: bool)
      ensures this.faults == faults && this.closeRaises == closeRaises
      ensures writes == [] && closeCalls == 0 && Content() == []
    {
      this.faults := faults;
      this.closeRaises := closeRaises;
      writes := [];
      closeCalls := 0;
    }

    /** smb_file.write(data, offset); ok is false when the call raises,
        and then nothing is written. */
    method Write(data: seq<byte>, offset: nat) returns (ok: bool)
      modifies this
      ensures ok <==> |old(writes)| !in faults
      ensures writes == if ok then old(writes) + [WriteOp(offset, data)] else old(writes)
      ensures closeCalls == old(closeCalls)
    {
      ok := |writes| !in faults;
      if ok {
        writes := writes + [WriteOp(offset, data)];
      }
    }

    /** smb_file.close(); ok is false when the call raises. */
    method Close() returns (ok: bool)
      modifies this
      ensures ok <==> !closeRaises
      ensures closeCalls == old(closeCalls) + 1 && writes == old(writes)
    {
      closeCalls := closeCalls + 1;
      ok := !closeRaises;
    }
  }
}
