/** The range-aligned transfer engine (SMB2S3Transfer.download_and_write):
    the object is fetched one write unit at a time with ranged requests,
    and every chunk is written to the share at the offset it came from. */
module RangeTransfer {
  import opened Common
  import opened SmbSink

  /** The inclusive byte range of one request, the header "bytes=first-last". */
  datatype Range = Range(first: nat, last: nat)

  /** What reading the body of a ranged get_object gives: its bytes, or an
      exception from the object store. */
  datatype Fetch = Chunk(data: seq<byte>) | FetchFailed

  datatype Failure = SourceReadFailure | SinkWriteFailure

  /** The end of download_and_write: its counters, or the exception it
      lets propagate. */
  datatype Outcome = Done(bytesWritten: nat, writeOperations: nat) | Failed(cause: Failure)

  /** The range requested at offset: writeBufferSize bytes, cut short at
      the last byte of the object. */
  function NextRange(offset: nat, fileSize: nat, writeBufferSize: nat): (r: Range)
    requires offset < fileSize && writeBufferSize > 0
    ensures r.first == offset && r.first <= r.last < fileSize
    ensures r.last - r.first + 1 <= writeBufferSize
    ensures r.last - r.first + 1 == writeBufferSize || r.last == fileSize - 1
  {
    Range(offset, Min(offset + writeBufferSize - 1, fileSize - 1))
  }

  /** The object store never answers a range with more bytes than it spans. */
  ghost predicate NeverOverServes(read: Range -> Fetch)
  {
    forall r: Range :: r.first <= r.last && read(r).Chunk? ==> |read(r).data| <= r.last - r.first + 1
  }

  /** The bytes of obj that range r covers, cut at the end of obj. */
  function Requested(obj: seq<byte>, r: Range): seq<byte>
  {
    if r.last < r.first || |obj| <= r.first then [] else obj[r.first..Min(r.last + 1, |obj|)]
  }

  /** Every answer is a prefix, possibly empty, of what obj holds in the range. */
  ghost predicate Serves(read: Range -> Fetch, obj: seq<byte>)
  {
    forall r: Range :: r.first <= r.last && read(r).Chunk? ==> read(r).data <= Requested(obj, r)
  }

  /** Every answer is all that obj holds in the range. */
  ghost predicate ServesFully(read: Range -> Fetch, obj: seq<byte>)
  {
    forall r: Range :: r.first <= r.last ==> read(r) == Chunk(Requested(obj, r))
  }

  lemma ServesBound(read: Range -> Fetch, obj: seq<byte>)
    requires Serves(read, obj)
    ensures NeverOverServes(read)
  {
  }

  /** A non-empty answer to the range at offset continues obj from there. */
  lemma ServedChunk(read: Range -> Fetch, obj: seq<byte>, fileSize: nat, writeBufferSize: nat, offset: nat)
    requires Serves(read, obj) && offset < fileSize && writeBufferSize > 0 && offset <= |obj|
    requires read(NextRange(offset, fileSize, writeBufferSize)).Chunk?
    ensures var c := read(NextRange(offset, fileSize, writeBufferSize)).data;
            offset + |c| <= |obj| && c == obj[offset..offset + |c|]
  {
    var r := NextRange(offset, fileSize, writeBufferSize);
    assert read(r).data <= Requested(obj, r);
  }

  /** With complete answers from an object at least fileSize long, the
      range at offset comes back whole: a full unit, or the rest of the
      object, and the unit count keeps pace with CeilDiv. */
  lemma FullChunk(read: Range -> Fetch, obj: seq<byte>, fileSize: nat, writeBufferSize: nat, ops: nat, offset: nat)
    requires ServesFully(read, obj) && fileSize <= |obj| && writeBufferSize > 0
    requires offset == ops * writeBufferSize && offset < fileSize
    ensures var c := read(NextRange(offset, fileSize, writeBufferSize));
            var next := offset + |c.data|;
            c.Chunk? && c.data != [] && next <= fileSize &&
            (next == fileSize || next == (ops + 1) * writeBufferSize) &&
            ops + 1 == CeilDiv(next, writeBufferSize)
  {
    var r := NextRange(offset, fileSize, writeBufferSize);
    assert read(r) == Chunk(Requested(obj, r));
    var n := |Requested(obj, r)|;
    assert n == r.last - r.first + 1;
    if n == writeBufferSize {
      assert offset + n == (ops + 1) * writeBufferSize;
      CeilDivSplit(ops + 1, 0, writeBufferSize);
    } else {
      CeilDivSplit(ops, n, writeBufferSize);
    }
  }

  /** Write w is the answer to request r: r is the range at its own offset,
      inside the object, and w carries the non-empty answer to it at that
      same offset. */
  ghost predicate AnsweredAt(read: Range -> Fetch, fileSize: nat, writeBufferSize: nat, r: Range, w: WriteOp)
  {
    && writeBufferSize > 0
    && r.first < fileSize
    && r == NextRange(r.first, fileSize, writeBufferSize)
    && w.offset == r.first
    && read(r) == Chunk(w.data)
    && w.data != []
  }

  /** Each write answers the request of the same position. */
  ghost predicate Answered(read: Range -> Fetch, fileSize: nat, writeBufferSize: nat,
                           requests: seq<Range>, writes: seq<WriteOp>)
  {
    && |writes| <= |requests|
    && forall i :: 0 <= i < |writes| ==> AnsweredAt(read, fileSize, writeBufferSize, requests[i], writes[i])
  }

  lemma AnsweredAppend(read: Range -> Fetch, fileSize: nat, writeBufferSize: nat,
                       requests: seq<Range>, writes: seq<WriteOp>, r: Range, w: WriteOp)
    requires Answered(read, fileSize, writeBufferSize, requests, writes) && |writes| == |requests|
    requires AnsweredAt(read, fileSize, writeBufferSize, r, w)
    ensures Answered(read, fileSize, writeBufferSize, requests + [r], writes + [w])
  {
    var rs, ws := requests + [r], writes + [w];
    forall i | 0 <= i < |ws|
      ensures AnsweredAt(read, fileSize, writeBufferSize, rs[i], ws[i])
    {
      if i < |writes| {
        assert rs[i] == requests[i] && ws[i] == writes[i];
      }
    }
  }

  /** The state at the head of the transfer loop, on values: the bytes
      downloaded so far equal the bytes written, the writes tile them and
      answer the requests one for one, what they carry is the start of obj
      when the store serves obj, and with complete answers one write has
      been made per unit reached. */
  ghost predicate Progress(read: Range -> Fetch, obj: seq<byte>, fileSize: nat, writeBufferSize: nat,
                           downloaded: nat, requests: seq<Range>, writes: seq<WriteOp>)
  {
    && writeBufferSize > 0
    && downloaded <= fileSize
    && |requests| == |writes|
    && downloaded == Written(writes)
    && Tiled(writes)
    && Answered(read, fileSize, writeBufferSize, requests, writes)
    && (Serves(read, obj) ==> downloaded <= |obj| && Payload(writes) == obj[..downloaded])
    && (ServesFully(read, obj) && fileSize <= |obj| ==>
          |writes| == CeilDiv(downloaded, writeBufferSize) &&
          (downloaded == fileSize || downloaded == |writes| * writeBufferSize))
  }

  lemma ProgressStart(read: Range -> Fetch, obj: seq<byte>, fileSize: nat, writeBufferSize: nat)
    requires writeBufferSize > 0
    ensures Progress(read, obj, fileSize, writeBufferSize, 0, [], [])
  {
    CeilDivSplit(0, 0, writeBufferSize);
  }

  /** A non-empty answer served from obj extends the written prefix of obj. */
  lemma StepServed(read: Range -> Fetch, obj: seq<byte>, fileSize: nat, writeBufferSize: nat,
                   downloaded: nat, writes: seq<WriteOp>)
    requires downloaded < fileSize && writeBufferSize > 0
    requires read(NextRange(downloaded, fileSize, writeBufferSize)).Chunk?
    requires Serves(read, obj) ==> downloaded <= |obj| && Payload(writes) == obj[..downloaded]
    ensures var c := read(NextRange(downloaded, fileSize, writeBufferSize)).data;
            Serves(read, obj) ==>
              downloaded + |c| <= |obj| &&
              Payload(writes + [WriteOp(downloaded, c)]) == obj[..downloaded + |c|]
  {
    var c := read(NextRange(downloaded, fileSize, writeBufferSize)).data;
    AppendWrite(writes, WriteOp(downloaded, c));
    if Serves(read, obj) {
      ServedChunk(read, obj, fileSize, writeBufferSize, downloaded);
      assert obj[..downloaded + |c|] == obj[..downloaded] + obj[downloaded..downloaded + |c|];
    }
  }

  /** With complete answers, the count of writes keeps pace with the units. */
  lemma StepFull(read: Range -> Fetch, obj: seq<byte>, fileSize: nat, writeBufferSize: nat,
                 downloaded: nat, ops: nat)
    requires downloaded < fileSize && writeBufferSize > 0
    requires read(NextRange(downloaded, fileSize, writeBufferSize)).Chunk?
    requires ServesFully(read, obj) && fileSize <= |obj| ==>
               ops == CeilDiv(downloaded, writeBufferSize) &&
               (downloaded == fileSize || downloaded == ops * writeBufferSize)
    ensures var c := read(NextRange(downloaded, fileSize, writeBufferSize)).data;
            ServesFully(read, obj) && fileSize <= |obj| ==>
              ops + 1 == CeilDiv(downloaded + |c|, writeBufferSize) &&
              (downloaded + |c| == fileSize || downloaded + |c| == (ops + 1) * writeBufferSize)
  {
    if ServesFully(read, obj) && fileSize <= |obj| {
      FullChunk(read, obj, fileSize, writeBufferSize, ops, downloaded);
    }
  }

  /** One turn of the loop: a non-empty answer to the next range, written
      at the offset reached, keeps Progress. */
  lemma ProgressStep(read: Range -> Fetch, obj: seq<byte>, fileSize: nat, writeBufferSize: nat,
                     downloaded: nat, requests: seq<Range>, writes: seq<WriteOp>)
    requires Progress(read, obj, fileSize, writeBufferSize, downloaded, requests, writes)
    requires NeverOverServes(read) && downloaded < fileSize
    requires read(NextRange(downloaded, fileSize, writeBufferSize)).Chunk?
    requires read(NextRange(downloaded, fileSize, writeBufferSize)).data != []
    ensures var r := NextRange(downloaded, fileSize, writeBufferSize);
            var c := read(r).data;
            Progress(read, obj, fileSize, writeBufferSize, downloaded + |c|,
                     requests + [r], writes + [WriteOp(downloaded, c)])
  {
    var r := NextRange(downloaded, fileSize, writeBufferSize);
    var c := read(r).data;
    var w := WriteOp(downloaded, c);
    AppendWrite(writes, w);
    AnsweredAppend(read, fileSize, writeBufferSize, requests, writes, r, w);
    StepServed(read, obj, fileSize, writeBufferSize, downloaded, writes);
    StepFull(read, obj, fileSize, writeBufferSize, downloaded, |writes|);
  }

  /** How the loop of download_and_write ends: bytes_downloaded reached
      file_size, an empty chunk ended it (break), or an exception escaped
      from the ranged read or from smb_file.write. */
  datatype Stop = Complete | EmptyChunk | ReadFailed | WriteFailed

  /** The calls one transfer makes: the ranges it requests, the writes the
      share accepts, and how the loop ends. */
  datatype Run = Run(requests: seq<Range>, writes: seq<WriteOp>, stop: Stop)

  /** The transfer loop on values, from the state where downloaded bytes
      have been fetched, requests made and writes accepted. read stands for
      the object store; faults holds the ordinals of the write calls that
      raise. */
  function Transfer(read: Range -> Fetch, fileSize: nat, writeBufferSize: nat, faults: set<nat>,
                    downloaded: nat, requests: seq<Range>, writes: seq<WriteOp>): Run
    requires writeBufferSize > 0
    decreases fileSize - downloaded
  {
    if fileSize <= downloaded then Run(requests, writes, Complete)
    else
      var r := NextRange(downloaded, fileSize, writeBufferSize);
      match read(r)
      case FetchFailed => Run(requests + [r], writes, ReadFailed)
      case Chunk(c) =>
        if c == [] then Run(requests + [r], writes, EmptyChunk)
        else if |writes| in faults then Run(requests + [r], writes, WriteFailed)
        else Transfer(read, fileSize, writeBufferSize, faults, downloaded + |c|,
                      requests + [r], writes + [WriteOp(downloaded, c)])
  }

  /** The loop only appends: the run extends the requests and writes made
      so far, and every new request is answered by one new write, except the
      last request of a run that did not complete. */
  lemma {:induction false} TransferExtends(read: Range -> Fetch, fileSize: nat, writeBufferSize: nat, faults: set<nat>,
                                           downloaded: nat, requests: seq<Range>, writes: seq<WriteOp>)
    requires writeBufferSize > 0
    ensures var run := Transfer(read, fileSize, writeBufferSize, faults, downloaded, requests, writes);
            && requests <= run.requests && writes <= run.writes
            && |run.requests| - |requests| == |run.writes| - |writes| + (if run.stop == Complete then 0 else 1)
    decreases fileSize - downloaded
  {
    if downloaded < fileSize {
      var r := NextRange(downloaded, fileSize, writeBufferSize);
      var f := read(r);
      if f.Chunk? && f.data != [] && |writes| !in faults {
        var requests', writes' := requests + [r], writes + [WriteOp(downloaded, f.data)];
        TransferExtends(read, fileSize, writeBufferSize, faults, downloaded + |f.data|, requests', writes');
        var run := Transfer(read, fileSize, writeBufferSize, faults, downloaded + |f.data|, requests', writes');
        assert Transfer(read, fileSize, writeBufferSize, faults, downloaded, requests, writes) == run;
        assert requests <= requests' <= run.requests;
        assert writes <= writes' <= run.writes;
      }
    }
  }

  /** The whole transfer of a file of fileSize bytes, from the first range. */
  function TransferAll(read: Range -> Fetch, fileSize: nat, writeBufferSize: nat, faults: set<nat>): Run
    requires writeBufferSize > 0
  {
    Transfer(read, fileSize, writeBufferSize, faults, 0, [], [])
  }

  /** What download_and_write reports for a run: the counters, or the
      exception it re-raises after closing the file. */
  function OutcomeOf(run: Run): (r: Outcome)
    ensures r.Done? <==> run.stop == Complete || run.stop == EmptyChunk
    ensures r.Done? ==> r.bytesWritten == Written(run.writes) && r.writeOperations == |run.writes|
    ensures run.stop == ReadFailed <==> r == Failed(SourceReadFailure)
  {
    match run.stop
    case ReadFailed => Failed(SourceReadFailure)
    case WriteFailed => Failed(SinkWriteFailure)
    case _ => Done(Written(run.writes), |run.writes|)
  }

  /** What holds of a finished run: the writes answer all requests but at
      most the last, which starts where the writes end and was answered by
      the failure, the empty chunk or the chunk whose write raised. */
  ghost predicate Ended(read: Range -> Fetch, obj: seq<byte>, fileSize: nat, writeBufferSize: nat,
                        faults: set<nat>, run: Run)
  {
    && writeBufferSize > 0
    && |run.requests| == |run.writes| + (if run.stop == Complete then 0 else 1)
    && Answered(read, fileSize, writeBufferSize, run.requests, run.writes)
    && Tiled(run.writes)
    && Written(run.writes) <= fileSize
    && (forall k :: 0 <= k < |run.writes| ==> k !in faults)
    && (run.stop == Complete ==> Written(run.writes) == fileSize)
    && (run.stop != Complete ==>
          && Written(run.writes) < fileSize
          && run.requests[|run.writes|] == NextRange(Written(run.writes), fileSize, writeBufferSize)
          && (run.stop == ReadFailed ==> read(run.requests[|run.writes|]) == FetchFailed)
          && (run.stop == EmptyChunk ==> read(run.requests[|run.writes|]) == Chunk([]))
          && (run.stop == WriteFailed ==>
                && |run.writes| in faults
                && read(run.requests[|run.writes|]).Chunk?
                && read(run.requests[|run.writes|]).data != []))
    && (Serves(read, obj) ==>
          Written(run.writes) <= |obj| && Payload(run.writes) == obj[..Written(run.writes)])
    && (ServesFully(read, obj) && fileSize <= |obj| && faults == {} ==>
          run.stop == Complete && |run.writes| == CeilDiv(fileSize, writeBufferSize))
  }

  /** Requests beyond the answered ones do not disturb the answers. */
  lemma AnsweredExtend(read: Range -> Fetch, fileSize: nat, writeBufferSize: nat,
                       requests: seq<Range>, writes: seq<WriteOp>, r: Range)
    requires Answered(read, fileSize, writeBufferSize, requests, writes)
    ensures Answered(read, fileSize, writeBufferSize, requests + [r], writes)
  {
    forall i | 0 <= i < |writes|
      ensures AnsweredAt(read, fileSize, writeBufferSize, (requests + [r])[i], writes[i])
    {
      assert (requests + [r])[i] == requests[i];
    }
  }

  /** The loop condition fails: the run ends complete. */
  lemma EndedComplete(read: Range -> Fetch, obj: seq<byte>, fileSize: nat, writeBufferSize: nat,
                      faults: set<nat>, downloaded: nat, requests: seq<Range>, writes: seq<WriteOp>)
    requires Progress(read, obj, fileSize, writeBufferSize, downloaded, requests, writes)
    requires forall k :: 0 <= k < |writes| ==> k !in faults
    requires fileSize <= downloaded
    ensures Ended(read, obj, fileSize, writeBufferSize, faults, Run(requests, writes, Complete))
  {
  }

  /** The answer to the next range, or the write of it, ends the run. */
  lemma EndedShort(read: Range -> Fetch, obj: seq<byte>, fileSize: nat, writeBufferSize: nat,
                   faults: set<nat>, downloaded: nat, requests: seq<Range>, writes: seq<WriteOp>, stop: Stop)
    requires Progress(read, obj, fileSize, writeBufferSize, downloaded, requests, writes)
    requires forall k :: 0 <= k < |writes| ==> k !in faults
    requires downloaded < fileSize
    requires var f := read(NextRange(downloaded, fileSize, writeBufferSize));
             stop == (if f.FetchFailed? then ReadFailed else if f.data == [] then EmptyChunk else WriteFailed)
    requires stop == WriteFailed ==> |writes| in faults
    ensures Ended(read, obj, fileSize, writeBufferSize, faults,
                  Run(requests + [NextRange(downloaded, fileSize, writeBufferSize)], writes, stop))
  {
    var r := NextRange(downloaded, fileSize, writeBufferSize);
    AnsweredExtend(read, fileSize, writeBufferSize, requests, writes, r);
    assert (requests + [r])[|writes|] == r;
    if ServesFully(read, obj) && fileSize <= |obj| {
      FullChunk(read, obj, fileSize, writeBufferSize, |writes|, downloaded);
    }
  }

  /** From any state the loop can reach, the transfer ends as Ended says. */
  lemma {:induction false} TransferEnds(read: Range -> Fetch, obj: seq<byte>, fileSize: nat, writeBufferSize: nat,
                                        faults: set<nat>, downloaded: nat, requests: seq<Range>, writes: seq<WriteOp>)
    requires Progress(read, obj, fileSize, writeBufferSize, downloaded, requests, writes)
    requires NeverOverServes(read)
    requires forall k :: 0 <= k < |writes| ==> k !in faults
    ensures Ended(read, obj, fileSize, writeBufferSize, faults,
                  Transfer(read, fileSize, writeBufferSize, faults, downloaded, requests, writes))
    decreases fileSize - downloaded, 1
  {
    if fileSize <= downloaded {
      EndedComplete(read, obj, fileSize, writeBufferSize, faults, downloaded, requests, writes);
    } else {
      var f := read(NextRange(downloaded, fileSize, writeBufferSize));
      if f.Chunk? && f.data != [] && |writes| !in faults {
        TransferEndsAdvance(read, obj, fileSize, writeBufferSize, faults, downloaded, requests, writes);
      } else {
        TransferEndsStop(read, obj, fileSize, writeBufferSize, faults, downloaded, requests, writes);
      }
    }
  }

  /** A chunk arrives and is written: the loop goes round again. */
  lemma {:induction false} TransferEndsAdvance(read: Range -> Fetch, obj: seq<byte>, fileSize: nat, writeBufferSize: nat,
                                               faults: set<nat>, downloaded: nat, requests: seq<Range>, writes: seq<WriteOp>)
    requires Progress(read, obj, fileSize, writeBufferSize, downloaded, requests, writes)
    requires NeverOverServes(read)
    requires forall k :: 0 <= k < |writes| ==> k !in faults
    requires downloaded < fileSize && |writes| !in faults
    requires var f := read(NextRange(downloaded, fileSize, writeBufferSize)); f.Chunk? && f.data != []
    ensures Ended(read, obj, fileSize, writeBufferSize, faults,
                  Transfer(read, fileSize, writeBufferSize, faults, downloaded, requests, writes))
    decreases fileSize - downloaded, 0
  {
    var r := NextRange(downloaded, fileSize, writeBufferSize);
    var f := read(r);
    ProgressStep(read, obj, fileSize, writeBufferSize, downloaded, requests, writes);
    assert Transfer(read, fileSize, writeBufferSize, faults, downloaded, requests, writes) ==
           Transfer(read, fileSize, writeBufferSize, faults, downloaded + |f.data|,
                    requests + [r], writes + [WriteOp(downloaded, f.data)]);
    TransferEnds(read, obj, fileSize, writeBufferSize, faults, downloaded + |f.data|,
                 requests + [r], writes + [WriteOp(downloaded, f.data)]);
  }

  /** The read fails, the chunk is empty or its write raises: the loop ends. */
  lemma TransferEndsStop(read: Range -> Fetch, obj: seq<byte>, fileSize: nat, writeBufferSize: nat,
                         faults: set<nat>, downloaded: nat, requests: seq<Range>, writes: seq<WriteOp>)
    requires Progress(read, obj, fileSize, writeBufferSize, downloaded, requests, writes)
    requires forall k :: 0 <= k < |writes| ==> k !in faults
    requires downloaded < fileSize
    requires var f := read(NextRange(downloaded, fileSize, writeBufferSize));
             !(f.Chunk? && f.data != [] && |writes| !in faults)
    ensures Ended(read, obj, fileSize, writeBufferSize, faults,
                  Transfer(read, fileSize, writeBufferSize, faults, downloaded, requests, writes))
  {
    var r := NextRange(downloaded, fileSize, writeBufferSize);
    var f := read(r);
    var stop := if f.FetchFailed? then ReadFailed else if f.data == [] then EmptyChunk else WriteFailed;
    assert Transfer(read, fileSize, writeBufferSize, faults, downloaded, requests, writes) ==
           Run(requests + [r], writes, stop);
    EndedShort(read, obj, fileSize, writeBufferSize, faults, downloaded, requests, writes, stop);
  }

  /** Every transfer from the first range ends as Ended says; a file of
      size 0 is neither read nor written. */
  lemma TransferAllEnds(read: Range -> Fetch, obj: seq<byte>, fileSize: nat, writeBufferSize: nat, faults: set<nat>)
    requires writeBufferSize > 0 && NeverOverServes(read)
    ensures Ended(read, obj, fileSize, writeBufferSize, faults, TransferAll(read, fileSize, writeBufferSize, faults))
    ensures fileSize == 0 ==> TransferAll(read, fileSize, writeBufferSize, faults) == Run([], [], Complete)
  {
    ProgressStart(read, obj, fileSize, writeBufferSize);
    TransferEnds(read, obj, fileSize, writeBufferSize, faults, 0, [], []);
  }

  /** A store that answers with complete ranges serves its object. */
  lemma FullyServes(read: Range -> Fetch, obj: seq<byte>)
    requires ServesFully(read, obj)
    ensures Serves(read, obj) && NeverOverServes(read)
  {
    forall r: Range | r.first <= r.last
      ensures read(r).Chunk? && read(r).data <= Requested(obj, r)
    {
      assert read(r) == Chunk(Requested(obj, r));
    }
  }

  /** When the store serves obj, however the transfer ends, the file on the
      share holds exactly the first bytes of obj, as many as were written,
      and a completed transfer reports that count. */
  lemma ShareHoldsPrefix(read: Range -> Fetch, obj: seq<byte>, fileSize: nat, writeBufferSize: nat, faults: set<nat>)
    requires writeBufferSize > 0 && Serves(read, obj)
    ensures var run := TransferAll(read, fileSize, writeBufferSize, faults);
            Written(run.writes) <= |obj| && Image(run.writes) == obj[..Written(run.writes)] &&
            (OutcomeOf(run).Done? ==> OutcomeOf(run).bytesWritten == Written(run.writes) == |Image(run.writes)|)
  {
    var run := TransferAll(read, fileSize, writeBufferSize, faults);
    ServesBound(read, obj);
    TransferAllEnds(read, obj, fileSize, writeBufferSize, faults);
    TiledImage(run.writes);
  }

  /** With complete answers from an object at least fileSize long and a
      share whose writes all succeed, the whole file is copied with one
      request and one write per write unit. */
  lemma WholeFileInUnits(read: Range -> Fetch, obj: seq<byte>, fileSize: nat, writeBufferSize: nat)
    requires writeBufferSize > 0 && ServesFully(read, obj) && fileSize <= |obj|
    ensures var run := TransferAll(read, fileSize, writeBufferSize, {});
            |run.requests| == |run.writes| == CeilDiv(fileSize, writeBufferSize) &&
            OutcomeOf(run) == Done(fileSize, CeilDiv(fileSize, writeBufferSize)) &&
            Image(run.writes) == obj[..fileSize]
  {
    var run := TransferAll(read, fileSize, writeBufferSize, {});
    FullyServes(read, obj);
    TransferAllEnds(read, obj, fileSize, writeBufferSize, {});
    TiledImage(run.writes);
  }

  /** A file of 1,000,000 bytes copied in units of 64 KiB takes 16 writes,
      the last carrying the 16,960 bytes left over. */
  lemma MillionBytesInSixteenWrites(read: Range -> Fetch, obj: seq<byte>)
    requires ServesFully(read, obj) && 1000000 <= |obj|
    ensures OutcomeOf(TransferAll(read, 1000000, 65536, {})) == Done(1000000, 16)
  {
    WholeFileInUnits(read, obj, 1000000, 65536);
    CeilDivSplit(15, 16960, 65536);
  }

  /** download_and_write from the point the file is open: fetch the ranges
      one after another, write each non-empty chunk at the offset reached so
      far, stop at fileSize or at an empty answer, and close the file on
      every path; the calls made are those of TransferAll. */
  method DownloadAndWrite(read: Range -> Fetch, fileSize: nat, writeBufferSize: nat, smbFile: SmbFile)
    returns (outcome: Outcome, requests: seq<Range>)
    requires writeBufferSize > 0
    requires smbFile.writes == [] && smbFile.closeCalls == 0
    modifies smbFile
    ensures var run := TransferAll(read, fileSize, writeBufferSize, smbFile.faults);
            requests == run.requests && smbFile.writes == run.writes && outcome == OutcomeOf(run)
    // the handle is closed exactly once, on success and on failure
    ensures smbFile.closeCalls == 1
  {
    var bytesWritten: nat := 0;
    var writeOperations: nat := 0;
    var bytesDownloaded: nat := 0;
    var failure: Failure := SourceReadFailure;
    var failed := false;
    requests := [];
    ghost var run := TransferAll(read, fileSize, writeBufferSize, smbFile.faults);
    while bytesDownloaded < fileSize
      invariant Transfer(read, fileSize, writeBufferSize, smbFile.faults, bytesDownloaded, requests, smbFile.writes) == run
      invariant bytesWritten == bytesDownloaded == Written(smbFile.writes)
      invariant writeOperations == |smbFile.writes|
      invariant smbFile.closeCalls == 0
      decreases fileSize - bytesDownloaded
    {
      var range := NextRange(bytesDownloaded, fileSize, writeBufferSize);
      requests := requests + [range];
      var fetched := read(range);
      if fetched.FetchFailed? {
        failed, failure := true, SourceReadFailure;
        break;
      }
      var chunk := fetched.data;
      if |chunk| == 0 {
        break;
      }
      AppendWrite(smbFile.writes, WriteOp(bytesWritten, chunk));
      var ok := smbFile.Write(chunk, bytesWritten);
      if !ok {
        failed, failure := true, SinkWriteFailure;
        break;
      }
      bytesWritten := bytesWritten + |chunk|;
      bytesDownloaded := bytesDownloaded + |chunk|;
      writeOperations := writeOperations + 1;
    }
    // the finally clause: close, and swallow an exception from it
    var _ := smbFile.Close();
    outcome := if failed then Failed(failure) else Done(bytesWritten, writeOperations);
  }
}
