# s3-to-smb2 in Dafny

s3-to-smb2 copies an object from an S3 bucket to a file on an SMB2 share,
choosing the size of the SMB2 writes itself. It has two transfer engines:

- **v1**, `SMB2S3Transfer.download_and_write`: the range-aligned engine. It
  asks the object store for one write unit of bytes at a time with ranged
  `get_object` requests. It writes each chunk at the offset it came from,
  stops at the end of the object or at an empty answer, and closes the file
  on every path.
- **v2**, `transfer_file`: the streaming engine. It reads the object as a
  stream of chunks of any size. A buffer re-cuts the stream into writes of
  exactly the write size. The remainder goes out as one last, shorter
  write.

Around the engines sit a few pure helpers, all modelled here:

- the clamp of the requested write size to the server's maximum;
- the parser for size literals such as `"64KB"` or `" 1mb "`;
- the split of a `domain\username` account name;
- the split of a UNC destination path into server, share and file path.

The model is organised in these modules:

- `Common` (`common.dfy`): bytes, `Result`, `Min`, the clamp of the write
  size that both engines apply, rounding-up division, concatenation of
  segments, and the first index of a character.
- `SmbSink` (`smb_sink.dfy`): the SMB2 file handle. It is a class that
  records the writes the share accepts and counts the `close` calls. Which
  write calls raise, and whether `close` raises, are fixed when the handle
  is made. The module also says what content tiled writes leave in the
  file.
- `RangeTransfer` (`range_transfer.dfy`): the v1 loop as an imperative
  method, and the next-range computation.
  - The object store is a function `read` from an inclusive byte range to
    the bytes of the answer, or to a failure.
  - The method is tied to the value-level function `TransferAll`, which
    gives the requests made, the writes accepted and how the loop ended.
  - The properties of the transfer are proved about that function.
- `StreamTransfer` (`stream_transfer.dfy`): the v2 re-chunking buffer, as a
  class `WriteBuffer` with `Accept` and `Flush`, and the v2 loop over the
  chunks of the stream. Both are proved against the value-level cut
  `Segments` of the whole stream.
- `BufferSize` (`buffer_size.dfy`): `parse_buffer_size`, with `int()` on an
  optional sign and decimal digits. `str.strip()` and `int()` drop
  different white space: `int()` refuses the separators U+001C to U+001F,
  which `str.strip()` removes.
- `Credentials` (`credentials.dfy`): the account-name split of
  `get_credentials`.
- `UncPath` (`unc_path.dfy`): the UNC split of `transfer_file`, as written
  and corrected.

Two assumptions bound the v1 properties, because download_and_write never
checks either:

- **Positive write size.** The write size must be positive, although
  `parse_buffer_size("0KB")` returns 0. With 0, the first range ends one
  byte before it starts (`end_byte` is `offset - 1`), so the request is a
  malformed header such as `bytes=0--1`. A `Range` of natural numbers cannot
  hold it, and the bound on what a range spans needs a positive unit. The
  loop itself still ends: an empty answer stops it, and every other turn
  advances by a positive chunk length.
- **No oversized answers.** The store never answers a range with more bytes
  than the range spans (`NeverOverServes`).

Claims about the file's content hold when the store answers every range
with a prefix of what the object holds there (`Serves`). Claims about whole
files and unit counts hold when every answer is complete (`ServesFully`).

## Model

| member | source | states |
|---|---|---|
| Common.ClampWriteSize | python/s3_to_smb2.py:240-244 | the write size used is the requested size lowered to the negotiated maximum: it is at most both, equal to one of them, and positive when both are. The second version's `min(buffer_size, max_write_size)` (python/untested/s3_to_smb2_v2.py:45) is the same clamp |
| RangeTransfer.NextRange | python/s3_to_smb2.py:101-102 | the range requested at an offset starts there, spans at most one write unit, ends inside the object, and is a full unit unless it reaches the last byte |
| RangeTransfer.DownloadAndWrite | python/s3_to_smb2.py:98-139 | the loop makes exactly the requests and writes of `TransferAll`; it reports the bytes written and the write count, or the source or sink failure that escaped; it calls `close` exactly once on every path, and a failing `close` does not change the outcome |
| RangeTransfer.TransferAllEnds | python/s3_to_smb2.py:98-122 | every run ends as `Ended` says. In every run: each write answers the request in the same position, at the offset that request starts; the writes tile the file from 0 without gaps or overlaps; and no write follows a failure. A complete run has written fileSize bytes. An early stop (failure, empty chunk, or a raised write) happens on the range at the offset reached. A file of size 0 is neither read nor written |
| RangeTransfer.TransferEnds | python/s3_to_smb2.py:99-122 | from any state the loop can reach, the remaining run ends as `Ended` says (induction on the bytes left) |
| RangeTransfer.TransferEndsAdvance | python/s3_to_smb2.py:111-122 | a non-empty chunk whose write succeeds keeps the loop going, and the run from the next state ends as `Ended` says |
| RangeTransfer.TransferEndsStop | python/s3_to_smb2.py:105-118 | a failed read, an empty chunk or a raising write ends the run on the range at the offset reached, as `Ended` says |
| RangeTransfer.Transfer | python/s3_to_smb2.py:99-122 | the loop on values, from a reachable state; it has no contract of its own: `TransferExtends` and `TransferEnds` state what its runs are |
| RangeTransfer.TransferExtends | python/s3_to_smb2.py:99-122 | the loop only appends: the requests and writes made so far are prefixes of the run's, and each new request is answered by one new write, except the last request of a run that did not complete |
| RangeTransfer.TransferAll | python/s3_to_smb2.py:98-122 | the loop on values from offset 0; it has no contract of its own: `TransferAllEnds`, `ShareHoldsPrefix` and `WholeFileInUnits` state what its runs are |
| RangeTransfer.OutcomeOf | python/s3_to_smb2.py:131-160 | a run is reported as done exactly when it completed or met an empty chunk; a done report carries the bytes written and the write count; a failed read is reported as the source failure exactly when the run stopped on one |
| RangeTransfer.ProgressStep | python/s3_to_smb2.py:111-122 | one turn of the loop keeps the loop-head invariant: downloaded equals written, the writes tile that prefix and answer the requests one for one, their bytes are the start of the object, and with complete answers one write has been made per unit |
| RangeTransfer.ServedChunk | python/s3_to_smb2.py:101-111 | a non-empty answer to the range at an offset is the object's bytes from that offset |
| RangeTransfer.FullChunk | python/s3_to_smb2.py:101-111 | with complete answers, the range at a unit boundary comes back non-empty, as a whole unit or as the rest of the object, and the write count stays equal to the rounded-up unit count |
| RangeTransfer.ShareHoldsPrefix | python/s3_to_smb2.py:99-121 | when the store serves the object, however the transfer ends, the file on the share holds exactly the first bytes of the object, as many as were written; a completed transfer reports that count as bytes written |
| RangeTransfer.WholeFileInUnits | python/s3_to_smb2.py:99-122 | with complete answers and no failing write, the whole file is copied: one request and one write per unit, ceil(fileSize / unit) of each; the report is (fileSize, ceil(fileSize / unit)); the file holds the object's first fileSize bytes |
| RangeTransfer.MillionBytesInSixteenWrites | python/s3_to_smb2.py:99-122 | 1,000,000 bytes in units of 65,536 bytes are copied with 16 writes |
| RangeTransfer.FullyServes | python/s3_to_smb2.py:105-111 | complete answers are prefix answers and never exceed their range |
| SmbSink.SmbFile.Create | python/s3_to_smb2.py:77-84 | the handle is opened empty, the existing file overwritten: no writes, no close calls, no content |
| SmbSink.Image | python/s3_to_smb2.py:118 | the file content that writes at offsets leave, each laid over the earlier ones; it has no contract of its own: `Overlay` and `TiledImage` state it |
| SmbSink.SmbFile.Write | python/s3_to_smb2.py:118 | a write is logged with its offset and data unless the call raises, in which case nothing is written |
| SmbSink.SmbFile.Close | python/s3_to_smb2.py:134-139 | close is counted once per call, leaves the writes alone, and may raise |
| SmbSink.TiledLayout | python/s3_to_smb2.py:117-121 | tiled writes begin where the bytes of the earlier writes end, and each one ends at or before the start of every later one: no gaps, no overlaps |
| SmbSink.TiledImage | python/s3_to_smb2.py:117-121 | a file opened empty and written by tiled writes holds exactly their bytes, in order |
| SmbSink.AppendWrite | python/s3_to_smb2.py:118-121 | one more write adds its length to the bytes written, its data to the payload, and stays tiled exactly when it starts at the bytes written so far |
| SmbSink.Overlay | python/s3_to_smb2.py:118 | a write at an offset replaces those bytes, grows the file when it reaches past the end, leaves every other byte as it was, and leaves zeros in any gap |
| BufferSize.ParseLiteralWithUnit | python/s3_to_smb2.py:179-189 | "<n>KB", "<n>MB", "<n>GB" and a bare "<n>" give n·1024, n·1024², n·1024³ and n, for every integer n, negative ones included |
| BufferSize.SpaceBeforeUnit | python/s3_to_smb2.py:181-186 | white space between the number and its unit is dropped when it is white space `int()` skips: what `str.isspace()` holds of, less the separators U+001C to U+001F |
| BufferSize.SeparatorBeforeUnitRefused | python/s3_to_smb2.py:179-186 | white space ending in a separator U+001C to U+001F between the number and its unit survives `str.strip()`, and `int()` refuses the body with it |
| BufferSize.TrailingNonDigitRefused | python/s3_to_smb2.py:182 | `int()` refuses a text whose last character is neither a digit nor white space it skips |
| BufferSize.UnitText | python/s3_to_smb2.py:179-189 | a body with no lower-case letter and no white space in front, followed by a unit suffix (or by none, after a final digit), is read as `int()` of the body scaled by the unit |
| BufferSize.PlusLiteralWithUnit | python/s3_to_smb2.py:179-189 | "+<n>" with any unit suffix, or none, gives the same size as "<n>" |
| BufferSize.PlusIntLiteral | python/s3_to_smb2.py:182 | `int()` reads "+" followed by the digits of n as n |
| BufferSize.CaseInsensitive | python/s3_to_smb2.py:179 | the result does not depend on the case of the letters |
| BufferSize.SurroundingSpaceIgnored | python/s3_to_smb2.py:179 | white space around the literal does not change the result |
| BufferSize.NonIntegerBodyRefused | python/s3_to_smb2.py:181-189 | for a text that is a body followed by a unit suffix, or by none, the parse raises exactly when the body, once `int()` has skipped the white space around it, is not an integer literal (empty, a lone sign, or a character other than a digit and a leading sign, a separator U+001C to U+001F included), and the error quotes that body |
| BufferSize.ParseBufferSize | python/s3_to_smb2.py:177-189 | a refusal quotes the body `int()` was given: the upper-cased, stripped text without its unit suffix |
| BufferSize.ParseBufferSizeAccepts | python/s3_to_smb2.py:177-189 | the parse gives a size exactly when the body of the upper-cased, `str.strip()`ped text is an integer literal once `int()` has skipped the white space around it |
| BufferSize.ParseNormalized | python/s3_to_smb2.py:181-189 | the suffix dispatch; a refusal quotes the body `int()` was given; `DispatchUnit` states the scaling |
| BufferSize.Body | python/s3_to_smb2.py:181-186 | the text given to `int()` is a prefix of the text, exactly two characters shorter when it ends in KB, MB or GB and the whole text otherwise |
| BufferSize.ParseInt | python/s3_to_smb2.py:182 | `int()` succeeds exactly when the text, once the white space it skips is removed from both ends, is an integer literal, and otherwise raises an error quoting the text; the separators U+001C to U+001F are not skipped |
| BufferSize.IntegerLiteralDigits | python/s3_to_smb2.py:182 | a text is an integer literal exactly when, past an optional sign, it is a non-empty run of digits |
| BufferSize.Upper | python/s3_to_smb2.py:179 | upper-casing keeps the length, turns each lower-case letter into its capital (32 code points lower), keeps every other character, and leaves no lower-case letter |
| BufferSize.Strip | python/s3_to_smb2.py:179 | `str.strip()` (the white space `str.isspace()` holds of), or the white space `int()` skips around its digits; it has no contract of its own: `StripShape` states it |
| BufferSize.StripShape | python/s3_to_smb2.py:179 | for either set of white space, stripping keeps one slice of the text, everything outside it is white space of that set, and neither end of the slice is |
| BufferSize.StripLeftShape | python/s3_to_smb2.py:179 | the leading white space is removed and nothing else: the rest is a suffix that does not start with white space |
| BufferSize.StripRightShape | python/s3_to_smb2.py:179 | the trailing white space is removed and nothing else: the rest is a prefix that does not end with white space |
| BufferSize.ParseIntLiteral | python/s3_to_smb2.py:189 | `int()` reads back every decimal literal |
| BufferSize.ParseIntDigits | python/s3_to_smb2.py:189 | `int()` of a text that is a run of digits once the white space `int()` skips is removed, with no sign, a minus or a plus before it, is the number they denote, negated after a minus |
| BufferSize.DispatchUnit | python/s3_to_smb2.py:181-189 | a body followed by the KB, MB or GB suffix, or by no suffix, is read as the body scaled by 1024, 1024², 1024³ or 1 |
| BufferSize.ParseIntLiteralSpaced | python/s3_to_smb2.py:182 | `int()` reads a literal followed by white space it skips as the literal's value |
| BufferSize.StripIgnoresSpaces | python/s3_to_smb2.py:179 | for either set of white space, stripping w1 + s + w2, with w1 and w2 white space of that set, gives the strip of s |
| BufferSize.DecimalValue | python/s3_to_smb2.py:189 | the decimal spelling of k is a non-empty run of digits denoting k |
| BufferSize.KilobyteExample | python/s3_to_smb2.py:181-182 | "64KB" gives 65536 |
| BufferSize.ZeroExample | python/s3_to_smb2.py:181-182 | "0KB" is accepted and gives 0 |
| BufferSize.NegativeExample | python/s3_to_smb2.py:181-182 | "-2KB" is accepted and gives -2048 |
| BufferSize.FractionRefused | python/s3_to_smb2.py:183-184 | "1.5MB" raises |
| BufferSize.UnitAloneRefused | python/s3_to_smb2.py:181-182 | "KB" raises |
| BufferSize.SignAloneRefused | python/s3_to_smb2.py:181-182 | "-KB" raises: a sign with no digits is not an integer |
| BufferSize.PlusExample | python/s3_to_smb2.py:181-182 | "+5KB" gives 5120 |
| BufferSize.SeparatorExample | python/s3_to_smb2.py:179-182 | "64" U+001C "KB" raises, quoting "64" U+001C |
| BufferSize.BareByteSuffixRefused | python/s3_to_smb2.py:187-189 | "64B" raises: B alone is not a unit |
| Credentials.SplitAccount | python/s3_to_smb2.py:197-201 | with a backslash in the input, the domain is the text before the first one and the user name is everything after it; without one, the domain is empty and the user name is the whole input |
| Credentials.JoinSplit | python/s3_to_smb2.py:197-198 | splitting "domain\username" gives both back, for any domain without a backslash and any user name |
| StreamTransfer.TransferStream | python/untested/s3_to_smb2_v2.py:45-69 | the write size is the clamp of the buffer size to the server maximum; the writes made are the cut `Segments` of the whole stream, whatever its chunk boundaries; the write count counts them; no write exceeds the server maximum |
| StreamTransfer.WriteBuffer.constructor | python/untested/s3_to_smb2_v2.py:58 | the buffer starts empty, with no writes made and the counter at 0 |
| StreamTransfer.Segments | python/untested/s3_to_smb2_v2.py:58-69 | the writes the whole stream yields: its whole units, then the remainder when it is not empty; it has no contract of its own: `SegmentsTile` states it |
| StreamTransfer.WriteBuffer.Accept | python/untested/s3_to_smb2_v2.py:60-65 | after a chunk is absorbed, the new writes are the whole units of the old buffer followed by the chunk, each exactly one write size; the buffer keeps the rest, which is shorter than a write size; the counter counts the writes |
| StreamTransfer.WriteBuffer.Flush | python/untested/s3_to_smb2_v2.py:67-69 | a non-empty remainder goes out as exactly one last write; an empty one causes none |
| StreamTransfer.SegmentsTile | python/untested/s3_to_smb2_v2.py:58-69 | the writes in order concatenate to the stream: nothing lost, doubled or reordered. Every write but the last is exactly one write size; the last is non-empty and at most one. There are ceil(total / write size) writes, so zero bytes give zero writes |
| StreamTransfer.FullRest | python/untested/s3_to_smb2_v2.py:62-65 | the whole units and the remainder hold all of the data in order, and the length splits as units times size plus remainder |
| StreamTransfer.FullAppend | python/untested/s3_to_smb2_v2.py:60-65 | cutting chunk by chunk, carrying the remainder in the buffer, cuts as the whole stream at once would |
| StreamTransfer.Full | python/untested/s3_to_smb2_v2.py:62-65 | every whole-unit write is exactly one write size |
| StreamTransfer.Rest | python/untested/s3_to_smb2_v2.py:62 | what stays in the buffer is shorter than a write size |
| UncPath.ParseUncPath | python/untested/s3_to_smb2_v2.py:35-36 | the split raises the unpacking error exactly when the normalised path has fewer than two separators, the index error exactly when it has two; otherwise the server and share it yields hold no separator |
| UncPath.SingleSeparatorPath | python/untested/s3_to_smb2_v2.py:35-36 | a path with a single separator before the server is read as server, share and "/" + the rest, with the rest's separators normalised |
| UncPath.UncFields | python/untested/s3_to_smb2_v2.py:35-36 | whatever mix of backslashes and slashes it is written with, a path that normalises to lead/server/share/rest, with no separator in the first three, is read as server, share and "/" + rest |
| UncPath.UncPathMisread | python/untested/s3_to_smb2_v2.py:35-36 | a UNC path with two leading backslashes yields an empty server, the server name as the share, and the share as the first directory of the file path |
| UncPath.SplitJoinBack | python/untested/s3_to_smb2_v2.py:35-36 | joining the fields of a split with slashes gives the text back |
| UncPath.SplitCount | python/untested/s3_to_smb2_v2.py:35-36 | a split yields one field more than the separators it cuts at, at most the cut limit plus one |
| UncPath.Split | python/untested/s3_to_smb2_v2.py:35 | a split yields at least one field and at most the cut limit plus one; it cuts at the first separators: no field but the last holds one, and the last holds none when the limit was not reached |
| UncPath.JoinStep | python/untested/s3_to_smb2_v2.py:35 | a field cut at a separator, joined back before the rest, restores the text |
| UncPath.Normalize | python/untested/s3_to_smb2_v2.py:35 | replacing backslashes keeps the length, every other character, and leaves no backslash |
| UncPath.ParseUncPathCorrected | python/untested/s3_to_smb2_v2.py:35-36 | the corrected split raises only the unpacking error; the server it yields is non-empty, and neither it nor the share holds a separator |
| UncPath.CorrectedRefusesFewSeparators | python/untested/s3_to_smb2_v2.py:35-36 | the corrected split raises exactly when, past the leading separators, fewer than two remain |
| UncPath.NormalizedTarget | python/untested/s3_to_smb2_v2.py:35 | normalising a UNC path and dropping its leading separators leaves server/share/path |
| UncPath.CorrectedFields | python/untested/s3_to_smb2_v2.py:35-36 | a path that strips to server/share/rest, server and share without separators, is read as those three |
| UncPath.CorrectedRoundTrip | python/untested/s3_to_smb2_v2.py:35-36 | the corrected split reads server, share and "/" + path from a UNC path with any run of leading separators |
| UncPath.StripSlashes | python/untested/s3_to_smb2_v2.py:35-36 | removing the leading slashes leaves a suffix not starting with a slash, and only slashes were removed |

## Left out

- I/O is not modelled: argparse, the prompts, getpass, print and logging.
  The credential split starts from the stripped input text.
- boto3 and smbprotocol are foreign libraries, so they become abstract
  collaborators: a read function for `get_object` and a handle class for
  `Open`. `Connection`, `Session`, `TreeConnect`, `negotiate` and
  `head_object` are not modelled. The connection teardown order
  (`cleanup`, and the disconnects in the second version) is not modelled
  either.
- Timing and floating-point metrics are left out: throughput, average write
  size, percentage progress and `time.time()`.
- RangeTransfer.OutcomeOf reports success after the file is closed. The
  metrics at `python/s3_to_smb2.py:144` and `:153` divide by the elapsed
  time, so an elapsed time of zero would raise `ZeroDivisionError` there.
  The clock is not modelled, so the model cannot show that case.
- SmbSink.SmbFile.Write: a write that raises is modelled as writing
  nothing. A write that the share applied but whose reply then failed is
  not modelled. The file would still hold a prefix of the object, but a
  longer one than the model says.
- The text of the `Range` header is not modelled. A range is the pair of
  its first and last byte.
- BufferSize.ParseInt: the limit on the number of digits `int()` reads
  (`sys.get_int_max_str_digits()`, 4300 by default since CPython 3.11) is
  not modelled, and neither is its error, which does not quote the text.
  So the rows that say a text is accepted, or refused with its body
  quoted, exactly when it is an integer literal (ParseInt,
  ParseLiteralWithUnit, ParseIntLiteral, ParseBufferSizeAccepts,
  NonIntegerBodyRefused) hold only for literals within that limit.
- Python's `int()` is modelled only for an optional sign and ASCII decimal
  digits with surrounding white space. It skips the white space
  `str.isspace()` holds of, except U+001C to U+001F. Underscores, other Unicode digits
  and other bases are not modelled. `upper()` is modelled on ASCII letters
  only.
- StreamTransfer.TransferStream: the writes of the second version pass no
  offset, so the model records the ordered segments and not file
  positions. What smbprotocol does with the missing offset is not part of
  this model.
- StreamTransfer.TransferStream: failures of the stream or of the writes,
  and the try/finally close of the second version, are not modelled. Only
  a transfer that runs to its end is.
- StreamTransfer.TransferStream requires a positive buffer size and server
  maximum. The command line only accepts 65536, 262144 or 1048576. With a
  write size of 0 the inner loop of the source would never end.
- RangeTransfer.DownloadAndWrite requires a positive write size and starts
  from an open, empty handle. With a 0 from `parse_buffer_size`, line 101
  makes `end_byte` one less than the offset, so the request is a malformed
  range such as `bytes=0--1`. A `Range` of natural numbers cannot express it,
  and what the store answers to it is not part of this model.
- RangeTransfer.TransferAllEnds: the content and unit-count claims assume
  the store never answers with more bytes than requested (NeverOverServes).
  The source does not check this.
- Behaviour of the code that a reader might not expect, which the model
  follows:
  - The clamp does not reject non-positive sizes. `parse_buffer_size`
    accepts `"0KB"` and `"-2KB"`.
  - The first version has no separate offset counter. It writes at
    `bytes_written`, which always equals the offset of the range read.
  - The second version issues its writes without offsets.

## Findings

| source | as written | input that shows it | evidently intended | confidence | as-written member | corrected member |
|---|---|---|---|---|---|---|
| python/untested/s3_to_smb2_v2.py:35-36 | the path is normalised and split at its first three slashes, and fields 1 and 2 are taken as server and share; a UNC path's two leading backslashes make field 0 and field 1 empty | `\\fs01\data\f.dat` gives server "", share "fs01" and file path "/data/f.dat" | skip the leading separators, then take server, share and the rest: server "fs01", share "data", file path "/f.dat" | medium, not executed | UncPath.UncPathMisread | UncPath.CorrectedRoundTrip |
