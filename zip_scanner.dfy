/** The local-file-header scanner of `parseZipFile`
    (build/worker/zip-utils.mjs): a cursor walks the archive bytes; where the
    32-bit little-endian word under it equals the local-header signature it
    decodes the 30-byte header (section 4.3.7 of PKWARE's APPNOTE.TXT:
    compressed size at +18, name length at +26, extra-field length at +28),
    records the member and jumps past its data; where it equals the
    central-directory signature it stops; anywhere else it moves on one byte.

    The scanner is written for any pair of signature words. `ParseZipFile`
    instantiates it with the words exactly as the source writes them;
    `ParseZipArchive` with the words of the APPNOTE (see the findings in
    README.md). */
module ZipScanner {
  import opened Wrappers
  import opened Bytes

  /** The constants as written in the source, compared against a little-endian read. */
  const LocalFileHeaderSignature: nat := 0x504B0304
  const CentralDirectorySignature: nat := 0x504B0102

  /** The same records as the APPNOTE defines them ("PK\x03\x04", "PK\x01\x02" read little-endian). */
  const ApnoteLocalFileHeaderSignature: nat := 0x04034B50
  const ApnoteCentralDirectorySignature: nat := 0x02014B50

  /** Size of the fixed part of a local file header. */
  const LocalHeaderSize: nat := 30

  datatype Signatures = Signatures(local: nat, central: nat)

  const SourceSignatures := Signatures(LocalFileHeaderSignature, CentralDirectorySignature)
  const ApnoteSignatures := Signatures(ApnoteLocalFileHeaderSignature, ApnoteCentralDirectorySignature)

  /** One record pushed onto `files`; `name` is kept as the raw bytes of the member name. */
  datatype ZipEntry = ZipEntry(name: seq<byte>, compressedSize: nat, dataOffset: nat, dataLength: nat)

  /** The `RangeError` a `DataView` read or the `Uint8Array` name view throws
      when a header or a name runs past the end of the buffer. */
  datatype ScanError = RangeError

  /** Name length of the header at `h`. */
  function NameLength(buf: seq<byte>, h: nat): nat
    requires h + LocalHeaderSize <= |buf|
  {
    U16LE(buf, h + 26)
  }

  /** The header at `h` cannot be read: its fixed part or its name runs past the end. */
  predicate Truncated(buf: seq<byte>, h: nat) {
    h + LocalHeaderSize > |buf| || h + LocalHeaderSize + NameLength(buf, h) > |buf|
  }

  /** The member described by the complete header at `h`. */
  function HeaderEntry(buf: seq<byte>, h: nat): (e: ZipEntry)
    requires !Truncated(buf, h)
    ensures e.dataOffset >= h + LocalHeaderSize
  {
    var nameLength := NameLength(buf, h);
    var extraLength := U16LE(buf, h + 28);
    var compressedSize := U32LE(buf, h + 18);
    ZipEntry(buf[h + 30..h + 30 + nameLength], compressedSize,
             h + 30 + nameLength + extraLength, compressedSize)
  }

  /** Where the scan goes after the member at `h`: the end of its declared data. */
  function DataEnd(e: ZipEntry): nat {
    e.dataOffset + e.dataLength
  }

  /** What one pass of the loop body does with the cursor at `p`. */
  datatype Step = Skip | Stop | Fail | Emit(entry: ZipEntry)

  function StepAt(buf: seq<byte>, sigs: Signatures, p: nat): (s: Step)
    requires p + 4 < |buf|
    ensures s.Emit? ==> DataEnd(s.entry) >= p + LocalHeaderSize
  {
    var signature := U32LE(buf, p);
    if signature == sigs.local then
      if Truncated(buf, p) then Fail else Emit(HeaderEntry(buf, p))
    else if signature == sigs.central then Stop
    else Skip
  }

  /** The loop body at every cursor position; positions the loop guard
      `offset + 4 < buf.length` excludes are never asked for. */
  function Steps(buf: seq<byte>, sigs: Signatures): nat -> Step {
    (q: nat) => if q + 4 < |buf| then StepAt(buf, sigs, q) else Stop
  }

  /** Every pushed record moves the cursor forward, which makes the loop terminate. */
  ghost predicate Advances(steps: nat -> Step) {
    forall q: nat :: steps(q).Emit? ==> DataEnd(steps(q).entry) > q
  }

  lemma {:induction false} StepsAdvance(buf: seq<byte>, sigs: Signatures)
    ensures Advances(Steps(buf, sigs))
  {
  }

  /** `files` in front of the outcome of the rest of the scan. */
  function Prepend(files: seq<ZipEntry>, rest: Result<seq<ZipEntry>, ScanError>): Result<seq<ZipEntry>, ScanError> {
    match rest
    case Success(more) => Success(files + more)
    case Failure(e) => Failure(e)
  }

  /** The loop from cursor `p` on, over a buffer of `size` bytes whose loop body
      is `steps`: the records pushed from here, or the error thrown. */
  function Walk(steps: nat -> Step, size: nat, p: nat): Result<seq<ZipEntry>, ScanError>
    requires Advances(steps)
    decreases size - p
  {
    if p + 4 >= size then Success([])
    else match steps(p)
      case Skip => Walk(steps, size, p + 1)
      case Stop => Success([])
      case Fail => Failure(RangeError)
      case Emit(e) => Prepend([e], Walk(steps, size, DataEnd(e)))
  }

  /** The outcome of the scan of `buf` from cursor `p` on. */
  function ScanFrom(buf: seq<byte>, sigs: Signatures, p: nat): Result<seq<ZipEntry>, ScanError> {
    StepsAdvance(buf, sigs);
    Walk(Steps(buf, sigs), |buf|, p)
  }

  lemma {:induction false} PrependNil(rest: Result<seq<ZipEntry>, ScanError>)
    ensures Prepend([], rest) == rest
  {
    if rest.Success? {
      assert [] + rest.value == rest.value;
    }
  }

  lemma {:induction false} PrependPrepend(files: seq<ZipEntry>, e: ZipEntry, rest: Result<seq<ZipEntry>, ScanError>)
    ensures Prepend(files, Prepend([e], rest)) == Prepend(files + [e], rest)
  {
    if rest.Success? {
      assert files + ([e] + rest.value) == files + [e] + rest.value;
    }
  }

  /** The loop of `parseZipFile`, for a given pair of signature words. */
  method ScanLocalHeaders(buf: seq<byte>, sigs: Signatures) returns (r: Result<seq<ZipEntry>, ScanError>)
    ensures r == ScanFrom(buf, sigs, 0)
  {
    var files: seq<ZipEntry> := [];
    var offset: nat := 0;
    PrependNil(ScanFrom(buf, sigs, 0));
    while offset + 4 < |buf|
      invariant ScanFrom(buf, sigs, 0) == Prepend(files, ScanFrom(buf, sigs, offset))
      decreases |buf| - offset
    {
      var signature := U32LE(buf, offset);
      if signature == sigs.local {
        if offset + 30 > |buf| {
          return Failure(RangeError);
        }
        var fileNameLength := U16LE(buf, offset + 26);
        var extraFieldLength := U16LE(buf, offset + 28);
        var compressedSize := U32LE(buf, offset + 18);
        var fileNameStart := offset + 30;
        if fileNameStart + fileNameLength > |buf| {
          return Failure(RangeError);
        }
        var fileName := buf[fileNameStart..fileNameStart + fileNameLength];
        var fileDataStart := fileNameStart + fileNameLength + extraFieldLength;
        var entry := ZipEntry(fileName, compressedSize, fileDataStart, compressedSize);
        assert StepAt(buf, sigs, offset) == Emit(entry);
        PrependPrepend(files, entry, ScanFrom(buf, sigs, fileDataStart + compressedSize));
        files := files + [entry];
        offset := fileDataStart + compressedSize;
      } else if signature == sigs.central {
        break;
      } else {
        offset := offset + 1;
      }
    }
    assert ScanFrom(buf, sigs, offset) == Success([]);
    assert files + [] == files;
    return Success(files);
  }

  /** `parseZipFile` as written: the source's signature words. */
  method ParseZipFile(buf: seq<byte>) returns (r: Result<seq<ZipEntry>, ScanError>)
    ensures r == ScanFrom(buf, SourceSignatures, 0)
    ensures |buf| <= 4 ==> r == Success([])
  {
    r := ScanLocalHeaders(buf, SourceSignatures);
  }

  /** `parseZipFile` with the signature words of the APPNOTE. */
  method ParseZipArchive(buf: seq<byte>) returns (r: Result<seq<ZipEntry>, ScanError>)
    ensures r == ScanFrom(buf, ApnoteSignatures, 0)
    ensures |buf| <= 4 ==> r == Success([])
  {
    r := ScanLocalHeaders(buf, ApnoteSignatures);
  }

  // ---------------------------------------------------------------------------
  // The path of the cursor, for any loop body

  /** The cursor positions at which the loop body runs, from `p` on, in order. */
  ghost function Cursor(steps: nat -> Step, size: nat, p: nat): (c: seq<nat>)
    requires Advances(steps)
    ensures forall i :: 0 <= i < |c| ==> p <= c[i] && c[i] + 4 < size
    decreases size - p
  {
    if p + 4 >= size then []
    else [p] + match steps(p)
      case Skip => Cursor(steps, size, p + 1)
      case Emit(e) => Cursor(steps, size, DataEnd(e))
      case _ => []
  }

  /** The cursor positions at which a record was pushed, from `p` on, in order. */
  ghost function Headers(steps: nat -> Step, size: nat, p: nat): (hs: seq<nat>)
    requires Advances(steps)
    ensures forall i :: 0 <= i < |hs| ==> p <= hs[i] && hs[i] + 4 < size && steps(hs[i]).Emit?
    decreases size - p
  {
    if p + 4 >= size then []
    else match steps(p)
      case Skip => Headers(steps, size, p + 1)
      case Emit(e) => [p] + Headers(steps, size, DataEnd(e))
      case _ => []
  }

  lemma {:induction false} LastOfCons(p: nat, rest: seq<nat>)
    ensures rest != [] ==> ([p] + rest)[|[p] + rest| - 1] == rest[|rest| - 1]
  {
  }

  /** The cursor strictly increases, so the loop body runs at most `size - 4` times. */
  lemma {:induction false} WalkCursorBound(steps: nat -> Step, size: nat, p: nat)
    requires Advances(steps)
    ensures forall i, j :: 0 <= i < j < |Cursor(steps, size, p)| ==> Cursor(steps, size, p)[i] < Cursor(steps, size, p)[j]
    ensures |Cursor(steps, size, p)| <= if p + 4 < size then size - 4 - p else 0
    decreases size - p
  {
    if p + 4 < size && (steps(p).Skip? || steps(p).Emit?) {
      var next := if steps(p).Skip? then p + 1 else DataEnd(steps(p).entry);
      var c := Cursor(steps, size, p);
      WalkCursorBound(steps, size, next);
      assert c == [p] + Cursor(steps, size, next);
    }
  }

  /** The walk fails exactly when the last step it takes fails. */
  lemma {:induction false} WalkFailsAtLast(steps: nat -> Step, size: nat, p: nat)
    requires Advances(steps)
    ensures var c := Cursor(steps, size, p);
            Walk(steps, size, p).Failure? <==> |c| > 0 && steps(c[|c| - 1]).Fail?
    decreases size - p
  {
    if p + 4 < size && (steps(p).Skip? || steps(p).Emit?) {
      var next := if steps(p).Skip? then p + 1 else DataEnd(steps(p).entry);
      WalkFailsAtLast(steps, size, next);
      LastOfCons(p, Cursor(steps, size, next));
    }
  }

  /** A successful walk returns the entry of each record step, in order. */
  lemma {:induction false} WalkRecords(steps: nat -> Step, size: nat, p: nat)
    requires Advances(steps)
    requires Walk(steps, size, p).Success?
    ensures var es, hs := Walk(steps, size, p).value, Headers(steps, size, p);
            |es| == |hs| && forall i :: 0 <= i < |hs| ==> es[i] == steps(hs[i]).entry
    decreases size - p
  {
    if p + 4 < size {
      match steps(p)
      case Skip => WalkRecords(steps, size, p + 1);
      case Emit(e) => WalkRecords(steps, size, DataEnd(e));
      case _ =>
    }
  }

  /** Each record step lies at or past the end of every earlier record's data. */
  ghost predicate PastEarlierData(steps: nat -> Step, hs: seq<nat>)
    requires forall k :: 0 <= k < |hs| ==> steps(hs[k]).Emit?
  {
    forall i, j :: 0 <= i < j < |hs| ==> hs[j] >= DataEnd(steps(hs[i]).entry)
  }

  lemma {:induction false} WalkHeadersPastData(steps: nat -> Step, size: nat, p: nat)
    requires Advances(steps)
    ensures PastEarlierData(steps, Headers(steps, size, p))
    decreases size - p
  {
    if p + 4 < size {
      match steps(p)
      case Skip =>
        WalkHeadersPastData(steps, size, p + 1);
      case Emit(e) =>
        var rest := Headers(steps, size, DataEnd(e));
        WalkHeadersPastData(steps, size, DataEnd(e));
        var hs := [p] + rest;
        forall i, j | 0 <= i < j < |hs| ensures hs[j] >= DataEnd(steps(hs[i]).entry) {
          assert hs[j] == rest[j - 1];
          if i > 0 {
            assert hs[i] == rest[i - 1];
          }
        }
      case _ =>
    }
  }

  /** A stop ends the walk: it is the last cursor position, the walk succeeds,
      and every record step comes before it. */
  lemma {:induction false} WalkStops(steps: nat -> Step, size: nat, p: nat, i: nat)
    requires Advances(steps)
    requires i < |Cursor(steps, size, p)| && steps(Cursor(steps, size, p)[i]).Stop?
    ensures i == |Cursor(steps, size, p)| - 1
    ensures Walk(steps, size, p).Success?
    ensures forall k :: 0 <= k < |Headers(steps, size, p)| ==> Headers(steps, size, p)[k] < Cursor(steps, size, p)[i]
    decreases size - p
  {
    if i > 0 && (steps(p).Skip? || steps(p).Emit?) {
      var next := if steps(p).Skip? then p + 1 else DataEnd(steps(p).entry);
      WalkStops(steps, size, next, i - 1);
      assert Cursor(steps, size, p)[i] == Cursor(steps, size, next)[i - 1] >= next;
    }
  }

  // ---------------------------------------------------------------------------
  // The path of the cursor over an archive

  /** The cursor positions at which the loop body runs on `buf`, from `p` on. */
  ghost function ScanCursor(buf: seq<byte>, sigs: Signatures, p: nat): seq<nat> {
    StepsAdvance(buf, sigs);
    Cursor(Steps(buf, sigs), |buf|, p)
  }

  /** The header offsets from which records were pushed, from `p` on. */
  ghost function ScanHeaders(buf: seq<byte>, sigs: Signatures, p: nat): seq<nat> {
    StepsAdvance(buf, sigs);
    Headers(Steps(buf, sigs), |buf|, p)
  }

  /** Termination: the cursor strictly increases and never leaves the buffer,
      so the loop body runs at most `|buf| - 4` times. */
  lemma {:induction false} CursorBound(buf: seq<byte>, sigs: Signatures, p: nat)
    ensures var c := ScanCursor(buf, sigs, p);
            && (forall i, j :: 0 <= i < j < |c| ==> c[i] < c[j])
            && (forall i :: 0 <= i < |c| ==> p <= c[i] && c[i] + 4 < |buf|)
            && |c| <= if p + 4 < |buf| then |buf| - 4 - p else 0
  {
    StepsAdvance(buf, sigs);
    WalkCursorBound(Steps(buf, sigs), |buf|, p);
  }

  /** The scan fails exactly when the loop body last ran on a local header whose
      fixed part or name runs past the end of the buffer. */
  lemma {:induction false} ScanFailsIffTruncated(buf: seq<byte>, sigs: Signatures, p: nat)
    ensures var c := ScanCursor(buf, sigs, p);
            ScanFrom(buf, sigs, p).Failure? <==>
              (|c| > 0 && U32LE(buf, c[|c| - 1]) == sigs.local && Truncated(buf, c[|c| - 1]))
  {
    StepsAdvance(buf, sigs);
    WalkFailsAtLast(Steps(buf, sigs), |buf|, p);
  }

  /** The record `e` is what the complete local header at `h` declares. */
  predicate Describes(buf: seq<byte>, h: nat, e: ZipEntry)
    requires !Truncated(buf, h)
  {
    && e.name == buf[h + 30..h + 30 + U16LE(buf, h + 26)]
    && e.dataOffset == h + 30 + U16LE(buf, h + 26) + U16LE(buf, h + 28)
    && e.dataLength == e.compressedSize == U32LE(buf, h + 18)
  }

  /** The record step at `h`: a complete local header there. */
  lemma {:induction false} EmitAt(buf: seq<byte>, sigs: Signatures, h: nat)
    requires Steps(buf, sigs)(h).Emit?
    ensures h + 4 < |buf| && U32LE(buf, h) == sigs.local && !Truncated(buf, h)
    ensures Steps(buf, sigs)(h).entry == HeaderEntry(buf, h)
    ensures Describes(buf, h, Steps(buf, sigs)(h).entry)
  {
  }

  /** A successful scan returns one record per local header it passed, each
      what that header declares, and every later header lies at or past the end
      of the earlier member's declared data. */
  lemma {:induction false} ScanEntriesAreHeaders(buf: seq<byte>, sigs: Signatures, p: nat)
    requires ScanFrom(buf, sigs, p).Success?
    ensures var es, hs := ScanFrom(buf, sigs, p).value, ScanHeaders(buf, sigs, p);
            && |es| == |hs|
            && (forall i :: 0 <= i < |hs| ==>
                  hs[i] + 4 < |buf| && U32LE(buf, hs[i]) == sigs.local && !Truncated(buf, hs[i]) && Describes(buf, hs[i], es[i]))
            && (forall i, j :: 0 <= i < j < |hs| ==> hs[j] >= DataEnd(es[i]))
  {
    var steps := Steps(buf, sigs);
    StepsAdvance(buf, sigs);
    WalkRecords(steps, |buf|, p);
    WalkHeadersPastData(steps, |buf|, p);
    var hs := Headers(steps, |buf|, p);
    forall i | 0 <= i < |hs| ensures hs[i] + 4 < |buf| && U32LE(buf, hs[i]) == sigs.local && !Truncated(buf, hs[i]) && steps(hs[i]).entry == HeaderEntry(buf, hs[i]) {
      EmitAt(buf, sigs, hs[i]);
    }
  }

  /** The loop body never runs past a central-directory signature (that is not
      also the local-header word): the scan then ends successfully, and no
      record comes from that position or anything after it. */
  lemma {:induction false} StopsAtCentralDirectory(buf: seq<byte>, sigs: Signatures, p: nat, i: nat)
    requires sigs.local != sigs.central
    requires i < |ScanCursor(buf, sigs, p)|
    requires U32LE(buf, ScanCursor(buf, sigs, p)[i]) == sigs.central
    ensures i == |ScanCursor(buf, sigs, p)| - 1
    ensures ScanFrom(buf, sigs, p).Success?
    ensures forall k :: 0 <= k < |ScanHeaders(buf, sigs, p)| ==> ScanHeaders(buf, sigs, p)[k] < ScanCursor(buf, sigs, p)[i]
  {
    StepsAdvance(buf, sigs);
    var c := Cursor(Steps(buf, sigs), |buf|, p);
    assert Steps(buf, sigs)(c[i]).Stop?;
    WalkStops(Steps(buf, sigs), |buf|, p, i);
  }

  /** A member whose declared data reaches past the end of the buffer is not an
      error: it is the last record and the scan succeeds. */
  lemma {:induction false} OversizedMemberEndsScan(buf: seq<byte>, sigs: Signatures, h: nat)
    requires h + 4 < |buf|
    requires U32LE(buf, h) == sigs.local && !Truncated(buf, h)
    requires DataEnd(HeaderEntry(buf, h)) + 4 >= |buf|
    ensures ScanFrom(buf, sigs, h) == Success([HeaderEntry(buf, h)])
  {
    var e := HeaderEntry(buf, h);
    StepsAdvance(buf, sigs);
    assert Steps(buf, sigs)(h) == Emit(e);
    assert Walk(Steps(buf, sigs), |buf|, DataEnd(e)) == Success([]);
    assert [e] + [] == [e];
  }

  // ---------------------------------------------------------------------------
  // The signature words, byte by byte

  /** The source's local-header word matches the bytes `04 03 4B 50`, and its
      central-directory word the bytes `02 01 4B 50`. */
  lemma {:induction false} SourceSignatureBytes(buf: seq<byte>, p: nat)
    requires p + 4 <= |buf|
    ensures U32LE(buf, p) == LocalFileHeaderSignature <==> buf[p..p + 4] == [0x04, 0x03, 0x4B, 0x50]
    ensures U32LE(buf, p) == CentralDirectorySignature <==> buf[p..p + 4] == [0x02, 0x01, 0x4B, 0x50]
  {
    U32LEBytes(buf, p, 0x04, 0x03, 0x4B, 0x50);
    U32LEBytes(buf, p, 0x02, 0x01, 0x4B, 0x50);
  }

  /** The APPNOTE words match the bytes `50 4B 03 04` ("PK\x03\x04") and `50 4B 01 02`. */
  lemma {:induction false} ApnoteSignatureBytes(buf: seq<byte>, p: nat)
    requires p + 4 <= |buf|
    ensures U32LE(buf, p) == ApnoteLocalFileHeaderSignature <==> buf[p..p + 4] == [0x50, 0x4B, 0x03, 0x04]
    ensures U32LE(buf, p) == ApnoteCentralDirectorySignature <==> buf[p..p + 4] == [0x50, 0x4B, 0x01, 0x02]
  {
    U32LEBytes(buf, p, 0x50, 0x4B, 0x03, 0x04);
    U32LEBytes(buf, p, 0x50, 0x4B, 0x01, 0x02);
  }

  /** As written, the scanner steps over a local header laid out as the APPNOTE
      prescribes: the cursor moves on one byte and no record is made there. */
  lemma {:induction false} SourceSkipsApnoteHeader(buf: seq<byte>, p: nat)
    requires p + 4 < |buf|
    requires buf[p..p + 4] == [0x50, 0x4B, 0x03, 0x04]
    ensures StepAt(buf, SourceSignatures, p) == Skip
    ensures ScanFrom(buf, SourceSignatures, p) == ScanFrom(buf, SourceSignatures, p + 1)
  {
    SourceSignatureBytes(buf, p);
  }

  /** With the APPNOTE words, a complete local header under the cursor is
      recorded, as the first record of the rest of the scan, unless the scan fails later. */
  lemma {:induction false} ApnoteReadsApnoteHeader(buf: seq<byte>, p: nat)
    requires p + 4 < |buf|
    requires buf[p..p + 4] == [0x50, 0x4B, 0x03, 0x04]
    requires !Truncated(buf, p)
    ensures StepAt(buf, ApnoteSignatures, p) == Emit(HeaderEntry(buf, p))
    ensures ScanFrom(buf, ApnoteSignatures, p).Success? ==>
              ScanFrom(buf, ApnoteSignatures, p).value[0] == HeaderEntry(buf, p)
  {
    ApnoteSignatureBytes(buf, p);
  }
}
