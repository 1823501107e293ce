/** Chunk scanning of internal/data/datalog.go: trimming a buffer for direct
    I/O, skipping alignment padding, deciding whether a whole chunk is
    buffered, and walking a buffer to the run of chunks that holds a target
    offset.

    A chunk on disk is a run of padding bytes (each equal to the alignment
    flag), a fixed-size header, then `BodyLength` body bytes.  The header
    size, the flag, the alignment size and the header decoder
    (`readChunkHeader`) are defined outside datalog.go; they are a `Format`
    parameter here, and the decoder is an arbitrary function of the header
    bytes that may fail.

    Go re-slices the buffer as it walks it; the specification functions
    below instead take the whole buffer and a position in it, so that every
    slice the code returns is named by positions of the original buffer. */
module DatalogChunks {
  import opened Primitives

  /** The decoded fields of a chunk header. */
  datatype ChunkHeader = ChunkHeader(start: int64, recordLength: uint32, bodyLength: uint32)

  /** The constants and the header decoder the chunk format is built on.
      `decode` is given exactly the `headerSize` header bytes and yields
      `None` where `readChunkHeader` reports an error. */
  datatype Format = Format(
    headerSize: nat,
    alignmentFlag: byte,
    alignmentSize: nat,
    decode: seq<byte> -> Option<ChunkHeader>)

  /** Formats with a non-empty header (so every chunk advances the scan) and
      a non-zero alignment (so `%` by it is defined). */
  type ChunkFormat = f: Format | f.headerSize > 0 && f.alignmentSize > 0
    witness Format(1, 0, 1, s => None)

  // ---------------------------------------------------------------------
  // alignBuffer

  /** Crops the tail of `buf` so that its length is a multiple of the
      alignment size, as direct I/O requires of every read. */
  function AlignBuffer(f: ChunkFormat, buf: seq<byte>): (r: seq<byte>)
    ensures |r| <= |buf| && r == buf[..|r|]
    ensures |r| % f.alignmentSize == 0
    ensures |buf| - |r| < f.alignmentSize
  {
    var bytesToAlign := |buf| % f.alignmentSize;
    DivModUnique(|buf| - bytesToAlign, f.alignmentSize, |buf| / f.alignmentSize, 0);
    if bytesToAlign > 0 then buf[..|buf| - bytesToAlign] else buf
  }

  /** No aligned prefix of `buf` is longer than the one AlignBuffer keeps. */
  lemma AlignBufferIsLongestAligned(f: ChunkFormat, buf: seq<byte>, m: nat)
    requires m <= |buf| && m % f.alignmentSize == 0
    ensures m <= |AlignBuffer(f, buf)|
  {
    var a := f.alignmentSize;
    var r := |AlignBuffer(f, buf)|;
    var q, p := m / a, r / a;
    assert m == q * a && r == p * a;
    if q > p {
      MulNonneg(q - p - 1, a);
    }
  }

  /** Aligning an aligned buffer changes nothing. */
  lemma AlignBufferIdempotent(f: ChunkFormat, buf: seq<byte>)
    ensures AlignBuffer(f, AlignBuffer(f, buf)) == AlignBuffer(f, buf)
  {
  }

  // ---------------------------------------------------------------------
  // readNextChunk

  /** The number of alignment-flag bytes in a row from position `p`. */
  function Padding(flag: byte, buf: seq<byte>, p: nat): (n: nat)
    requires p <= |buf|
    ensures p + n <= |buf|
    decreases |buf| - p
  {
    if p < |buf| && buf[p] == flag then 1 + Padding(flag, buf, p + 1) else 0
  }

  /** Padding counts exactly the flag bytes from `p` on: all of them are the
      flag, and the byte after them is not. */
  lemma {:induction false} PaddingIsFlagRun(flag: byte, buf: seq<byte>, p: nat)
    requires p <= |buf|
    ensures forall k :: p <= k < p + Padding(flag, buf, p) ==> buf[k] == flag
    ensures p + Padding(flag, buf, p) < |buf| ==> buf[p + Padding(flag, buf, p)] != flag
    decreases |buf| - p
  {
    if p < |buf| && buf[p] == flag {
      PaddingIsFlagRun(flag, buf, p + 1);
    }
  }

  /** The run of flag bytes from `p` is unique, so any count with the two
      defining properties is the padding. */
  lemma {:induction false} PaddingIsLeadingRun(flag: byte, buf: seq<byte>, p: nat, n: nat)
    requires p + n <= |buf|
    requires forall k :: p <= k < p + n ==> buf[k] == flag
    requires p + n == |buf| || buf[p + n] != flag
    ensures Padding(flag, buf, p) == n
    decreases n
  {
    if n > 0 {
      PaddingIsLeadingRun(flag, buf, p + 1, n - 1);
    }
  }

  /** What readNextChunk finds at a position: a whole chunk (its header and
      the padding before it), nothing usable yet (`nil, 0, nil`), or a header
      the decoder rejects. */
  datatype ChunkAtHead = Chunk(header: ChunkHeader, alignment: nat) | NoChunk | HeaderError

  /** The specification of readNextChunk applied to `buf[p:]`. */
  function NextChunk(f: ChunkFormat, buf: seq<byte>, p: nat): (r: ChunkAtHead)
    requires p <= |buf|
    ensures r.Chunk? ==> p + r.alignment + f.headerSize + r.header.bodyLength <= |buf|
  {
    var h := p + Padding(f.alignmentFlag, buf, p);
    if h + f.headerSize > |buf| then NoChunk
    else
      match f.decode(buf[h..h + f.headerSize])
      case None => HeaderError
      case Some(header) =>
        if header.bodyLength + f.headerSize > |buf| - h then NoChunk
        else Chunk(header, h - p)
  }

  /** The three outcomes of readNextChunk: a chunk whose padding is the
      flag run at `p` and whose header and whole body are buffered; no chunk
      when fewer than a header's bytes follow the padding or the declared
      body does not fit; an error exactly when the decoder rejects the
      header bytes. */
  lemma NextChunkCases(f: ChunkFormat, buf: seq<byte>, p: nat)
    requires p <= |buf|
    ensures var r := NextChunk(f, buf, p); var h := p + Padding(f.alignmentFlag, buf, p);
      r.Chunk? ==>
      && r.alignment == Padding(f.alignmentFlag, buf, p)
      && h + f.headerSize + r.header.bodyLength <= |buf|
      && f.decode(buf[h..h + f.headerSize]) == Some(r.header)
    ensures var r := NextChunk(f, buf, p); var h := p + Padding(f.alignmentFlag, buf, p);
      r.NoChunk? <==>
      || h + f.headerSize > |buf|
      || (f.decode(buf[h..h + f.headerSize]).Some? &&
          h + f.headerSize + f.decode(buf[h..h + f.headerSize]).value.bodyLength > |buf|)
    ensures var h := p + Padding(f.alignmentFlag, buf, p);
      NextChunk(f, buf, p).HeaderError? <==>
      h + f.headerSize <= |buf| && f.decode(buf[h..h + f.headerSize]).None?
  {
  }

  /** Padding measured in a re-sliced buffer is the padding at the same
      place in the original. */
  lemma {:induction false} PaddingShift(flag: byte, buf: seq<byte>, p: nat, i: nat)
    requires p + i <= |buf|
    ensures Padding(flag, buf[p..], i) == Padding(flag, buf, p + i)
    decreases |buf| - p - i
  {
    if p + i < |buf| {
      assert buf[p..][i] == buf[p + i];
      PaddingShift(flag, buf, p, i + 1);
    }
  }

  /** readNextChunk on the re-sliced `buf[p:]` finds what NextChunk finds at
      position `p` of `buf`. */
  lemma NextChunkShift(f: ChunkFormat, buf: seq<byte>, p: nat)
    requires p <= |buf|
    ensures NextChunk(f, buf[p..], 0) == NextChunk(f, buf, p)
  {
    PaddingShift(f.alignmentFlag, buf, p, 0);
    var h := Padding(f.alignmentFlag, buf, p);
    if p + h + f.headerSize <= |buf| {
      assert buf[p..][h..h + f.headerSize] == buf[p + h..p + h + f.headerSize];
    }
  }

  /** The position just past the chunk that `c` found at position `p`. */
  function ChunkEnd(f: ChunkFormat, p: nat, c: ChunkAtHead): nat
    requires c.Chunk?
  {
    p + c.alignment + f.headerSize + c.header.bodyLength
  }

  /** readNextChunk applied to `buf[p:]`: counts the padding with a loop,
      then decodes the header behind it and checks that the declared body is
      buffered. */
  method ReadNextChunk(f: ChunkFormat, buf: seq<byte>, p: nat) returns (r: ChunkAtHead)
    requires p <= |buf|
    ensures r == NextChunk(f, buf, p)
  {
    var alignment := 0;
    var i := p;
    while i < |buf|
      invariant p <= i <= |buf| && alignment == i - p
      invariant forall k :: p <= k < i ==> buf[k] == f.alignmentFlag
    {
      if buf[i] != f.alignmentFlag {
        break;
      }
      alignment := alignment + 1;
      i := i + 1;
    }
    PaddingIsLeadingRun(f.alignmentFlag, buf, p, alignment);

    var h := p + alignment;
    if f.headerSize > |buf| - h {
      return NoChunk;
    }
    var decoded := f.decode(buf[h..h + f.headerSize]);
    if decoded.None? {
      return HeaderError;
    }
    var header := decoded.value;
    if header.bodyLength + f.headerSize > |buf| - h {
      return NoChunk;
    }
    return Chunk(header, alignment);
  }

  /** A buffer made only of padding holds no chunk. */
  lemma PaddingOnlyHasNoChunk(f: ChunkFormat, buf: seq<byte>)
    requires forall k :: 0 <= k < |buf| ==> buf[k] == f.alignmentFlag
    ensures Padding(f.alignmentFlag, buf, 0) == |buf|
    ensures NextChunk(f, buf, 0) == NoChunk
  {
    PaddingIsLeadingRun(f.alignmentFlag, buf, 0, |buf|);
  }

  // ---------------------------------------------------------------------
  // readChunksUntil

  /** How readChunksUntil ends: the run `buf[from:to]` (complete), the
      unconsumed suffix `buf[from:]` (incomplete chunk), or nil with no
      error (buffer used up) or with the decoder's error. */
  datatype ScanResult = Complete(from: nat, to: nat) | Remainder(from: nat) | Exhausted | ScanFailed

  /** Whether a chunk's record range `[Start, Start+RecordLength)` holds
      `offset`, with the int64 wrap-around of Go's addition. */
  predicate Contains(h: ChunkHeader, offset: int64) {
    offset >= h.start && offset < Wrap64(h.start + h.recordLength)
  }

  /** Contains is interval membership: a range whose end overflows int64
      wraps to a negative bound and holds no offset at all. */
  lemma ContainsIsInterval(h: ChunkHeader, offset: int64)
    ensures Contains(h, offset) <==>
      h.start + h.recordLength < TwoTo63 && h.start <= offset < h.start + h.recordLength
  {
  }

  /** The last offset a run may start a chunk at: `startOffset+maxRecords-1`
      in int64 arithmetic. */
  function MaxOffset(startOffset: int64, maxRecords: int64): int64 {
    Wrap64(startOffset + maxRecords - 1)
  }

  /** Where the run that follows an included chunk ending at `p` ends: the
      inner loop of readChunksUntil keeps taking whole chunks whose Start is
      at most `maxOffset`. */
  function RunEnd(f: ChunkFormat, buf: seq<byte>, p: nat, maxOffset: int64): (e: nat)
    requires p <= |buf|
    ensures p <= e <= |buf|
    decreases |buf| - p
  {
    var c := NextChunk(f, buf, p);
    if c.Chunk? && c.header.start <= maxOffset then RunEnd(f, buf, ChunkEnd(f, p, c), maxOffset)
    else p
  }

  /** The specification of readChunksUntil, for the scan that has reached
      position `pos` of its input (`ScanFrom(f, buf, 0, ...)` is the call). */
  function ScanFrom(f: ChunkFormat, buf: seq<byte>, pos: nat, startOffset: int64, maxRecords: int64): (r: ScanResult)
    requires pos <= |buf|
    ensures r.Complete? ==> pos <= r.from < r.to <= |buf|
    ensures r.Remainder? ==> pos <= r.from < |buf|
    decreases |buf| - pos, 1
  {
    if pos == |buf| then Exhausted else ScanChunk(f, buf, pos, startOffset, maxRecords)
  }

  /** One iteration of readChunksUntil's outer loop, at a position inside
      the buffer: the chunk found there ends the scan or is skipped. */
  function ScanChunk(f: ChunkFormat, buf: seq<byte>, pos: nat, startOffset: int64, maxRecords: int64): (r: ScanResult)
    requires pos < |buf|
    ensures r.Complete? ==> pos <= r.from < r.to <= |buf|
    ensures r.Remainder? ==> pos <= r.from < |buf|
    decreases |buf| - pos, 0
  {
    var c := NextChunk(f, buf, pos);
    match c
    case HeaderError => ScanFailed
    case NoChunk => Remainder(pos)
    case Chunk(header, _) =>
      if Contains(header, startOffset) then
        Complete(pos, RunEnd(f, buf, ChunkEnd(f, pos, c), MaxOffset(startOffset, maxRecords)))
      else
        ScanFrom(f, buf, ChunkEnd(f, pos, c), startOffset, maxRecords)
  }

  /** The inner loop of readChunksUntil: from the end `p` of an included
      chunk, keeps taking the whole chunk that follows while its Start is at
      most `maxOffset`, and returns where the run ends.  A header the decoder
      rejects ends the run like a missing chunk, since the loop drops the
      error. */
  method ReadRun(f: ChunkFormat, buf: seq<byte>, p: nat, maxOffset: int64) returns (e: nat)
    requires p <= |buf|
    ensures e == RunEnd(f, buf, p, maxOffset)
  {
    e := p;
    while true
      invariant p <= e <= |buf|
      invariant RunEnd(f, buf, e, maxOffset) == RunEnd(f, buf, p, maxOffset)
      decreases |buf| - e
    {
      var next := ReadNextChunk(f, buf, e);
      if !next.Chunk? || next.header.start > maxOffset {
        break;
      }
      e := ChunkEnd(f, e, next);
    }
  }

  /** readChunksUntil.  `pos` is where Go's re-sliced `buf` starts within
      the input, so every returned slice is given by positions of the input. */
  method ReadChunksUntil(f: ChunkFormat, buf: seq<byte>, startOffset: int64, maxRecords: int64)
    returns (r: ScanResult)
    ensures r == ScanFrom(f, buf, 0, startOffset, maxRecords)
  {
    var pos: nat := 0;
    while pos < |buf|
      invariant pos <= |buf|
      invariant ScanFrom(f, buf, pos, startOffset, maxRecords) == ScanFrom(f, buf, 0, startOffset, maxRecords)
      decreases |buf| - pos
    {
      var next := ReadNextChunk(f, buf, pos);
      if next.HeaderError? {
        assert ScanFrom(f, buf, pos, startOffset, maxRecords) == ScanFailed;
        return ScanFailed;
      }
      if next.NoChunk? {
        assert ScanFrom(f, buf, pos, startOffset, maxRecords) == Remainder(pos);
        return Remainder(pos);
      }
      var header, alignment := next.header, next.alignment;
      if Contains(header, startOffset) {
        // the starting chunk: take following chunks up to maxOffset
        var maxOffset := MaxOffset(startOffset, maxRecords);
        var end := ReadRun(f, buf, ChunkEnd(f, pos, next), maxOffset);
        return Complete(pos, end);
      }
      // skip the chunk
      pos := ChunkEnd(f, pos, next);
    }
    assert ScanFrom(f, buf, pos, startOffset, maxRecords) == Exhausted;
    return Exhausted;
  }

  // ---------------------------------------------------------------------
  // The frame decomposition: an independent reading of the same scan.

  /** A whole chunk at `[begin, end)` of a buffer, padding included. */
  datatype Frame = Frame(begin: nat, header: ChunkHeader, end: nat)

  /** `fr` is the whole chunk NextChunk finds at its begin. */
  ghost predicate IsFrameAt(f: ChunkFormat, buf: seq<byte>, fr: Frame) {
    && fr.begin <= |buf|
    && var c := NextChunk(f, buf, fr.begin);
    && c.Chunk?
    && c.header == fr.header
    && fr.end == ChunkEnd(f, fr.begin, c)
  }

  /** Where a sequence of frames that starts at `pos` stops. */
  function Stop(fs: seq<Frame>, pos: nat): nat {
    if |fs| == 0 then pos else fs[|fs| - 1].end
  }

  /** The maximal sequence of back-to-back whole chunks from `pos`. */
  ghost function Frames(f: ChunkFormat, buf: seq<byte>, pos: nat): (fs: seq<Frame>)
    requires pos <= |buf|
    ensures |fs| > 0 ==> fs[0].begin == pos
    ensures pos <= Stop(fs, pos) <= |buf|
    decreases |buf| - pos
  {
    var c := NextChunk(f, buf, pos);
    if c.Chunk? then
      var rest := Frames(f, buf, ChunkEnd(f, pos, c));
      var fs := [Frame(pos, c.header, ChunkEnd(f, pos, c))] + rest;
      assert Stop(fs, pos) == Stop(rest, ChunkEnd(f, pos, c));
      fs
    else
      []
  }

  /** Unfolds Frames by one chunk. */
  lemma FramesCons(f: ChunkFormat, buf: seq<byte>, pos: nat)
    requires pos <= |buf| && NextChunk(f, buf, pos).Chunk?
    ensures var c := NextChunk(f, buf, pos);
      Frames(f, buf, pos) == [Frame(pos, c.header, ChunkEnd(f, pos, c))] + Frames(f, buf, ChunkEnd(f, pos, c))
  {
  }

  /** Every element of Frames is a whole chunk of the buffer, at or after
      `pos`, and each one begins where the one before it ends. */
  lemma {:induction false} FrameIsChunk(f: ChunkFormat, buf: seq<byte>, pos: nat, k: nat)
    requires pos <= |buf| && k < |Frames(f, buf, pos)|
    ensures IsFrameAt(f, buf, Frames(f, buf, pos)[k])
    ensures pos <= Frames(f, buf, pos)[k].begin
    ensures Frames(f, buf, pos)[k].begin + f.headerSize <= Frames(f, buf, pos)[k].end <= |buf|
    ensures k > 0 ==> Frames(f, buf, pos)[k].begin == Frames(f, buf, pos)[k - 1].end
    decreases k
  {
    var c := NextChunk(f, buf, pos);
    var e := ChunkEnd(f, pos, c);
    FramesCons(f, buf, pos);
    var fs, rest := Frames(f, buf, pos), Frames(f, buf, e);
    if k > 0 {
      FrameIsChunk(f, buf, e, k - 1);
      assert fs[k] == rest[k - 1];
      if k > 1 {
        assert fs[k - 1] == rest[k - 2];
      }
    }
  }

  /** Frames stops where no whole chunk follows. */
  lemma {:induction false} FramesStopHasNoChunk(f: ChunkFormat, buf: seq<byte>, pos: nat)
    requires pos <= |buf|
    ensures !NextChunk(f, buf, Stop(Frames(f, buf, pos), pos)).Chunk?
    decreases |buf| - pos
  {
    var c := NextChunk(f, buf, pos);
    if c.Chunk? {
      var e := ChunkEnd(f, pos, c);
      FramesCons(f, buf, pos);
      FramesStopHasNoChunk(f, buf, e);
      assert Stop(Frames(f, buf, pos), pos) == Stop(Frames(f, buf, e), e);
    }
  }

  /** The properties RunEndFrames states of the run length `j` at `p`: the
      first `j` frames from `p` have Start at most `maxOffset`, the next one
      (if any) does not, and the run ends where frame `j - 1` ends. */
  ghost predicate IsRunLength(f: ChunkFormat, buf: seq<byte>, p: nat, maxOffset: int64, j: nat)
    requires p <= |buf|
  {
    var fs := Frames(f, buf, p);
    && j <= |fs|
    && (forall k :: 0 <= k < j ==> fs[k].header.start <= maxOffset)
    && (j < |fs| ==> fs[j].header.start > maxOffset)
    && RunEnd(f, buf, p, maxOffset) == if j == 0 then p else fs[j - 1].end
  }

  /** A run that continues from the chunk at `p` is one frame longer than
      the run from that chunk's end. */
  lemma RunLengthStep(f: ChunkFormat, buf: seq<byte>, p: nat, maxOffset: int64, j': nat)
    requires p <= |buf|
    requires NextChunk(f, buf, p).Chunk? && NextChunk(f, buf, p).header.start <= maxOffset
    requires IsRunLength(f, buf, ChunkEnd(f, p, NextChunk(f, buf, p)), maxOffset, j')
    ensures IsRunLength(f, buf, p, maxOffset, j' + 1)
  {
    var c := NextChunk(f, buf, p);
    var e := ChunkEnd(f, p, c);
    FramesCons(f, buf, p);
    var fs, rest := Frames(f, buf, p), Frames(f, buf, e);
    var j := j' + 1;
    assert fs[0] == Frame(p, c.header, e);
    forall k | 0 < k < j
      ensures fs[k].header.start <= maxOffset
    {
      assert fs[k] == rest[k - 1];
    }
    if j < |fs| {
      assert fs[j] == rest[j'];
    }
    calc {
      RunEnd(f, buf, p, maxOffset);
      RunEnd(f, buf, e, maxOffset);
      fs[j - 1].end;
    }
  }

  /** A run stops at once where no chunk with a small enough Start follows. */
  lemma RunLengthZero(f: ChunkFormat, buf: seq<byte>, p: nat, maxOffset: int64)
    requires p <= |buf|
    requires !NextChunk(f, buf, p).Chunk? || NextChunk(f, buf, p).header.start > maxOffset
    ensures IsRunLength(f, buf, p, maxOffset, 0)
  {
    if NextChunk(f, buf, p).Chunk? {
      FramesCons(f, buf, p);
    }
  }

  /** The run after an included chunk is the longest prefix of the following
      frames whose Start is at most `maxOffset`; `j` is its length. */
  lemma {:induction false} RunEndFrames(f: ChunkFormat, buf: seq<byte>, p: nat, maxOffset: int64) returns (j: nat)
    requires p <= |buf|
    ensures IsRunLength(f, buf, p, maxOffset, j)
    decreases |buf| - p
  {
    var c := NextChunk(f, buf, p);
    if c.Chunk? && c.header.start <= maxOffset {
      var j' := RunEndFrames(f, buf, ChunkEnd(f, p, c), maxOffset);
      RunLengthStep(f, buf, p, maxOffset, j');
      j := j' + 1;
    } else {
      RunLengthZero(f, buf, p, maxOffset);
      j := 0;
    }
  }

  /** A complete result is a run of whole frames: it starts at frame `i`,
      the first whose record range holds `startOffset`, continues through
      every following frame whose Start is at most MaxOffset, and stops
      before frame `j`, the first that is missing or starts later. */
  ghost predicate IsScanRun(f: ChunkFormat, buf: seq<byte>, pos: nat, startOffset: int64, maxRecords: int64, i: nat, j: nat)
    requires pos <= |buf|
  {
    var fs := Frames(f, buf, pos);
    var r := ScanFrom(f, buf, pos, startOffset, maxRecords);
    && r.Complete?
    && i < j <= |fs|
    && fs[i].begin == r.from && fs[j - 1].end == r.to
    && Contains(fs[i].header, startOffset)
    && (forall k :: 0 <= k < i ==> !Contains(fs[k].header, startOffset))
    && (forall k :: i < k < j ==> fs[k].header.start <= MaxOffset(startOffset, maxRecords))
    && (j < |fs| ==> fs[j].header.start > MaxOffset(startOffset, maxRecords))
  }

  /** The run that starts with the chunk at `pos`. */
  lemma ScanRunHere(f: ChunkFormat, buf: seq<byte>, pos: nat, startOffset: int64, maxRecords: int64) returns (j: nat)
    requires pos <= |buf| && NextChunk(f, buf, pos).Chunk?
    requires Contains(NextChunk(f, buf, pos).header, startOffset)
    ensures IsScanRun(f, buf, pos, startOffset, maxRecords, 0, j)
  {
    var c := NextChunk(f, buf, pos);
    var e := ChunkEnd(f, pos, c);
    var mo := MaxOffset(startOffset, maxRecords);
    assert ScanFrom(f, buf, pos, startOffset, maxRecords) == Complete(pos, RunEnd(f, buf, e, mo));
    var j' := RunEndFrames(f, buf, e, mo);
    FramesCons(f, buf, pos);
    var fs, rest := Frames(f, buf, pos), Frames(f, buf, e);
    assert fs[0] == Frame(pos, c.header, e);
    j := j' + 1;
    forall k | 0 < k < j
      ensures fs[k].header.start <= mo
    {
      assert fs[k] == rest[k - 1];
    }
    if j < |fs| {
      assert fs[j] == rest[j'];
    }
    if j' > 0 {
      assert fs[j - 1] == rest[j' - 1];
    }
  }

  /** A run found after the chunk at `pos` is the same run among the frames
      from `pos`, one index later. */
  lemma ScanRunLater(f: ChunkFormat, buf: seq<byte>, pos: nat, startOffset: int64, maxRecords: int64, i': nat, j': nat)
    requires pos <= |buf| && NextChunk(f, buf, pos).Chunk?
    requires !Contains(NextChunk(f, buf, pos).header, startOffset)
    requires IsScanRun(f, buf, ChunkEnd(f, pos, NextChunk(f, buf, pos)), startOffset, maxRecords, i', j')
    ensures IsScanRun(f, buf, pos, startOffset, maxRecords, i' + 1, j' + 1)
  {
    var c := NextChunk(f, buf, pos);
    var e := ChunkEnd(f, pos, c);
    assert ScanFrom(f, buf, pos, startOffset, maxRecords) == ScanFrom(f, buf, e, startOffset, maxRecords);
    FramesCons(f, buf, pos);
    var fs, rest := Frames(f, buf, pos), Frames(f, buf, e);
    assert fs[0] == Frame(pos, c.header, e);
    forall k | 0 < k < |fs|
      ensures fs[k] == rest[k - 1]
    {
    }
  }

  /** Every complete result is such a run. */
  lemma {:induction false} ScanCompleteIsFrameRun(f: ChunkFormat, buf: seq<byte>, pos: nat, startOffset: int64, maxRecords: int64)
    returns (i: nat, j: nat)
    requires pos <= |buf|
    requires ScanFrom(f, buf, pos, startOffset, maxRecords).Complete?
    ensures IsScanRun(f, buf, pos, startOffset, maxRecords, i, j)
    decreases |buf| - pos
  {
    var c := NextChunk(f, buf, pos);
    if Contains(c.header, startOffset) {
      j := ScanRunHere(f, buf, pos, startOffset, maxRecords);
      i := 0;
    } else {
      var e := ChunkEnd(f, pos, c);
      assert ScanFrom(f, buf, pos, startOffset, maxRecords) == ScanFrom(f, buf, e, startOffset, maxRecords);
      var i', j' := ScanCompleteIsFrameRun(f, buf, e, startOffset, maxRecords);
      ScanRunLater(f, buf, pos, startOffset, maxRecords, i', j');
      i, j := i' + 1, j' + 1;
    }
  }

  /** An incomplete result means no frame holds `startOffset`, and it is
      decided by what follows the last frame: the end of the buffer
      (Exhausted), an unfinished chunk whose suffix is returned (Remainder),
      or a header the decoder rejects (ScanFailed). */
  lemma {:induction false} ScanIncompleteAfterFrames(f: ChunkFormat, buf: seq<byte>, pos: nat, startOffset: int64, maxRecords: int64)
    requires pos <= |buf|
    requires !ScanFrom(f, buf, pos, startOffset, maxRecords).Complete?
    ensures var fs := Frames(f, buf, pos);
      forall k :: 0 <= k < |fs| ==> !Contains(fs[k].header, startOffset)
    ensures var s := Stop(Frames(f, buf, pos), pos);
      ScanFrom(f, buf, pos, startOffset, maxRecords) ==
        if s == |buf| then Exhausted
        else if NextChunk(f, buf, s).NoChunk? then Remainder(s)
        else ScanFailed
    decreases |buf| - pos
  {
    var c := NextChunk(f, buf, pos);
    if c.Chunk? {
      var e := ChunkEnd(f, pos, c);
      assert ScanFrom(f, buf, pos, startOffset, maxRecords) == ScanFrom(f, buf, e, startOffset, maxRecords);
      FramesCons(f, buf, pos);
      var fs, rest := Frames(f, buf, pos), Frames(f, buf, e);
      ScanIncompleteAfterFrames(f, buf, e, startOffset, maxRecords);
      forall k | 0 < k < |fs|
        ensures !Contains(fs[k].header, startOffset)
      {
        assert fs[k] == rest[k - 1];
      }
      assert Stop(fs, pos) == Stop(rest, e);
    }
  }

  /** The scan completes exactly when some frame holds `startOffset`. */
  lemma ScanCompleteIffSomeFrameContains(f: ChunkFormat, buf: seq<byte>, pos: nat, startOffset: int64, maxRecords: int64)
    requires pos <= |buf|
    ensures ScanFrom(f, buf, pos, startOffset, maxRecords).Complete? <==>
      exists k :: 0 <= k < |Frames(f, buf, pos)| && Contains(Frames(f, buf, pos)[k].header, startOffset)
  {
    var fs := Frames(f, buf, pos);
    if ScanFrom(f, buf, pos, startOffset, maxRecords).Complete? {
      var i, j := ScanCompleteIsFrameRun(f, buf, pos, startOffset, maxRecords);
      assert 0 <= i < |Frames(f, buf, pos)| && Contains(Frames(f, buf, pos)[i].header, startOffset);
      assert exists k :: 0 <= k < |Frames(f, buf, pos)| && Contains(Frames(f, buf, pos)[k].header, startOffset);
    } else {
      ScanIncompleteAfterFrames(f, buf, pos, startOffset, maxRecords);
    }
  }

  /** The remainder a scan returns starts with an unfinished chunk: one
      whose header or body is not all buffered yet. */
  lemma {:induction false} RemainderIsUnfinishedChunk(f: ChunkFormat, buf: seq<byte>, pos: nat, startOffset: int64, maxRecords: int64)
    requires pos <= |buf| && ScanFrom(f, buf, pos, startOffset, maxRecords).Remainder?
    ensures NextChunk(f, buf, ScanFrom(f, buf, pos, startOffset, maxRecords).from) == NoChunk
    decreases |buf| - pos
  {
    var c := NextChunk(f, buf, pos);
    if c.Chunk? {
      var e := ChunkEnd(f, pos, c);
      assert ScanFrom(f, buf, pos, startOffset, maxRecords) == ScanFrom(f, buf, e, startOffset, maxRecords);
      RemainderIsUnfinishedChunk(f, buf, e, startOffset, maxRecords);
    }
  }

  /** A buffer of padding only is kept whole as the remainder. */
  lemma PaddingOnlyIsRemainder(f: ChunkFormat, buf: seq<byte>, startOffset: int64, maxRecords: int64)
    requires |buf| > 0
    requires forall k :: 0 <= k < |buf| ==> buf[k] == f.alignmentFlag
    ensures ScanFrom(f, buf, 0, startOffset, maxRecords) == Remainder(0)
  {
    PaddingOnlyHasNoChunk(f, buf);
  }

  /** Consecutive chunks cover consecutive record ranges, as the chunks of a
      segment do. */
  ghost predicate ContiguousOffsets(fs: seq<Frame>) {
    forall k :: 0 < k < |fs| ==> fs[k].header.start == fs[k - 1].header.start + fs[k - 1].header.recordLength
  }

  /** In a segment whose chunks cover consecutive offsets, asking for one
      record returns exactly the chunk that holds it. */
  lemma SingleRecordIsOneChunk(f: ChunkFormat, buf: seq<byte>, startOffset: int64) returns (i: nat)
    requires ContiguousOffsets(Frames(f, buf, 0))
    requires ScanFrom(f, buf, 0, startOffset, 1).Complete?
    ensures var fs := Frames(f, buf, 0); var r := ScanFrom(f, buf, 0, startOffset, 1);
      i < |fs| && fs[i].begin == r.from && fs[i].end == r.to && Contains(fs[i].header, startOffset)
  {
    var fs := Frames(f, buf, 0);
    var j;
    i, j := ScanCompleteIsFrameRun(f, buf, 0, startOffset, 1);
    assert MaxOffset(startOffset, 1) == startOffset;
    ContainsIsInterval(fs[i].header, startOffset);
    assert i + 1 < |fs| ==> fs[i + 1].header.start > startOffset;
  }

  /** An offset past the record range of every buffered chunk yields no
      complete run. */
  lemma OffsetPastEveryChunkIsIncomplete(f: ChunkFormat, buf: seq<byte>, startOffset: int64, maxRecords: int64)
    requires forall k :: 0 <= k < |Frames(f, buf, 0)| ==>
      Frames(f, buf, 0)[k].header.start + Frames(f, buf, 0)[k].header.recordLength <= startOffset
    ensures !ScanFrom(f, buf, 0, startOffset, maxRecords).Complete?
  {
    ScanCompleteIffSomeFrameContains(f, buf, 0, startOffset, maxRecords);
  }
}
