/** The read loop of readFileFrom (internal/data/datalog.go): fill a buffer
    from a segment file, scan it for the run of chunks holding the target
    offset, and when only part of a chunk is buffered, move that part to the
    front of the buffer and read on behind it.

    The segment file is a `SegmentFile` object over a fixed byte sequence,
    with a read position and a closed flag.  Its `Read` copies as many of
    the requested bytes as the file still holds: a short count comes only
    at the end of the file and without an error, and only a non-empty read
    at the end of the file reports `io.EOF`.  Go's `os.File.Read` may also
    return fewer bytes before the end (it caps one read at 1 GiB); those
    short reads are not modelled.  Opening, seeking and reading never fail
    here.

    `ReadLoop` is the specification of the loop: one `Iterate` per pass,
    with a fuel bound, because the loop as written need not terminate
    (`ReadLoopStalls`).  `ReadLoopChecked` is the loop with the missing
    check added: it stops once no byte can be read into the buffer. */
module DatalogRead {
  import opened Primitives
  import opened DatalogChunks

  // ---------------------------------------------------------------------
  // The segment file

  /** How many bytes a read of `len` bytes at `pos` returns. */
  function ReadCount(content: seq<byte>, pos: nat, len: nat): (n: nat)
    ensures n <= len
    ensures pos + n <= |content| || n == 0
    ensures n < len ==> pos + n >= |content|
    ensures n == 0 ==> len == 0 || pos >= |content|
  {
    if pos >= |content| then 0
    else if len < |content| - pos then len
    else |content| - pos
  }

  /** The `n` bytes of the file from `pos`. */
  function FileBytes(content: seq<byte>, pos: nat, n: nat): (r: seq<byte>)
    requires pos + n <= |content| || n == 0
    ensures |r| == n
    ensures forall k :: 0 <= k < n ==> r[k] == content[pos + k]
  {
    seq(n, k requires 0 <= k < n => content[pos + k])
  }

  class SegmentFile {
    const content: seq<byte>
    var position: nat
    var closed: bool

    /** os.OpenFile: a fresh handle at the start of the file. */
    constructor Open(content: seq<byte>)
      ensures this.content == content && position == 0 && !closed
    {
      this.content := content;
      position := 0;
      closed := false;
    }

    /** file.Seek(offset, io.SeekStart); a position past the end is allowed
        and makes every later read return io.EOF. */
    method Seek(offset: nat)
      requires !closed
      modifies this
      ensures position == offset && !closed
    {
      position := offset;
    }

    /** file.Read into `buf[start:start+len]`: the bytes from the position,
        as many as the request and the file allow. */
    method Read(buf: array<byte>, start: nat, len: nat) returns (n: nat, eof: bool)
      requires !closed && start + len <= buf.Length
      modifies this, buf
      ensures n == ReadCount(content, old(position), len)
      ensures eof == (len > 0 && n == 0)
      ensures position == old(position) + n && !closed
      ensures buf[..] == Fill(old(buf[..]), start, FileBytes(content, old(position), n))
    {
      var p := position;
      n := ReadCount(content, p, len);
      eof := len > 0 && n == 0;
      var i := 0;
      while i < n
        invariant 0 <= i <= n
        invariant forall k :: 0 <= k < buf.Length ==>
          buf[k] == if start <= k < start + i then content[p + k - start] else old(buf[k])
        modifies buf
      {
        buf[start + i] := content[p + i];
        i := i + 1;
      }
      assert buf[..] == Fill(old(buf[..]), start, FileBytes(content, p, n));
      position := position + n;
    }

    /** file.Close. */
    method Close()
      modifies this
      ensures closed && position == old(position)
    {
      closed := true;
    }
  }

  // ---------------------------------------------------------------------
  // One pass of the loop

  /** `data` written over `b` from index `ri`, the rest of `b` kept. */
  function Fill(b: seq<byte>, ri: nat, data: seq<byte>): (r: seq<byte>)
    requires ri + |data| <= |b|
    ensures |r| == |b|
  {
    seq(|b|, k requires 0 <= k < |b| => if ri <= k < ri + |data| then data[k - ri] else b[k])
  }

  /** Go's `copy(buf, buf[p:total])`: the bytes `[p, total)` moved to the
      front, the rest of the buffer kept. */
  function MovedToFront(b: seq<byte>, p: nat, total: nat): (r: seq<byte>)
    requires p <= total <= |b|
    ensures |r| == |b|
  {
    seq(|b|, k requires 0 <= k < |b| => if k < total - p then b[p + k] else b[k])
  }

  /** The read bytes land at `ri`; the bytes before and after them are the
      buffer's own. */
  lemma FillContents(b: seq<byte>, ri: nat, data: seq<byte>)
    requires ri + |data| <= |b|
    ensures var r := Fill(b, ri, data);
      r[..ri] == b[..ri] && r[ri..ri + |data|] == data && r[ri + |data|..] == b[ri + |data|..]
  {
  }

  /** After the copy the front holds `b[p:total]` and the rest of the
      buffer is unchanged. */
  lemma MovedToFrontContents(b: seq<byte>, p: nat, total: nat)
    requires p <= total <= |b|
    ensures var r := MovedToFront(b, p, total);
      r[..total - p] == b[p..total] && r[total - p..] == b[total - p..]
  {
  }

  lemma FillWithin(a: seq<byte>, ri: nat, data: seq<byte>, limit: nat)
    requires ri + |data| <= limit <= |a|
    ensures Fill(a, ri, data)[..limit] == Fill(a[..limit], ri, data)
    ensures Fill(a, ri, data)[limit..] == a[limit..]
  {
  }

  lemma MovedWithin(a: seq<byte>, p: nat, total: nat, limit: nat)
    requires p <= total <= limit <= |a|
    ensures MovedToFront(a, p, total)[..limit] == MovedToFront(a[..limit], p, total)
    ensures MovedToFront(a, p, total)[limit..] == a[limit..]
  {
  }

  /** The size of the read the loop issues: the length of
      alignBuffer(buf[remainderIndex:]) (see WindowIsAligned). */
  function Window(f: ChunkFormat, b: seq<byte>, ri: nat): (w: nat)
    requires ri <= |b|
    ensures w <= |b| - ri
    ensures w % f.alignmentSize == 0 && |b| - ri - w < f.alignmentSize
  {
    var m := |b| - ri;
    DivModUnique(m - m % f.alignmentSize, f.alignmentSize, m / f.alignmentSize, 0);
    m - m % f.alignmentSize
  }

  /** The window is what alignBuffer keeps of the buffer behind the
      remainder. */
  lemma WindowIsAligned(f: ChunkFormat, b: seq<byte>, ri: nat)
    requires ri <= |b|
    ensures Window(f, b, ri) == |AlignBuffer(f, b[ri..])|
  {
  }

  /** What readFileFrom returns: chunks as the slice `[from, to)` of the
      buffer, nothing (`nil, nil`), an error, or (for the fuel-bounded
      specification only) a loop still running when the fuel ran out. */
  datatype ReadResult = Chunks(from: nat, to: nat) | NoData | Failed | OutOfFuel

  /** The outcome of one pass: a return, or the state the next pass starts
      from (the buffer, remainderIndex and the file position). */
  datatype Step = Done(result: ReadResult, buf: seq<byte>) | Next(buf: seq<byte>, remainder: nat, pos: nat)

  datatype Outcome = Outcome(result: ReadResult, buf: seq<byte>)

  /** What every pass keeps: the remainder lies within the buffer, a pass
      never runs out of fuel, and returned chunks are a non-empty slice of
      the buffer. */
  predicate Proper(s: Step) {
    match s
    case Next(b, ri, _) => ri <= |b|
    case Done(r, b) => r != OutOfFuel && (r.Chunks? ==> r.from < r.to <= |b|)
  }

  /** One pass of readFileFrom's loop over buffer `b` with `ri` remainder
      bytes at its front and the file at `pos`. */
  function Iterate(f: ChunkFormat, content: seq<byte>, b: seq<byte>, ri: nat, pos: nat,
                   startOffset: int64, maxRecords: int64): (s: Step)
    requires ri <= |b|
    ensures |s.buf| == |b| && Proper(s)
    ensures s.Next? && Window(f, b, ri) > 0 ==> pos < s.pos <= |content|
  {
    var w := Window(f, b, ri);
    var n := ReadCount(content, pos, w);
    Settle(f, Fill(b, ri, FileBytes(content, pos, n)), ri + n, w > 0 && n == 0, pos + n, startOffset, maxRecords)
  }

  /** The rest of a pass, once `total` bytes are buffered at the front of
      `filled` and the file is at `pos`; `eof` says whether the read
      reported io.EOF.  A pass goes on only past a whole header, and only
      when the read did not report io.EOF. */
  function Settle(f: ChunkFormat, filled: seq<byte>, total: nat, eof: bool, pos: nat,
                  startOffset: int64, maxRecords: int64): (s: Step)
    requires total <= |filled|
    ensures |s.buf| == |filled| && Proper(s)
    ensures total < f.headerSize ==> s == Done(NoData, filled)
    ensures s.Done? && s.result.Chunks? ==>
      s.buf == filled && ScanFrom(f, filled[..total], 0, startOffset, maxRecords) == Complete(s.result.from, s.result.to)
    ensures s.Done? && s.result == NoData && f.headerSize <= total ==> eof
    ensures s.Next? ==> s.pos == pos && !eof && f.headerSize <= total && s.remainder <= total
  {
    if total < f.headerSize then Done(NoData, filled)
    else
      match ScanFrom(f, filled[..total], 0, startOffset, maxRecords)
      case ScanFailed => Done(Failed, filled)
      case Complete(from, to) => Done(Chunks(from, to), filled)
      case Remainder(from) =>
        var moved := MovedToFront(filled, from, total);
        if eof then Done(NoData, moved) else Next(moved, total - from, pos)
      case Exhausted =>
        if eof then Done(NoData, filled) else Next(filled, 0, pos)
  }

  /** A pass that goes on carries at the front of the buffer the
      unfinished suffix the scan returned, so the next read appends at its
      length. */
  lemma SettleMovesRemainder(f: ChunkFormat, filled: seq<byte>, total: nat, eof: bool, pos: nat,
                             startOffset: int64, maxRecords: int64)
    requires total <= |filled|
    requires Settle(f, filled, total, eof, pos, startOffset, maxRecords).Next?
    ensures var s := Settle(f, filled, total, eof, pos, startOffset, maxRecords);
      && s.buf[..s.remainder] == filled[total - s.remainder..total]
      && var scan := ScanFrom(f, filled[..total], 0, startOffset, maxRecords);
      && (scan == Remainder(total - s.remainder) || (scan.Exhausted? && s.remainder == 0))
  {
    var scan := ScanFrom(f, filled[..total], 0, startOffset, maxRecords);
    if scan.Remainder? {
      assert MovedToFront(filled, scan.from, total)[..total - scan.from] == filled[scan.from..total];
    }
  }

  /** Once a header's worth of bytes is buffered, the scan decides the
      pass: a complete run is returned, a header the decoder rejects is
      returned as the error, and any other scan goes on, carrying the
      unfinished suffix, unless the read reported io.EOF, in which case the
      pass returns nothing and no error. */
  lemma SettleDecides(f: ChunkFormat, filled: seq<byte>, total: nat, eof: bool, pos: nat,
                      startOffset: int64, maxRecords: int64)
    requires f.headerSize <= total <= |filled|
    ensures var scan := ScanFrom(f, filled[..total], 0, startOffset, maxRecords);
      var s := Settle(f, filled, total, eof, pos, startOffset, maxRecords);
      && (scan.Complete? ==> s == Done(Chunks(scan.from, scan.to), filled))
      && (scan == ScanFailed ==> s == Done(Failed, filled))
      && (!scan.Complete? && !scan.ScanFailed? ==> (s.Next? <==> !eof))
      && (scan.Remainder? && !eof ==> s.Next? && s.remainder == total - scan.from)
      && (scan.Exhausted? && !eof ==> s.Next? && s.remainder == 0)
      && (!scan.Complete? && !scan.ScanFailed? && eof ==> s.Done? && s.result == NoData)
  {
  }

  /** The loop as written, bounded by `fuel` passes. */
  function ReadLoop(f: ChunkFormat, content: seq<byte>, b: seq<byte>, ri: nat, pos: nat,
                    startOffset: int64, maxRecords: int64, fuel: nat): (o: Outcome)
    requires ri <= |b|
    ensures |o.buf| == |b|
    ensures o.result.Chunks? ==> o.result.from < o.result.to <= |b|
    decreases fuel, 0
  {
    if fuel == 0 then Outcome(OutOfFuel, b)
    else Resume(f, content, Iterate(f, content, b, ri, pos, startOffset, maxRecords), startOffset, maxRecords, fuel - 1)
  }

  /** The loop as written after a pass: the pass's return, or the passes
      that follow it. */
  function Resume(f: ChunkFormat, content: seq<byte>, s: Step, startOffset: int64, maxRecords: int64,
                  fuel: nat): (o: Outcome)
    requires Proper(s)
    ensures |o.buf| == |s.buf|
    ensures o.result.Chunks? ==> o.result.from < o.result.to <= |s.buf|
    decreases fuel, 1
  {
    match s
    case Done(r, b) => Outcome(r, b)
    case Next(b, ri, pos) => ReadLoop(f, content, b, ri, pos, startOffset, maxRecords, fuel)
  }

  /** The first pass decides: once the bytes buffered after the first read
      hold at least a header and scan to a complete run, the loop returns
      that run; a header the decoder rejects makes it return the error. */
  lemma ReadLoopFirstPass(f: ChunkFormat, content: seq<byte>, b: seq<byte>, ri: nat, pos: nat,
                          startOffset: int64, maxRecords: int64, fuel: nat)
    requires ri <= |b| && fuel >= 1
    ensures var n := ReadCount(content, pos, Window(f, b, ri));
      var filled := Fill(b, ri, FileBytes(content, pos, n));
      var scan := ScanFrom(f, filled[..ri + n], 0, startOffset, maxRecords);
      && (f.headerSize <= ri + n && scan.Complete? ==>
            ReadLoop(f, content, b, ri, pos, startOffset, maxRecords, fuel) == Outcome(Chunks(scan.from, scan.to), filled))
      && (f.headerSize <= ri + n && scan == ScanFailed ==>
            ReadLoop(f, content, b, ri, pos, startOffset, maxRecords, fuel) == Outcome(Failed, filled))
  {
    var w := Window(f, b, ri);
    var n := ReadCount(content, pos, w);
    var filled := Fill(b, ri, FileBytes(content, pos, n));
    var s := Iterate(f, content, b, ri, pos, startOffset, maxRecords);
    assert s == Settle(f, filled, ri + n, w > 0 && n == 0, pos + n, startOffset, maxRecords);
    if f.headerSize <= ri + n {
      SettleDecides(f, filled, ri + n, w > 0 && n == 0, pos + n, startOffset, maxRecords);
    }
    assert ReadLoop(f, content, b, ri, pos, startOffset, maxRecords, fuel)
        == Resume(f, content, s, startOffset, maxRecords, fuel - 1);
  }

  /** The loop with the missing check: when the read window is empty no
      byte can arrive, so the loop returns nothing instead of scanning the
      same bytes again.  Total: every other pass advances the file. */
  function ReadLoopChecked(f: ChunkFormat, content: seq<byte>, b: seq<byte>, ri: nat, pos: nat,
                           startOffset: int64, maxRecords: int64): (o: Outcome)
    requires ri <= |b|
    ensures |o.buf| == |b|
    ensures o.result.Chunks? ==> o.result.from < o.result.to <= |b|
    ensures o.result != OutOfFuel
    decreases |content| - pos, 1
  {
    if Window(f, b, ri) == 0 then Outcome(NoData, b)
    else ResumeChecked(f, content, pos, Iterate(f, content, b, ri, pos, startOffset, maxRecords), startOffset, maxRecords)
  }

  /** The checked loop after a pass that started at file position `pos`. */
  function ResumeChecked(f: ChunkFormat, content: seq<byte>, pos: nat, s: Step, startOffset: int64, maxRecords: int64): (o: Outcome)
    requires Proper(s) && (s.Next? ==> pos < s.pos <= |content|)
    ensures |o.buf| == |s.buf|
    ensures o.result.Chunks? ==> o.result.from < o.result.to <= |s.buf|
    ensures o.result != OutOfFuel
    decreases |content| - pos, 0
  {
    match s
    case Done(r, b) => Outcome(r, b)
    case Next(b, ri, pos') => ReadLoopChecked(f, content, b, ri, pos', startOffset, maxRecords)
  }

  /** `buf = buf[:maxSize]` when maxSize is the smaller. */
  function Limit(maxSize: nat, length: nat): (l: nat)
    ensures l <= length && l <= maxSize
    ensures l == length || l == maxSize
  {
    if maxSize < length then maxSize else length
  }

  // ---------------------------------------------------------------------
  // The methods

  /** The front `total - p` bytes of `buf` become `buf[p:total]`, a forward
      copy as Go's `copy` of an overlapping later slice performs. */
  method MoveToFront(buf: array<byte>, p: nat, total: nat)
    requires p <= total <= buf.Length
    modifies buf
    ensures buf[..] == MovedToFront(old(buf[..]), p, total)
  {
    ghost var before := buf[..];
    var i := 0;
    while i < total - p
      invariant 0 <= i <= total - p
      invariant |before| == buf.Length
      invariant forall k {:trigger buf[k]} :: 0 <= k < buf.Length ==> buf[k] == if k < i then before[p + k] else before[k]
    {
      buf[i] := buf[p + i];
      i := i + 1;
    }
    ghost var moved := MovedToFront(before, p, total);
    assert forall k :: 0 <= k < buf.Length ==> buf[k] == moved[k];
    assert buf[..] == moved;
  }

  /** One pass of readFileFrom's loop over `buf[:limit]`: read behind the
      `ri` remainder bytes, scan what is buffered, and either return or move
      the unfinished chunk to the front for the next pass. */
  method ReadPass(f: ChunkFormat, file: SegmentFile, buf: array<byte>, limit: nat, ri: nat,
                  startOffset: int64, maxRecords: int64)
    returns (done: bool, r: ReadResult, nextRi: nat)
    requires ri <= limit <= buf.Length && !file.closed
    modifies file, buf
    ensures !file.closed && nextRi <= limit
    ensures buf[limit..] == old(buf[limit..])
    ensures var s := Iterate(f, file.content, old(buf[..limit]), ri, old(file.position), startOffset, maxRecords);
      if done then s == Done(r, buf[..limit]) else s == Next(buf[..limit], nextRi, file.position)
  {
    ghost var whole := buf[..];
    ghost var b := buf[..limit];
    ghost var pos := file.position;
    ghost var content := file.content;
    assert b[ri..] == buf[ri..limit];
    WindowIsAligned(f, b, ri);
    var window := |AlignBuffer(f, buf[ri..limit])|;
    var n, eof := file.Read(buf, ri, window);
    ghost var filled := Fill(b, ri, FileBytes(content, pos, n));
    FillWithin(whole, ri, FileBytes(content, pos, n), limit);
    assert buf[..limit] == filled;
    var total := ri + n;
    ghost var step := Settle(f, filled, total, window > 0 && n == 0, pos + n, startOffset, maxRecords);
    assert Iterate(f, content, b, ri, pos, startOffset, maxRecords) == step;
    nextRi := 0;
    if total < f.headerSize {
      return true, NoData, nextRi;
    }
    assert buf[..total] == filled[..total];
    var scan := ReadChunksUntil(f, buf[..total], startOffset, maxRecords);
    if scan.ScanFailed? {
      return true, Failed, nextRi;
    }
    if scan.Complete? {
      return true, Chunks(scan.from, scan.to), nextRi;
    }
    if scan.Remainder? {
      ghost var before := buf[..];
      MoveToFront(buf, scan.from, total);
      MovedWithin(before, scan.from, total, limit);
      assert buf[..limit] == MovedToFront(filled, scan.from, total);
      nextRi := total - scan.from;
    }
    assert eof == (window > 0 && n == 0);
    if eof {
      assert step == Done(NoData, buf[..limit]);
      return true, NoData, nextRi;
    }
    assert step == Next(buf[..limit], nextRi, file.position);
    done, r := false, OutOfFuel;
  }

  /** readFileFrom as written, with the index lookup's file offset given.
      `fuel` bounds the number of passes; the returned chunks are
      `buf[from:to]`. The file is left open, as the source leaves it. */
  method ReadFileFrom(f: ChunkFormat, content: seq<byte>, buf: array<byte>, maxSize: nat, fileOffset: nat,
                      startOffset: int64, maxRecords: int64, fuel: nat)
    returns (r: ReadResult, file: SegmentFile)
    modifies buf
    ensures Outcome(r, buf[..Limit(maxSize, buf.Length)])
         == ReadLoop(f, content, old(buf[..Limit(maxSize, buf.Length)]), 0, fileOffset, startOffset, maxRecords, fuel)
    ensures buf[Limit(maxSize, buf.Length)..] == old(buf[Limit(maxSize, buf.Length)..])
    ensures fresh(file) && file.content == content && !file.closed
  {
    var limit := Limit(maxSize, buf.Length);
    file := new SegmentFile.Open(content);
    if fileOffset > 0 {
      file.Seek(fileOffset);
    }
    var ri: nat := 0;
    var iter: nat := 0;
    assert buf[..limit] == old(buf[..limit]) && file.position == fileOffset;
    while iter < fuel
      invariant ri <= limit && iter <= fuel
      invariant fresh(file) && file.content == content && !file.closed
      invariant ReadLoop(f, content, buf[..limit], ri, file.position, startOffset, maxRecords, fuel - iter)
             == ReadLoop(f, content, old(buf[..limit]), 0, fileOffset, startOffset, maxRecords, fuel)
      invariant buf[limit..] == old(buf[limit..])
      decreases fuel - iter
    {
      ghost var b := buf[..limit];
      ghost var pos := file.position;
      var done, result, nextRi := ReadPass(f, file, buf, limit, ri, startOffset, maxRecords);
      if done {
        return result, file;
      }
      assert ReadLoop(f, content, b, ri, pos, startOffset, maxRecords, fuel - iter)
          == Resume(f, content, Next(buf[..limit], nextRi, file.position), startOffset, maxRecords, fuel - iter - 1);
      ri := nextRi;
      iter := iter + 1;
    }
    r := OutOfFuel;
  }

  /** readFileFrom with the two defects removed: the loop stops when the
      read window is empty, and the file is closed on every return, as the
      function's own comment promises. */
  method ReadFileFromChecked(f: ChunkFormat, content: seq<byte>, buf: array<byte>, maxSize: nat, fileOffset: nat,
                             startOffset: int64, maxRecords: int64)
    returns (r: ReadResult, file: SegmentFile)
    modifies buf
    ensures Outcome(r, buf[..Limit(maxSize, buf.Length)])
         == ReadLoopChecked(f, content, old(buf[..Limit(maxSize, buf.Length)]), 0, fileOffset, startOffset, maxRecords)
    ensures buf[Limit(maxSize, buf.Length)..] == old(buf[Limit(maxSize, buf.Length)..])
    ensures fresh(file) && file.content == content && file.closed
  {
    var limit := Limit(maxSize, buf.Length);
    file := new SegmentFile.Open(content);
    if fileOffset > 0 {
      file.Seek(fileOffset);
    }
    var ri: nat := 0;
    assert buf[..limit] == old(buf[..limit]) && file.position == fileOffset;
    while true
      invariant ri <= limit
      invariant fresh(file) && file.content == content && !file.closed
      invariant ReadLoopChecked(f, content, buf[..limit], ri, file.position, startOffset, maxRecords)
             == ReadLoopChecked(f, content, old(buf[..limit]), 0, fileOffset, startOffset, maxRecords)
      invariant buf[limit..] == old(buf[limit..])
      decreases if file.position <= |content| then |content| - file.position + 1 else 0
    {
      ghost var b := buf[..limit];
      ghost var pos := file.position;
      assert b[ri..] == buf[ri..limit];
      WindowIsAligned(f, b, ri);
      var window := |AlignBuffer(f, buf[ri..limit])|;
      if window == 0 {
        file.Close();
        return NoData, file;
      }
      var done, result, nextRi := ReadPass(f, file, buf, limit, ri, startOffset, maxRecords);
      if done {
        file.Close();
        return result, file;
      }
      ri := nextRi;
    }
  }

  // ---------------------------------------------------------------------
  // What the loop returns

  /** The `ri` bytes at the front of the buffer are the `ri` bytes of the
      file just before `pos`. */
  ghost predicate FrontIsFile(content: seq<byte>, b: seq<byte>, ri: nat, pos: nat) {
    ri <= |b| && (ri == 0 || Stretch(content, b, ri, pos))
  }

  /** The first `total` bytes of `x` are the `total` bytes of the file just
      before `end`. */
  ghost predicate Stretch(content: seq<byte>, x: seq<byte>, total: nat, end: nat) {
    total <= |x| && total <= end <= |content| && x[..total] == content[end - total..end]
  }

  /** After a read the buffered bytes are one stretch of the file. */
  lemma FilledIsFile(content: seq<byte>, b: seq<byte>, ri: nat, pos: nat, w: nat)
    requires FrontIsFile(content, b, ri, pos) && ri + w <= |b|
    requires ri + ReadCount(content, pos, w) > 0
    ensures var n := ReadCount(content, pos, w);
      Stretch(content, Fill(b, ri, FileBytes(content, pos, n)), ri + n, pos + n)
  {
    var n := ReadCount(content, pos, w);
    var filled := Fill(b, ri, FileBytes(content, pos, n));
    assert pos + n - (ri + n) == pos - ri;
    forall k | 0 <= k < ri + n
      ensures filled[k] == content[pos - ri + k]
    {
      if k < ri {
        assert filled[k] == b[..ri][k];
      } else {
        assert filled[k] == FileBytes(content, pos, n)[k - ri];
      }
    }
  }

  /** Moving the tail of a stretch of the file to the front keeps it a
      stretch of the file. */
  lemma MovedIsFile(content: seq<byte>, filled: seq<byte>, from: nat, total: nat, end: nat)
    requires from <= total && Stretch(content, filled, total, end)
    ensures Stretch(content, MovedToFront(filled, from, total), total - from, end)
  {
    var moved := MovedToFront(filled, from, total);
    forall k | 0 <= k < total - from
      ensures moved[k] == content[end - total + from + k]
    {
      assert moved[k] == filled[from + k] == filled[..total][from + k];
    }
  }

  /** A pass that goes on keeps the remainder a copy of the file's bytes
      just before the new position. */
  lemma IterateKeepsFront(f: ChunkFormat, content: seq<byte>, b: seq<byte>, ri: nat, pos: nat,
                          startOffset: int64, maxRecords: int64)
    requires FrontIsFile(content, b, ri, pos)
    requires Iterate(f, content, b, ri, pos, startOffset, maxRecords).Next?
    ensures var s := Iterate(f, content, b, ri, pos, startOffset, maxRecords);
      FrontIsFile(content, s.buf, s.remainder, s.pos)
  {
    var w := Window(f, b, ri);
    var n := ReadCount(content, pos, w);
    var filled := Fill(b, ri, FileBytes(content, pos, n));
    var eof := w > 0 && n == 0;
    IterateIsSettle(f, content, b, ri, pos, startOffset, maxRecords);
    FilledIsFile(content, b, ri, pos, w);
    SettleKeepsFront(f, content, filled, ri + n, eof, pos + n, startOffset, maxRecords);
  }

  /** Unfolds one pass into its read and the rest of the pass. */
  lemma IterateIsSettle(f: ChunkFormat, content: seq<byte>, b: seq<byte>, ri: nat, pos: nat,
                        startOffset: int64, maxRecords: int64)
    requires ri <= |b|
    ensures var w := Window(f, b, ri);
      var n := ReadCount(content, pos, w);
      Iterate(f, content, b, ri, pos, startOffset, maxRecords)
        == Settle(f, Fill(b, ri, FileBytes(content, pos, n)), ri + n, w > 0 && n == 0, pos + n, startOffset, maxRecords)
  {
  }

  /** The same for the rest of a pass over the `total` bytes of the file
      just before `pos`. */
  lemma SettleKeepsFront(f: ChunkFormat, content: seq<byte>, filled: seq<byte>, total: nat, eof: bool, pos: nat,
                         startOffset: int64, maxRecords: int64)
    requires total <= |filled| && Stretch(content, filled, total, pos)
    requires Settle(f, filled, total, eof, pos, startOffset, maxRecords).Next?
    ensures var s := Settle(f, filled, total, eof, pos, startOffset, maxRecords);
      FrontIsFile(content, s.buf, s.remainder, s.pos)
  {
    var scan := ScanFrom(f, filled[..total], 0, startOffset, maxRecords);
    if scan.Remainder? {
      MovedIsFile(content, filled, scan.from, total, pos);
    }
  }

  /** Chunks returned by a pass are a complete scan of one stretch of the
      file, buffered at the front of the returned buffer. */
  lemma IterateChunksFromFile(f: ChunkFormat, content: seq<byte>, b: seq<byte>, ri: nat, pos: nat,
                              startOffset: int64, maxRecords: int64)
    returns (start: nat, total: nat)
    requires FrontIsFile(content, b, ri, pos)
    requires Iterate(f, content, b, ri, pos, startOffset, maxRecords).Done?
    requires Iterate(f, content, b, ri, pos, startOffset, maxRecords).result.Chunks?
    ensures var s := Iterate(f, content, b, ri, pos, startOffset, maxRecords);
      && start + total <= |content| && total <= |b|
      && s.buf[..total] == content[start..start + total]
      && ScanFrom(f, content[start..start + total], 0, startOffset, maxRecords)
         == Complete(s.result.from, s.result.to)
  {
    var w := Window(f, b, ri);
    var n := ReadCount(content, pos, w);
    total := ri + n;
    FilledIsFile(content, b, ri, pos, w);
    start := pos - ri;
  }

  /** Chunks readFileFrom returns were read from the file: the buffer's
      first `total` bytes are the file's bytes from `start`, and scanning
      them finds the returned slice. */
  lemma {:induction false} ReadLoopChunksFromFile(f: ChunkFormat, content: seq<byte>, b: seq<byte>, ri: nat, pos: nat,
                                                  startOffset: int64, maxRecords: int64, fuel: nat)
    returns (start: nat, total: nat)
    requires FrontIsFile(content, b, ri, pos)
    requires ReadLoop(f, content, b, ri, pos, startOffset, maxRecords, fuel).result.Chunks?
    ensures var o := ReadLoop(f, content, b, ri, pos, startOffset, maxRecords, fuel);
      && start + total <= |content| && o.result.to <= total <= |b|
      && o.buf[..total] == content[start..start + total]
      && ScanFrom(f, content[start..start + total], 0, startOffset, maxRecords)
         == Complete(o.result.from, o.result.to)
    decreases fuel, 0
  {
    var s := Iterate(f, content, b, ri, pos, startOffset, maxRecords);
    assert ReadLoop(f, content, b, ri, pos, startOffset, maxRecords, fuel)
        == Resume(f, content, s, startOffset, maxRecords, fuel - 1);
    if s.Done? {
      assert Resume(f, content, s, startOffset, maxRecords, fuel - 1) == Outcome(s.result, s.buf);
      start, total := IterateChunksFromFile(f, content, b, ri, pos, startOffset, maxRecords);
    } else {
      IterateKeepsFront(f, content, b, ri, pos, startOffset, maxRecords);
      start, total := ResumeChunksFromFile(f, content, s, startOffset, maxRecords, fuel - 1);
    }
  }

  /** The same after a pass that goes on. */
  lemma {:induction false} ResumeChunksFromFile(f: ChunkFormat, content: seq<byte>, s: Step,
                                                startOffset: int64, maxRecords: int64, fuel: nat)
    returns (start: nat, total: nat)
    requires s.Next? && FrontIsFile(content, s.buf, s.remainder, s.pos)
    requires Resume(f, content, s, startOffset, maxRecords, fuel).result.Chunks?
    ensures var o := Resume(f, content, s, startOffset, maxRecords, fuel);
      && start + total <= |content| && o.result.to <= total <= |s.buf|
      && o.buf[..total] == content[start..start + total]
      && ScanFrom(f, content[start..start + total], 0, startOffset, maxRecords)
         == Complete(o.result.from, o.result.to)
    decreases fuel, 1
  {
    start, total := ReadLoopChunksFromFile(f, content, s.buf, s.remainder, s.pos, startOffset, maxRecords, fuel);
  }

  /** The same for the checked loop. */
  lemma {:induction false} ReadLoopCheckedChunksFromFile(f: ChunkFormat, content: seq<byte>, b: seq<byte>, ri: nat, pos: nat,
                                                         startOffset: int64, maxRecords: int64)
    returns (start: nat, total: nat)
    requires FrontIsFile(content, b, ri, pos)
    requires ReadLoopChecked(f, content, b, ri, pos, startOffset, maxRecords).result.Chunks?
    ensures var o := ReadLoopChecked(f, content, b, ri, pos, startOffset, maxRecords);
      && start + total <= |content| && o.result.to <= total <= |b|
      && o.buf[..total] == content[start..start + total]
      && ScanFrom(f, content[start..start + total], 0, startOffset, maxRecords)
         == Complete(o.result.from, o.result.to)
    decreases |content| - pos, 1
  {
    var s := Iterate(f, content, b, ri, pos, startOffset, maxRecords);
    assert ReadLoopChecked(f, content, b, ri, pos, startOffset, maxRecords)
        == ResumeChecked(f, content, pos, s, startOffset, maxRecords);
    if s.Done? {
      assert ResumeChecked(f, content, pos, s, startOffset, maxRecords) == Outcome(s.result, s.buf);
      start, total := IterateChunksFromFile(f, content, b, ri, pos, startOffset, maxRecords);
    } else {
      IterateKeepsFront(f, content, b, ri, pos, startOffset, maxRecords);
      start, total := ResumeCheckedChunksFromFile(f, content, pos, s, startOffset, maxRecords);
    }
  }

  /** The same after a checked pass that goes on. */
  lemma {:induction false} ResumeCheckedChunksFromFile(f: ChunkFormat, content: seq<byte>, pos: nat, s: Step,
                                                       startOffset: int64, maxRecords: int64)
    returns (start: nat, total: nat)
    requires s.Next? && pos < s.pos <= |content| && FrontIsFile(content, s.buf, s.remainder, s.pos)
    requires ResumeChecked(f, content, pos, s, startOffset, maxRecords).result.Chunks?
    ensures var o := ResumeChecked(f, content, pos, s, startOffset, maxRecords);
      && start + total <= |content| && o.result.to <= total <= |s.buf|
      && o.buf[..total] == content[start..start + total]
      && ScanFrom(f, content[start..start + total], 0, startOffset, maxRecords)
         == Complete(o.result.from, o.result.to)
    decreases |content| - pos, 0
  {
    start, total := ReadLoopCheckedChunksFromFile(f, content, s.buf, s.remainder, s.pos, startOffset, maxRecords);
  }

  // ---------------------------------------------------------------------
  // The stall

  /** The remainder at the front of the buffer, if any, is an unfinished
      chunk: scanning it alone gives it back whole. */
  ghost predicate RemainderIsUnfinished(f: ChunkFormat, b: seq<byte>, ri: nat, startOffset: int64, maxRecords: int64) {
    && ri <= |b|
    && (ri == 0 || ScanFrom(f, b[..ri], 0, startOffset, maxRecords) == Remainder(0))
  }

  /** Every pass that goes on leaves an unfinished chunk (or nothing) at the
      front of the buffer. */
  lemma IterateLeavesUnfinished(f: ChunkFormat, content: seq<byte>, b: seq<byte>, ri: nat, pos: nat,
                                startOffset: int64, maxRecords: int64)
    requires ri <= |b|
    requires Iterate(f, content, b, ri, pos, startOffset, maxRecords).Next?
    ensures var s := Iterate(f, content, b, ri, pos, startOffset, maxRecords);
      RemainderIsUnfinished(f, s.buf, s.remainder, startOffset, maxRecords)
  {
    var w := Window(f, b, ri);
    var n := ReadCount(content, pos, w);
    SettleLeavesUnfinished(f, Fill(b, ri, FileBytes(content, pos, n)), ri + n, w > 0 && n == 0, pos + n,
                           startOffset, maxRecords);
  }

  /** The same for the rest of a pass. */
  lemma SettleLeavesUnfinished(f: ChunkFormat, filled: seq<byte>, total: nat, eof: bool, pos: nat,
                               startOffset: int64, maxRecords: int64)
    requires total <= |filled|
    requires Settle(f, filled, total, eof, pos, startOffset, maxRecords).Next?
    ensures var s := Settle(f, filled, total, eof, pos, startOffset, maxRecords);
      RemainderIsUnfinished(f, s.buf, s.remainder, startOffset, maxRecords)
  {
    var x := filled[..total];
    var scan := ScanFrom(f, x, 0, startOffset, maxRecords);
    if scan.Remainder? {
      RemainderIsUnfinishedChunk(f, x, 0, startOffset, maxRecords);
      NextChunkShift(f, x, scan.from);
      assert MovedToFront(filled, scan.from, total)[..total - scan.from] == x[scan.from..];
    }
  }

  /** Once the remainder fills the buffer up to less than one alignment
      unit and holds at least a header, no read can add a byte and every
      pass scans the same unfinished chunk again: the loop as written never
      returns, while the checked loop returns nothing. */
  lemma {:induction false} ReadLoopStalls(f: ChunkFormat, content: seq<byte>, b: seq<byte>, ri: nat, pos: nat,
                                          startOffset: int64, maxRecords: int64, fuel: nat)
    requires ri <= |b| && Window(f, b, ri) == 0 && ri >= f.headerSize
    requires RemainderIsUnfinished(f, b, ri, startOffset, maxRecords)
    ensures ReadLoop(f, content, b, ri, pos, startOffset, maxRecords, fuel) == Outcome(OutOfFuel, b)
    ensures ReadLoopChecked(f, content, b, ri, pos, startOffset, maxRecords) == Outcome(NoData, b)
    decreases fuel
  {
    if fuel > 0 {
      assert Fill(b, ri, FileBytes(content, pos, 0)) == b;
      assert MovedToFront(b, 0, ri) == b;
      assert Iterate(f, content, b, ri, pos, startOffset, maxRecords) == Next(b, ri, pos);
      assert Resume(f, content, Next(b, ri, pos), startOffset, maxRecords, fuel - 1)
          == ReadLoop(f, content, b, ri, pos, startOffset, maxRecords, fuel - 1);
      ReadLoopStalls(f, content, b, ri, pos, startOffset, maxRecords, fuel - 1);
    }
  }

  /** Wherever the loop as written returns, the checked loop returns the
      same result and buffer. */
  lemma {:induction false} CheckedAgreesWhenAsWrittenReturns(f: ChunkFormat, content: seq<byte>, b: seq<byte>, ri: nat, pos: nat,
                                                             startOffset: int64, maxRecords: int64, fuel: nat)
    requires RemainderIsUnfinished(f, b, ri, startOffset, maxRecords)
    requires ReadLoop(f, content, b, ri, pos, startOffset, maxRecords, fuel).result != OutOfFuel
    ensures ReadLoopChecked(f, content, b, ri, pos, startOffset, maxRecords)
         == ReadLoop(f, content, b, ri, pos, startOffset, maxRecords, fuel)
    decreases fuel, 0
  {
    var s := Iterate(f, content, b, ri, pos, startOffset, maxRecords);
    assert ReadLoop(f, content, b, ri, pos, startOffset, maxRecords, fuel)
        == Resume(f, content, s, startOffset, maxRecords, fuel - 1);
    if Window(f, b, ri) == 0 {
      if ri >= f.headerSize {
        ReadLoopStalls(f, content, b, ri, pos, startOffset, maxRecords, fuel);
        assert false;
      }
      assert Fill(b, ri, FileBytes(content, pos, 0)) == b;
      assert s == Done(NoData, b);
    } else {
      if s.Next? {
        IterateLeavesUnfinished(f, content, b, ri, pos, startOffset, maxRecords);
      }
      ResumeAgrees(f, content, pos, s, startOffset, maxRecords, fuel - 1);
    }
  }

  /** The same after a pass. */
  lemma {:induction false} ResumeAgrees(f: ChunkFormat, content: seq<byte>, pos: nat, s: Step,
                                        startOffset: int64, maxRecords: int64, fuel: nat)
    requires Proper(s) && (s.Next? ==> pos < s.pos <= |content|)
    requires s.Next? ==> RemainderIsUnfinished(f, s.buf, s.remainder, startOffset, maxRecords)
    requires Resume(f, content, s, startOffset, maxRecords, fuel).result != OutOfFuel
    ensures ResumeChecked(f, content, pos, s, startOffset, maxRecords)
         == Resume(f, content, s, startOffset, maxRecords, fuel)
    decreases fuel, 1
  {
    if s.Next? {
      CheckedAgreesWhenAsWrittenReturns(f, content, s.buf, s.remainder, s.pos, startOffset, maxRecords, fuel);
    }
  }

  /** With more passes than bytes left in the file, the loop as written
      either returns what the checked loop returns or is stalled on a
      remainder it can never complete. */
  lemma {:induction false} AsWrittenReturnsOrStalls(f: ChunkFormat, content: seq<byte>, b: seq<byte>, ri: nat, pos: nat,
                                                    startOffset: int64, maxRecords: int64, fuel: nat)
    requires RemainderIsUnfinished(f, b, ri, startOffset, maxRecords)
    requires fuel > 0 && pos + fuel > |content|
    ensures var o := ReadLoop(f, content, b, ri, pos, startOffset, maxRecords, fuel);
      || o == ReadLoopChecked(f, content, b, ri, pos, startOffset, maxRecords)
      || (o.result == OutOfFuel && ReadLoopChecked(f, content, b, ri, pos, startOffset, maxRecords).result == NoData)
    decreases fuel, 0
  {
    var s := Iterate(f, content, b, ri, pos, startOffset, maxRecords);
    assert ReadLoop(f, content, b, ri, pos, startOffset, maxRecords, fuel)
        == Resume(f, content, s, startOffset, maxRecords, fuel - 1);
    if Window(f, b, ri) == 0 {
      if ri >= f.headerSize {
        ReadLoopStalls(f, content, b, ri, pos, startOffset, maxRecords, fuel);
      } else {
        assert Fill(b, ri, FileBytes(content, pos, 0)) == b;
        assert s == Done(NoData, b);
      }
    } else {
      if s.Next? {
        IterateLeavesUnfinished(f, content, b, ri, pos, startOffset, maxRecords);
      }
      ResumeReturnsOrStalls(f, content, pos, s, startOffset, maxRecords, fuel - 1);
    }
  }

  /** The same after a pass. */
  lemma {:induction false} ResumeReturnsOrStalls(f: ChunkFormat, content: seq<byte>, pos: nat, s: Step,
                                                 startOffset: int64, maxRecords: int64, fuel: nat)
    requires Proper(s) && (s.Next? ==> pos < s.pos <= |content|)
    requires s.Next? ==> RemainderIsUnfinished(f, s.buf, s.remainder, startOffset, maxRecords)
    requires s.Next? ==> s.pos + fuel > |content|
    ensures var o := Resume(f, content, s, startOffset, maxRecords, fuel);
      || o == ResumeChecked(f, content, pos, s, startOffset, maxRecords)
      || (o.result == OutOfFuel && ResumeChecked(f, content, pos, s, startOffset, maxRecords).result == NoData)
    decreases fuel, 1
  {
    if s.Next? {
      AsWrittenReturnsOrStalls(f, content, s.buf, s.remainder, s.pos, startOffset, maxRecords, fuel);
    }
  }

  /** A pass that leaves an unfinished chunk filling the buffer to within
      one alignment unit starts the stall. */
  lemma StallsAfterPass(f: ChunkFormat, content: seq<byte>, b: seq<byte>, ri: nat, pos: nat,
                        startOffset: int64, maxRecords: int64, fuel: nat)
    requires ri <= |b| && fuel > 0 && Window(f, b, ri) > 0
    requires var s := Iterate(f, content, b, ri, pos, startOffset, maxRecords);
      && s.Next? && Window(f, s.buf, s.remainder) == 0 && s.remainder >= f.headerSize
      && RemainderIsUnfinished(f, s.buf, s.remainder, startOffset, maxRecords)
    ensures ReadLoop(f, content, b, ri, pos, startOffset, maxRecords, fuel).result == OutOfFuel
    ensures ReadLoopChecked(f, content, b, ri, pos, startOffset, maxRecords).result == NoData
  {
    var s := Iterate(f, content, b, ri, pos, startOffset, maxRecords);
    ReadLoopStalls(f, content, s.buf, s.remainder, s.pos, startOffset, maxRecords, fuel - 1);
  }

  /** A format of one-byte headers that all announce a 16-byte body. */
  const StallFormat: ChunkFormat := Format(1, 0xFF, 4, s => Some(ChunkHeader(0, 1, 16)))

  /** A concrete stall: a four-byte buffer over a file whose first chunk is
      longer than the buffer.  The first pass fills the buffer with the
      start of that chunk; every later pass reads nothing and scans it
      again.  The checked loop returns nothing instead. */
  lemma StallExample(fuel: nat)
    requires fuel > 0
    ensures ReadLoop(StallFormat, seq(8, k => 0), [0, 0, 0, 0], 0, 0, 0, 1, fuel).result == OutOfFuel
    ensures ReadLoopChecked(StallFormat, seq(8, k => 0), [0, 0, 0, 0], 0, 0, 0, 1).result == NoData
  {
    StallFirstPass();
    StallsAfterPass(StallFormat, seq(8, k => 0), [0, 0, 0, 0], 0, 0, 0, 1, fuel);
  }

  /** The first pass of the stall: the buffer is filled with the start of
      the first chunk, which stays unfinished. */
  lemma StallFirstPass()
    ensures var b: seq<byte> := [0, 0, 0, 0];
      && Window(StallFormat, b, 0) == 4 && Window(StallFormat, b, 4) == 0
      && Iterate(StallFormat, seq(8, k => 0), b, 0, 0, 0, 1) == Next(b, 4, 4)
      && ScanFrom(StallFormat, b[..4], 0, 0, 1) == Remainder(0)
  {
    var f := StallFormat;
    var content: seq<byte> := seq(8, k => 0);
    var b: seq<byte> := [0, 0, 0, 0];
    StallScan();
    assert b[..4] == b;
    assert Window(f, b, 0) == 4 && ReadCount(content, 0, 4) == 4;
    assert FileBytes(content, 0, 4) == b;
    assert Fill(b, 0, b) == b;
    IterateIsSettle(f, content, b, 0, 0, 0, 1);
    assert MovedToFront(b, 0, 4) == b;
    assert Settle(f, b, 4, false, 4, 0, 1) == Next(b, 4, 4);
  }

  /** In the stall's format the four zero bytes are the start of a chunk
      whose body is not buffered. */
  lemma StallScan()
    ensures ScanFrom(StallFormat, [0, 0, 0, 0], 0, 0, 1) == Remainder(0)
  {
    var b: seq<byte> := [0, 0, 0, 0];
    assert Padding(0xFF, b, 0) == 0;
    assert NextChunk(StallFormat, b, 0) == NoChunk;
  }
}
