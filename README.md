# Segment reads and inter-broker framing

This project models two byte-level pieces of a distributed log broker. Each is a Dafny model with proofs about it.

- **Reading chunks from a segment file** (`internal/data/datalog.go`). A segment file is a sequence of chunks. Each chunk is:
  - a run of alignment padding bytes;
  - a fixed-size header holding `Start`, `RecordLength` and `BodyLength`;
  - `BodyLength` body bytes.

  The core has four functions:
  - `alignBuffer` crops a buffer to a multiple of the direct-I/O alignment.
  - `readNextChunk` skips the padding and decides whether a whole chunk is buffered.
  - `readChunksUntil` walks a buffer to the chunk whose record range holds the requested offset. It then takes the chunks that follow, up to `maxRecords` offsets later. When a chunk is cut off, it hands back the unfinished tail instead.
  - `readFileFrom` is the read loop over the file. It issues aligned reads into one buffer. An unfinished chunk is moved to the front of the buffer, and the next read appends behind it.
- **Inter-broker wire framing** (`internal/interbroker/messages.go`):
  - the 8-byte message header;
  - the five opcodes;
  - the replication data request: header, a metadata block, the topic name, then the raw chunk payload;
  - the error and empty responses;
  - the functions that read these back.

The files:

- `primitives.dfy` (`Primitives`): Go's fixed-width integers as subset types, `Option`/`Result`, and int64/uint32 wrap-around.
- `endian.dfy` (`Endian`): explicit unsigned and two's-complement field codecs. The byte order (`conf.Endianness`) is a parameter.
- `chunks.dfy` (`DatalogChunks`): `alignBuffer`, `readNextChunk` and `readChunksUntil`.
  - Each is a specification function plus a method with the source's loops.
  - An independent frame decomposition (`Frames`) of a buffer into back-to-back whole chunks states what a scan returns.
  - The header size, padding flag, alignment size and header decoder are defined outside `datalog.go`. Here they form a `Format` parameter, and the decoder is an arbitrary, possibly failing function.
- `readloop.dfy` (`DatalogRead`): `readFileFrom`.
  - The segment file is a `SegmentFile` object with a position and a closed flag.
  - The loop works in place on an `array`.
  - The method is proved equal to a pass-by-pass specification: `Iterate`, which hands over to `Settle`, chained by `ReadLoop`.
- `messages.dfy` (`Interbroker`): encoders, decoders and round trips for the header, the metadata block, data requests and responses. A `Writer` object models the `io.Writer` that the `Marshal` methods append to.

Three details of the code that the model follows as written:

- `GenId` is a `uint32` (internal/interbroker/messages.go:43), so the metadata block is written as 21 bytes. `dataRequestMetaSize` counts it as 2 bytes, for 19 in all (internal/interbroker/messages.go:48-51), and the reader and `BodyLength()` use that 19. See Findings.
- A pass of the read loop gives up when the bytes buffered in total, the carried remainder included, are fewer than a header (internal/data/datalog.go:104-107). It does not look at how many new bytes the read delivered.
- The doc comment of `readFileFrom` says it closes the file handle (internal/data/datalog.go:64-65), but no path calls `Close`. See Findings.

## Model

| member | source | states |
|---|---|---|
| `Primitives.Wrap64` | internal/data/datalog.go:143-146 | Go's int64 `+`/`-` on operands at most one wrap out of range: the true value when it fits, otherwise that value plus or minus 2^64 |
| `Primitives.Wrap32` | internal/interbroker/messages.go:65 | Go's `uint32(x)` and uint32 `+`: congruent to `x` modulo 2^32, and equal to `x` when it fits |
| `Endian.DecodeEncode` | internal/interbroker/messages.go:128-136 | decoding the `width`-byte encoding of a value below 256^width gives back the value, in either byte order |
| `Endian.EncodeDecode` | internal/interbroker/messages.go:128-136 | every byte sequence is the encoding of the value it decodes to, so each fixed-width codec is a bijection |
| `Endian.FieldRoundTrips` | internal/interbroker/messages.go:128-136 | uint8, uint16, uint32 and int64 fields decode to the value encoded, two's complement for int64 |
| `Endian.FieldsReencode` | internal/interbroker/messages.go:128-136 | 1, 2, 4 and 8 bytes re-encode to themselves after decoding |
| `DatalogChunks.AlignBuffer` | internal/data/datalog.go:196-203 | the result is a prefix of the buffer whose length is a multiple of the alignment, less than one alignment unit short of the buffer |
| `DatalogChunks.AlignBufferIsLongestAligned` | internal/data/datalog.go:196-203 | no aligned prefix is longer than the one kept |
| `DatalogChunks.AlignBufferIdempotent` | internal/data/datalog.go:196-203 | aligning twice changes nothing |
| `DatalogChunks.Padding` | internal/data/datalog.go:167-173 | the padding run from a position stays inside the buffer |
| `DatalogChunks.PaddingIsFlagRun` | internal/data/datalog.go:167-173 | every counted byte is the alignment flag and the byte after them is not |
| `DatalogChunks.PaddingIsLeadingRun` | internal/data/datalog.go:167-173 | any count with those two properties is the padding, so the count is unique |
| `DatalogChunks.NextChunk` | internal/data/datalog.go:166-194 | a returned chunk (padding, header and declared body) lies entirely within the buffer |
| `DatalogChunks.NextChunkCases` | internal/data/datalog.go:166-194 | a chunk carries the header the decoder gives for the bytes behind the padding, and `alignment` is the padding length. The result is nil without error exactly when fewer than a header's bytes follow the padding, or the declared body does not fit. It is an error exactly when the decoder rejects the header |
| `DatalogChunks.NextChunkShift` | internal/data/datalog.go:149-160 | readNextChunk on the re-sliced `buf[p:]` finds the chunk found at position `p` of the whole buffer |
| `DatalogChunks.ReadNextChunk` | internal/data/datalog.go:166-194 | the padding-counting loop and the checks behind it compute `NextChunk` |
| `DatalogChunks.PaddingOnlyHasNoChunk` | internal/data/datalog.go:175-180 | a buffer made only of padding is all padding and holds no chunk |
| `DatalogChunks.Contains` | internal/data/datalog.go:143 | whether a chunk holds the start offset: at least its Start and below Start plus RecordLength, the sum wrapped as Go's int64 addition wraps (its meaning is stated by `ContainsIsInterval`) |
| `DatalogChunks.MaxOffset` | internal/data/datalog.go:146 | the last offset a run may start a chunk at: the start offset plus the record count less one, wrapped as Go's int64 arithmetic wraps |
| `DatalogChunks.ContainsIsInterval` | internal/data/datalog.go:143 | the containment test is membership of `[Start, Start+RecordLength)`; a range whose end overflows int64 holds nothing |
| `DatalogChunks.RunEnd` | internal/data/datalog.go:145-155 | the run that follows an included chunk ends within the buffer, at or after where it starts |
| `DatalogChunks.ReadRun` | internal/data/datalog.go:145-155 | the inner loop of readChunksUntil ends where `RunEnd` says |
| `DatalogChunks.ScanFrom` | internal/data/datalog.go:129-163 | a complete result is a non-empty slice of the scanned part of the buffer, and a remainder is a non-empty suffix of it |
| `DatalogChunks.ScanChunk` | internal/data/datalog.go:132-160 | one pass of the outer loop at a position inside the buffer gives results within the same bounds |
| `DatalogChunks.ReadChunksUntil` | internal/data/datalog.go:129-163 | the re-slicing loop returns what `ScanFrom` specifies |
| `DatalogChunks.Frames` | internal/data/datalog.go:131-160 | the back-to-back whole chunks from a position start there and stop inside the buffer |
| `DatalogChunks.FramesCons` | internal/data/datalog.go:159-160 | a whole chunk at a position is the first frame, and the frames after it start at its end |
| `DatalogChunks.FrameIsChunk` | internal/data/datalog.go:131-160 | each frame is the chunk readNextChunk finds at its start, at least a header long. Each begins where the previous one ends, so each skip advances by at least the header size |
| `DatalogChunks.FramesStopHasNoChunk` | internal/data/datalog.go:138-141 | no whole chunk follows the last frame |
| `DatalogChunks.RunLengthStep` | internal/data/datalog.go:147-154 | taking one more chunk with a small enough Start lengthens the run by one frame |
| `DatalogChunks.RunLengthZero` | internal/data/datalog.go:150-153 | a missing chunk, or one with a larger Start, ends the run at once |
| `DatalogChunks.RunEndFrames` | internal/data/datalog.go:145-155 | the inner loop takes the longest prefix of the following frames whose Start is at most `startOffset+maxRecords-1`, and stops before the first frame that is missing or starts later |
| `DatalogChunks.ScanRunHere` | internal/data/datalog.go:143-156 | a scan whose first chunk holds the offset returns that chunk and the run after it |
| `DatalogChunks.ScanRunLater` | internal/data/datalog.go:159-160 | skipping a chunk that does not hold the offset shifts the returned run by one frame |
| `DatalogChunks.ScanCompleteIsFrameRun` | internal/data/datalog.go:143-156 | a complete result starts at the first frame whose record range holds `startOffset` and ends on a frame boundary. It includes every following frame with Start at most `startOffset+maxRecords-1` and excludes the first that is missing or starts later |
| `DatalogChunks.ScanIncompleteAfterFrames` | internal/data/datalog.go:131-162 | an incomplete result means no frame holds the offset. It is nil when the frames reach the buffer end, the suffix from the unfinished chunk after the frames otherwise, and the decoder's error otherwise |
| `DatalogChunks.ScanCompleteIffSomeFrameContains` | internal/data/datalog.go:129-163 | the scan completes if and only if some frame holds the offset |
| `DatalogChunks.RemainderIsUnfinishedChunk` | internal/data/datalog.go:138-141 | the returned remainder starts with a chunk whose header or body is not all buffered |
| `DatalogChunks.PaddingOnlyIsRemainder` | internal/data/datalog.go:138-141 | a non-empty buffer of padding is returned whole as the remainder |
| `DatalogChunks.SingleRecordIsOneChunk` | internal/data/datalog.go:143-156 | with chunks covering consecutive offsets, asking for one record returns exactly the chunk that holds it |
| `DatalogChunks.OffsetPastEveryChunkIsIncomplete` | internal/data/datalog.go:143-162 | an offset beyond every buffered chunk's range gives no complete result |
| `DatalogRead.ReadCount` | internal/data/datalog.go:98 | a read returns at most the bytes asked for and never passes the end of the file. In the model it is short only at the end of the file, and empty only for an empty request or at the end |
| `DatalogRead.FileBytes` | internal/data/datalog.go:98 | the bytes a read delivers are the file's bytes from the position |
| `DatalogRead.SegmentFile.Open` | internal/data/datalog.go:82-87 | a fresh open handle at the start of the file |
| `DatalogRead.SegmentFile.Seek` | internal/data/datalog.go:88-93 | the position becomes the index file's offset |
| `DatalogRead.SegmentFile.Read` | internal/data/datalog.go:98-102 | copies the readable bytes into the slice and advances the position by their count. It reports io.EOF only for a non-empty request at the end of the file, and leaves the rest of the buffer untouched |
| `DatalogRead.SegmentFile.Close` | internal/data/datalog.go:64-65 | the handle is closed and keeps its position |
| `DatalogRead.Fill` | internal/data/datalog.go:98 | reading into `buf[remainderIndex:]` keeps the buffer's length |
| `DatalogRead.FillContents` | internal/data/datalog.go:98 | the read bytes land at `remainderIndex`; the remainder before them and the buffer after them are unchanged |
| `DatalogRead.MovedToFront` | internal/data/datalog.go:117 | `copy(buf, buf[p:total])` keeps the buffer's length |
| `DatalogRead.MovedToFrontContents` | internal/data/datalog.go:117 | after `copy(buf, buf[p:total])` the front holds `buf[p:total]` and the rest of the buffer is unchanged |
| `DatalogRead.Window` | internal/data/datalog.go:98 | the read size is a multiple of the alignment, fits behind the remainder, and leaves less than one alignment unit unused |
| `DatalogRead.WindowIsAligned` | internal/data/datalog.go:98 | the read size is the length of `alignBuffer(buf[remainderIndex:])` |
| `DatalogRead.Iterate` | internal/data/datalog.go:98-123 | a pass keeps the buffer length and a remainder within it. Returned chunks are a non-empty slice of the buffer. A pass that goes on after a non-empty read window has advanced the file, without passing its end |
| `DatalogRead.Settle` | internal/data/datalog.go:104-123 | a pass keeps the buffer length. It returns nothing when fewer than a header's bytes are buffered, and past that only on io.EOF; returned chunks are always a complete scan of the buffered bytes. A pass that goes on did not see io.EOF, had at least a header buffered and keeps a remainder within what it read |
| `DatalogRead.SettleDecides` | internal/data/datalog.go:104-123 | with at least a header buffered, a complete scan is returned as the run and a decoder error as `Failed`, with the buffer as filled. Any other scan goes on exactly when io.EOF was not seen, carrying `total - from` bytes after a partial chunk and none after a used-up buffer. At io.EOF it returns nothing and no error |
| `DatalogRead.SettleMovesRemainder` | internal/data/datalog.go:109-119 | a pass that goes on carries at the front exactly the unfinished suffix the scan returned, or nothing after a used-up buffer, so the next read appends at its length |
| `DatalogRead.ReadLoop` | internal/data/datalog.go:95-124 | the loop as written, bounded by fuel: the buffer keeps its length and returned chunks are a slice of it |
| `DatalogRead.ReadLoopFirstPass` | internal/data/datalog.go:98-114 | when the first read leaves at least a header buffered and those bytes scan to a complete run, readFileFrom returns that run; when the decoder rejects a header, it returns the error |
| `DatalogRead.Resume` | internal/data/datalog.go:97-124 | the loop after a pass: the pass's result, or the passes after it |
| `DatalogRead.ReadLoopChecked` | internal/data/datalog.go:95-124 | the loop with an empty-window check always returns, and returned chunks are a slice of the buffer |
| `DatalogRead.ResumeChecked` | internal/data/datalog.go:97-124 | the checked loop after a pass always returns |
| `DatalogRead.Limit` | internal/data/datalog.go:78-80 | the buffer used is the shorter of the buffer and `maxSize` |
| `DatalogRead.MoveToFront` | internal/data/datalog.go:117 | the forward copy loop moves `buf[p:total]` to the front and keeps the rest |
| `DatalogRead.ReadPass` | internal/data/datalog.go:98-123 | one pass on the array, using the file, readChunksUntil and the copy, is the pass `Iterate` specifies. Bytes past `maxSize` are untouched |
| `DatalogRead.ReadFileFrom` | internal/data/datalog.go:66-125 | readFileFrom returns what `ReadLoop` specifies and never touches the buffer past `maxSize`; the file it opened is left open |
| `DatalogRead.ReadFileFromChecked` | internal/data/datalog.go:66-125 | the corrected readFileFrom returns what `ReadLoopChecked` specifies, and closes the file on return |
| `DatalogRead.FilledIsFile` | internal/data/datalog.go:98-104 | after a read, the buffered `remainderIndex + n` bytes are one stretch of the file ending at the new position |
| `DatalogRead.MovedIsFile` | internal/data/datalog.go:116-118 | moving the remainder to the front keeps it a stretch of the file, so the next read appends at offset `len(remainder)` |
| `DatalogRead.IterateKeepsFront` | internal/data/datalog.go:98-123 | a pass that goes on leaves at the front of the buffer exactly the file bytes just before the new position |
| `DatalogRead.SettleKeepsFront` | internal/data/datalog.go:109-119 | the same for the scan half of a pass |
| `DatalogRead.IterateChunksFromFile` | internal/data/datalog.go:104-114 | chunks a pass returns are a complete scan of one stretch of the file buffered at the front |
| `DatalogRead.ReadLoopChunksFromFile` | internal/data/datalog.go:95-125 | chunks readFileFrom returns come from the file: the buffer front is a stretch of the file, and scanning that stretch returns the slice |
| `DatalogRead.ResumeChunksFromFile` | internal/data/datalog.go:97-124 | the same after a pass that goes on |
| `DatalogRead.ReadLoopCheckedChunksFromFile` | internal/data/datalog.go:95-125 | the same for the corrected loop |
| `DatalogRead.ResumeCheckedChunksFromFile` | internal/data/datalog.go:97-124 | the same after a corrected pass that goes on |
| `DatalogRead.IterateLeavesUnfinished` | internal/data/datalog.go:110-119 | a pass that goes on leaves an unfinished chunk, or nothing, at the front |
| `DatalogRead.SettleLeavesUnfinished` | internal/data/datalog.go:110-119 | the same for the scan half of a pass |
| `DatalogRead.ReadLoopStalls` | internal/data/datalog.go:97-124 | once an unfinished chunk of at least a header fills the buffer to within one alignment unit, the loop as written never returns, while the checked loop returns nothing |
| `DatalogRead.CheckedAgreesWhenAsWrittenReturns` | internal/data/datalog.go:97-124 | wherever the loop as written returns, the checked loop returns the same result and buffer |
| `DatalogRead.ResumeAgrees` | internal/data/datalog.go:97-124 | the same after a pass |
| `DatalogRead.AsWrittenReturnsOrStalls` | internal/data/datalog.go:97-124 | with more passes than bytes left in the file, the loop as written either returns what the checked loop does or is stalled where the checked loop returns nothing |
| `DatalogRead.ResumeReturnsOrStalls` | internal/data/datalog.go:97-124 | the same after a pass |
| `DatalogRead.StallsAfterPass` | internal/data/datalog.go:97-124 | a pass that leaves such a chunk starts the stall |
| `DatalogRead.StallFirstPass` | internal/data/datalog.go:98-119 | in the concrete stall, the first pass fills the 4-byte buffer with the start of a longer chunk and goes on |
| `DatalogRead.StallExample` | internal/data/datalog.go:97-124 | a concrete file and buffer on which the loop as written never returns |
| `Interbroker.OpcodesDistinct` | internal/interbroker/messages.go:16-22 | the five opcodes are the distinct values 0 to 4 |
| `Interbroker.EncodeHeader` | internal/interbroker/messages.go:34-37 | writeHeader emits exactly `headerSize` = 8 bytes |
| `Interbroker.ReadHeader` | internal/interbroker/messages.go:132-136 | readHeader fails exactly on fewer than 8 bytes, with io.EOF exactly on an empty buffer |
| `Interbroker.HeaderRoundTrip` | internal/interbroker/messages.go:25-37 | readHeader recovers what writeHeader wrote (Version, StreamId, Op, BodyLength), whatever follows it |
| `Interbroker.HeaderReencodes` | internal/interbroker/messages.go:128-136 | a header read from 8 bytes writes back as those bytes |
| `Interbroker.EncodeMeta` | internal/interbroker/messages.go:39-46 | `binary.Write` of the meta emits 8+8+4+1 = 21 bytes |
| `Interbroker.ReadMeta` | internal/interbroker/messages.go:164-168 | reading the meta fails exactly when the body is shorter than the 21 encoded bytes, with io.EOF exactly on an empty body |
| `Interbroker.MetaRoundTrip` | internal/interbroker/messages.go:163-168 | SegmentId, Token, GenId and TopicLength are recovered exactly from the start of the body |
| `Interbroker.MetaReencodes` | internal/interbroker/messages.go:163-168 | a meta read from a body writes back as the body's first 21 bytes |
| `Interbroker.EncodeBody` | internal/interbroker/messages.go:86-88 | the body after the header is 21 + topic + data bytes long |
| `Interbroker.BodyLengthWith` | internal/interbroker/messages.go:65 | the uint32 sum equals the true sum when that fits and is congruent to it modulo 2^32 |
| `Interbroker.BodyLength` | internal/interbroker/messages.go:64-66 | `BodyLength()` is `dataRequestMetaSize + TopicLength + len(data)` when that fits in a uint32 |
| `Interbroker.CorrectedBodyLength` | internal/interbroker/messages.go:64-66 | the same sum with the 21-byte meta |
| `Interbroker.BodyLengthShortOfBody` | internal/interbroker/messages.go:64-66 | as written, `BodyLength()` is two less than the length of the body Marshal writes |
| `Interbroker.CorrectedBodyLengthIsBody` | internal/interbroker/messages.go:64-66 | the corrected length is the body's length |
| `Interbroker.UnmarshalDataRequestAt` | internal/interbroker/messages.go:163-180 | with the topic taken from a given offset: an error exactly when the meta cannot be read (io.EOF on an empty body) or the topic runs past the body, where Go's slice expression panics; the panic is the value `Err(SliceOutOfRange)`. Otherwise the meta is the one read, the topic is TopicLength bytes, and topic and data together are the whole body from the offset, unvalidated |
| `Interbroker.UnmarshalDataRequest` | internal/interbroker/messages.go:170-177 | as written, the topic and data are the body from offset 19 |
| `Interbroker.CorrectedUnmarshalDataRequest` | internal/interbroker/messages.go:170-177 | corrected, the topic and data are the body from offset 21 |
| `Interbroker.UnmarshalAtRoundTripIff` | internal/interbroker/messages.go:163-180 | a marshalled body unmarshals back to its request if and only if the topic offset is 21 |
| `Interbroker.UnmarshalShiftsPayload` | internal/interbroker/messages.go:170-176 | as written, the meta survives, but the data comes back two bytes longer and the request differs |
| `Interbroker.CorrectedBodyRoundTrip` | internal/interbroker/messages.go:163-180 | corrected, every request comes back whole, and so does its TopicDataId |
| `Interbroker.TopicId` | internal/interbroker/messages.go:91-97 | a request's TopicDataId is its topic name, meta token and meta generation; its properties after a round trip are stated by `TopicIdAsWritten` and `CorrectedBodyRoundTrip` |
| `Interbroker.TopicIdAsWritten` | internal/interbroker/messages.go:91-97 | as written, the TopicDataId keeps its token and generation but its name is read from offset 19 |
| `Interbroker.CorrectedFrameRoundTrip` | internal/interbroker/messages.go:84-89 | a header with the corrected length followed by the body reads back as that header and request, whatever follows |
| `Interbroker.AsWrittenFrameShiftsPayload` | internal/interbroker/messages.go:64-66 | as written, a peer reading the header and then `BodyLength()` bytes gets the meta intact and data of the sent length, taken from the body two bytes early |
| `Interbroker.AsWrittenFrameLosesShortRequest` | internal/interbroker/messages.go:64-66 | as written, a request with one data byte and no topic announces a 20-byte body, which is too short to hold the meta |
| `Interbroker.NewErrorResponse` | internal/interbroker/messages.go:108-110 | an error response answers the stream of the request header |
| `Interbroker.ResponseHeader` | internal/interbroker/messages.go:113-150 | responses carry version 1 and their stream. An error carries errorOp and its message length; an empty response carries its op and length 0 |
| `Interbroker.EncodeResponse` | internal/interbroker/messages.go:113-150 | an error response is its header then its message; an empty response is its header alone |
| `Interbroker.UnmarshallResponse` | internal/interbroker/messages.go:152-160 | errorOp gives an error response with the body as message; any other op gives an empty response keeping StreamId and Op |
| `Interbroker.ResponseRoundTrip` | internal/interbroker/messages.go:113-160 | a marshalled error or empty response reads back as itself: header, then a body of the announced length |
| `Interbroker.EmptyErrorOpReadsAsError` | internal/interbroker/messages.go:152-155 | an empty response sent with errorOp reads back as an error with an empty message |
| `Interbroker.Writer.constructor` | internal/interbroker/messages.go:84 | a writer starts with nothing written |
| `Interbroker.Writer.Write` | internal/interbroker/messages.go:87-88 | a write appends its bytes |
| `Interbroker.WriteHeader` | internal/interbroker/messages.go:128-130 | writeHeader appends the encoded header |
| `Interbroker.MarshalDataRequest` | internal/interbroker/messages.go:84-89 | Marshal appends the header, the meta (SegmentId, Token, GenId, TopicLength), the topic and the data, in that order |
| `Interbroker.MarshalErrorResponse` | internal/interbroker/messages.go:113-126 | errorResponse.Marshal appends its header and message |
| `Interbroker.MarshalEmptyResponse` | internal/interbroker/messages.go:143-150 | emptyResponse.Marshal appends only its header |

## Left out

- File system and configuration (`os.OpenFile`, `conf.DatalogPath`, `conf.SegmentFileName`, the read flags). The file is a byte sequence.
- `tryReadIndexFile` is not part of this model. The file offset it finds is a parameter.
- I/O errors. Opening, seeking and reading never fail, so the `return nil, err` paths after them are not modelled. The `readChunksUntil` error path is modelled (`Failed`).
- The memory alignment that O_DIRECT demands of the buffer's address. Only the length alignment is modelled.
- A negative `maxSize`, which makes Go's slice expression panic. `maxSize` is a `nat`.
- Logging and the debug `fmt.Println`.
- DatalogRead.ReadLoop: the loop as written need not terminate, so its specification is bounded by fuel. `OutOfFuel` means that it has not returned within that many passes. `ReadFileFrom` is proved against it for any fuel.
- The stream-buffer pool (`StreamBuffer`, `ReleaseStreamBuffer`, `NewDatalog`). It exists for concurrency and backpressure.
- The request lifecycle: the response and append-result channels, the context, `SetResult`. `DataBlock`, `SegmentId` and `Replication` are plain getters (the latter returns nil); the first two are fields of `DataRequest`.
- `io.Writer` failures. Every write succeeds, so the error returns of the `Marshal` methods are not modelled.
- Go strings are their UTF-8 bytes, with no conversion modelled.
- `types.Token` is not part of this model; its definition lies outside the modelled files. The model takes it to be an int64, written as 8 bytes in the metadata block.
- Interbroker.UnmarshalDataRequestAt: Go panics when the topic runs past the body (internal/interbroker/messages.go:171). The model returns the error value `SliceOutOfRange` instead and does not model the panic unwinding.
- Interbroker.ReadHeader: on failure Go also returns a zero-valued header; the model returns only the error.
- DatalogRead.ReadCount: reads are modelled as full up to the end of the file. Go's `os.File.Read` may return fewer bytes before the end with no error (it caps one read at 1 GiB); that short read is not modelled.
- The peer that reads messages off a connection is not part of this model. The round-trip lemmas state what it does: read the header, then `BodyLength` bytes.

## Findings

| source | as written | input that shows it | evidently intended | confidence | as-written member | corrected member |
|---|---|---|---|---|---|---|
| internal/interbroker/messages.go:48-51 | `dataRequestMetaSize` counts `GenId` as 2 bytes (19 in all), so `unmarshalDataRequest` slices the topic from offset 19. The encoded meta is 21 bytes, because `GenId` is a uint32 | any well-formed request, e.g. `DataRequest(Meta(0, 0, 0, 0), [], [])`. Unmarshalling the whole body reads the last two meta bytes back as topic or data, so the data comes back two bytes longer than sent. A peer that reads only `BodyLength()` bytes gets data of the sent length, shifted two bytes early | the topic starts at offset 21, right after the encoded meta | high; not executed | `Interbroker.UnmarshalShiftsPayload` | `Interbroker.CorrectedBodyRoundTrip` |
| internal/interbroker/messages.go:64-66 | `BodyLength()` also counts the meta as 19 bytes, two short of the body `Marshal` writes | `DataRequest(Meta(0, 0, 0, 0), [], [7])`: its header announces 20 body bytes, which cannot even hold the 21-byte meta | 21 + TopicLength + len(data) | high; not executed | `Interbroker.AsWrittenFrameLosesShortRequest` | `Interbroker.CorrectedFrameRoundTrip` |
| internal/data/datalog.go:97-124 | the loop reads `alignBuffer(buf[remainderIndex:])`, which is empty once the remainder fills the buffer to within one alignment unit. A read of 0 bytes reports no io.EOF, so the same unfinished chunk is scanned forever | header size 1, alignment 4, every header announcing a 16-byte body, a 4-byte buffer, an 8-byte file of zeros | stop and return nothing when no byte can be read | high; not executed | `DatalogRead.StallExample` | `DatalogRead.ReadLoopChecked` |
| internal/data/datalog.go:64-66 | the doc comment promises to close the file handle, but no path calls `Close` | any call | the file is closed on every return | high; not executed | `DatalogRead.ReadFileFrom` | `DatalogRead.ReadFileFromChecked` |
