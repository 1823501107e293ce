/** The inter-broker wire framing of internal/interbroker/messages.go: an
    8-byte message header, the replication data request (a fixed-layout
    metadata block, the topic name and the raw chunk payload) and the error
    and empty responses.  Go's `binary.Write`/`binary.Read` of a struct are
    the explicit field codecs of Endian; the byte order is a parameter.  An
    `io.Writer` is a Writer object whose written bytes grow by appends, and
    a Go string is its bytes. */
module Interbroker {
  import opened Primitives
  import opened Endian

  // ---------------------------------------------------------------------
  // Header and opcodes

  /** The opcodes, numbered by `iota` from 0. */
  const StartupOp: uint8 := 0
  const ReadyOp: uint8 := 1
  const ErrorOp: uint8 := 2
  const DataOp: uint8 := 3
  const DataResponseOp: uint8 := 4

  /** The five opcodes are the distinct values 0 to 4. */
  lemma OpcodesDistinct()
    ensures [StartupOp, ReadyOp, ErrorOp, DataOp, DataResponseOp] == [0, 1, 2, 3, 4]
    ensures forall i, j :: 0 <= i < j < 5 ==>
      [StartupOp, ReadyOp, ErrorOp, DataOp, DataResponseOp][i] != [StartupOp, ReadyOp, ErrorOp, DataOp, DataResponseOp][j]
  {
  }

  /** The message header; the opcode is any uint8 on the wire. */
  datatype Header = Header(version: uint8, streamId: uint16, op: uint8, bodyLength: uint32)

  /** version + stream id + op + length. */
  const HeaderSize: nat := 1 + 2 + 1 + 4

  /** The errors `binary.Read` reports: nothing to read at all, or fewer
      bytes than the struct needs. */
  datatype ReadError = EOF | UnexpectedEOF

  /** writeHeader's bytes: the fields in declaration order. */
  function EncodeHeader(order: ByteOrder, h: Header): (r: seq<byte>)
    ensures |r| == HeaderSize
  {
    EncodeU8(order, h.version) + EncodeU16(order, h.streamId) + EncodeU8(order, h.op) + EncodeU32(order, h.bodyLength)
  }

  /** readHeader: the header in the first HeaderSize bytes, any bytes after
      them unread. */
  function ReadHeader(order: ByteOrder, buffer: seq<byte>): (r: Result<Header, ReadError>)
    ensures r.Err? <==> |buffer| < HeaderSize
    ensures r == Err(EOF) <==> |buffer| == 0
  {
    if |buffer| == 0 then Err(EOF)
    else if |buffer| < HeaderSize then Err(UnexpectedEOF)
    else Ok(Header(DecodeU8(order, buffer[0..1]), DecodeU16(order, buffer[1..3]),
                   DecodeU8(order, buffer[3..4]), DecodeU32(order, buffer[4..8])))
  }

  /** readHeader recovers what writeHeader wrote, whatever follows it. */
  lemma HeaderRoundTrip(order: ByteOrder, h: Header, rest: seq<byte>)
    ensures ReadHeader(order, EncodeHeader(order, h) + rest) == Ok(h)
  {
    var s := EncodeHeader(order, h) + rest;
    FieldRoundTrips(order, h.version, h.streamId, 0, 0);
    FieldRoundTrips(order, h.op, 0, h.bodyLength, 0);
    assert s[0..1] == EncodeU8(order, h.version);
    assert s[1..3] == EncodeU16(order, h.streamId);
    assert s[3..4] == EncodeU8(order, h.op);
    assert s[4..8] == EncodeU32(order, h.bodyLength);
  }

  /** The converse: a header read from a buffer writes back as the bytes it
      was read from, so no two headers share an encoding. */
  lemma HeaderReencodes(order: ByteOrder, buffer: seq<byte>)
    requires |buffer| >= HeaderSize
    ensures EncodeHeader(order, ReadHeader(order, buffer).value) == buffer[..HeaderSize]
  {
    FieldsReencode(order, buffer[0..1]);
    FieldsReencode(order, buffer[1..3]);
    FieldsReencode(order, buffer[3..4]);
    FieldsReencode(order, buffer[4..8]);
    assert buffer[..HeaderSize] == buffer[0..1] + buffer[1..3] + buffer[3..4] + buffer[4..8];
  }

  // ---------------------------------------------------------------------
  // Data requests

  /** dataRequestMeta; the ownership token is an int64. */
  datatype Meta = Meta(segmentId: int64, token: int64, genId: uint32, topicLength: uint8)

  /** dataRequestMetaSize as declared: it counts the genId as 2 bytes. */
  const DataRequestMetaSize: nat := 8 + 8 + 2 + 1

  /** The bytes `binary.Write` emits for a Meta: genId is a uint32. */
  const EncodedMetaSize: nat := 8 + 8 + 4 + 1

  function EncodeMeta(order: ByteOrder, m: Meta): (r: seq<byte>)
    ensures |r| == EncodedMetaSize
  {
    EncodeI64(order, m.segmentId) + EncodeI64(order, m.token) + EncodeU32(order, m.genId) + EncodeU8(order, m.topicLength)
  }

  /** `binary.Read` of a Meta from the start of a body. */
  function ReadMeta(order: ByteOrder, body: seq<byte>): (r: Result<Meta, ReadError>)
    ensures r.Err? <==> |body| < EncodedMetaSize
    ensures r == Err(EOF) <==> |body| == 0
  {
    if |body| == 0 then Err(EOF)
    else if |body| < EncodedMetaSize then Err(UnexpectedEOF)
    else Ok(Meta(DecodeI64(order, body[0..8]), DecodeI64(order, body[8..16]),
                 DecodeU32(order, body[16..20]), DecodeU8(order, body[20..21])))
  }

  /** The meta fields are recovered exactly from the start of the body. */
  lemma MetaRoundTrip(order: ByteOrder, m: Meta, rest: seq<byte>)
    ensures ReadMeta(order, EncodeMeta(order, m) + rest) == Ok(m)
  {
    var s := EncodeMeta(order, m) + rest;
    FieldRoundTrips(order, m.topicLength, 0, m.genId, m.segmentId);
    FieldRoundTrips(order, 0, 0, 0, m.token);
    assert s[0..8] == EncodeI64(order, m.segmentId);
    assert s[8..16] == EncodeI64(order, m.token);
    assert s[16..20] == EncodeU32(order, m.genId);
    assert s[20..21] == EncodeU8(order, m.topicLength);
  }

  /** The converse: a meta read from a body writes back as its first bytes. */
  lemma MetaReencodes(order: ByteOrder, body: seq<byte>)
    requires |body| >= EncodedMetaSize
    ensures EncodeMeta(order, ReadMeta(order, body).value) == body[..EncodedMetaSize]
  {
    FieldsReencode(order, body[0..8]);
    FieldsReencode(order, body[8..16]);
    FieldsReencode(order, body[16..20]);
    FieldsReencode(order, body[20..21]);
    assert body[..EncodedMetaSize] == body[0..8] + body[8..16] + body[16..20] + body[20..21];
  }

  /** dataRequest without its channels and context: the meta, the topic
      name and the raw payload. */
  datatype DataRequest = DataRequest(meta: Meta, topic: seq<byte>, data: seq<byte>)

  /** The callers set TopicLength to the length of the topic name. */
  predicate WellFormed(r: DataRequest) {
    r.meta.topicLength == |r.topic|
  }

  /** The message body Marshal writes after the header. */
  function EncodeBody(order: ByteOrder, r: DataRequest): (b: seq<byte>)
    ensures |b| == EncodedMetaSize + |r.topic| + |r.data|
  {
    EncodeMeta(order, r.meta) + r.topic + r.data
  }

  /** The uint32 sum BodyLength computes, with the meta counted as
      `metaSize` bytes: each operand is converted to uint32 (the payload
      length truncated) and the sum wraps. */
  function BodyLengthWith(metaSize: nat, r: DataRequest): (n: uint32)
    ensures metaSize + r.meta.topicLength + |r.data| < TwoTo32 ==> n == metaSize + r.meta.topicLength + |r.data|
    ensures (n - (metaSize + r.meta.topicLength + |r.data|)) % TwoTo32 == 0
  {
    var total := metaSize + r.meta.topicLength + Wrap32(|r.data|);
    assert (total - (metaSize + r.meta.topicLength + |r.data|)) % TwoTo32 == 0;
    Wrap32(total)
  }

  /** dataRequest.BodyLength as written, with dataRequestMetaSize. */
  function BodyLength(r: DataRequest): (n: uint32)
    ensures DataRequestMetaSize + r.meta.topicLength + |r.data| < TwoTo32 ==>
      n == DataRequestMetaSize + r.meta.topicLength + |r.data|
  {
    BodyLengthWith(DataRequestMetaSize, r)
  }

  /** BodyLength counting the meta as the bytes actually written. */
  function CorrectedBodyLength(r: DataRequest): (n: uint32)
    ensures EncodedMetaSize + r.meta.topicLength + |r.data| < TwoTo32 ==>
      n == EncodedMetaSize + r.meta.topicLength + |r.data|
  {
    BodyLengthWith(EncodedMetaSize, r)
  }

  /** As written, BodyLength falls two bytes short of the body Marshal
      writes, so a reader taking BodyLength bytes after the header loses the
      body's last two bytes. */
  lemma BodyLengthShortOfBody(order: ByteOrder, r: DataRequest)
    requires WellFormed(r) && EncodedMetaSize + |r.topic| + |r.data| < TwoTo32
    ensures BodyLength(r) + 2 == |EncodeBody(order, r)|
  {
  }

  /** The corrected length is the length of the body. */
  lemma CorrectedBodyLengthIsBody(order: ByteOrder, r: DataRequest)
    requires WellFormed(r) && EncodedMetaSize + |r.topic| + |r.data| < TwoTo32
    ensures CorrectedBodyLength(r) == |EncodeBody(order, r)|
  {
  }

  /** The TopicDataId of a request: topic name, token and generation. */
  datatype TopicDataId = TopicDataId(name: seq<byte>, token: int64, genId: uint32)

  function TopicId(r: DataRequest): TopicDataId {
    TopicDataId(r.topic, r.meta.token, r.meta.genId)
  }

  /** What unmarshalDataRequest can fail with: binary.Read's error for the
      meta, or the panic of Go's slice expression when the topic runs past
      the end of the body. */
  datatype UnmarshalError = MetaError(cause: ReadError) | SliceOutOfRange

  /** unmarshalDataRequest with the topic taken to start at `index`: the
      meta from the start of the body, then TopicLength bytes of topic, then
      every byte after them as data, with no check of the payload. */
  function UnmarshalDataRequestAt(order: ByteOrder, body: seq<byte>, index: nat): (r: Result<DataRequest, UnmarshalError>)
    ensures r.Err? <==> |body| < EncodedMetaSize || index + body[EncodedMetaSize - 1] > |body|
    ensures r == Err(MetaError(EOF)) <==> |body| == 0
    ensures r == Err(MetaError(UnexpectedEOF)) <==> 0 < |body| < EncodedMetaSize
    ensures r.Ok? ==> && r.value.meta == ReadMeta(order, body).value
                      && |r.value.topic| == r.value.meta.topicLength
                      && r.value.topic + r.value.data == body[index..]
  {
    match ReadMeta(order, body)
    case Err(e) => Err(MetaError(e))
    case Ok(meta) =>
      assert [body[20]] == body[20..21];
      FieldsReencode(order, body[20..21]);
      FieldRoundTrips(order, body[20], 0, 0, 0);
      if index + meta.topicLength > |body| then Err(SliceOutOfRange)
      else
        var topic := body[index..index + meta.topicLength];
        var data := body[index + meta.topicLength..];
        assert topic + data == body[index..];
        Ok(DataRequest(meta, topic, data))
  }

  /** unmarshalDataRequest as written, with the topic at dataRequestMetaSize. */
  function UnmarshalDataRequest(order: ByteOrder, body: seq<byte>): (r: Result<DataRequest, UnmarshalError>)
    ensures r.Ok? ==> |body| >= EncodedMetaSize && r.value.topic + r.value.data == body[DataRequestMetaSize..]
  {
    UnmarshalDataRequestAt(order, body, DataRequestMetaSize)
  }

  /** unmarshalDataRequest with the topic right after the encoded meta. */
  function CorrectedUnmarshalDataRequest(order: ByteOrder, body: seq<byte>): (r: Result<DataRequest, UnmarshalError>)
    ensures r.Ok? ==> |body| >= EncodedMetaSize && r.value.topic + r.value.data == body[EncodedMetaSize..]
  {
    UnmarshalDataRequestAt(order, body, EncodedMetaSize)
  }

  /** A marshalled body unmarshals back to its request exactly when the
      topic is taken to start at the encoded meta size. */
  lemma UnmarshalAtRoundTripIff(order: ByteOrder, r: DataRequest, index: nat)
    requires WellFormed(r)
    ensures UnmarshalDataRequestAt(order, EncodeBody(order, r), index) == Ok(r) <==> index == EncodedMetaSize
  {
    var body := EncodeBody(order, r);
    MetaRoundTrip(order, r.meta, r.topic + r.data);
    assert body == EncodeMeta(order, r.meta) + (r.topic + r.data);
    var u := UnmarshalDataRequestAt(order, body, index);
    if index == EncodedMetaSize {
      assert body[index..] == r.topic + r.data;
      assert u.Ok?;
      assert u.value.topic == (r.topic + r.data)[..|r.topic|];
      assert u.value.data == (r.topic + r.data)[|r.topic|..];
    } else if u.Ok? {
      assert |u.value.topic| + |u.value.data| == |body| - index;
    }
  }

  /** As written the meta survives but the payload does not: the topic and
      data are read two bytes early, so the data is two bytes longer. */
  lemma UnmarshalShiftsPayload(order: ByteOrder, r: DataRequest)
    requires WellFormed(r)
    ensures var u := UnmarshalDataRequest(order, EncodeBody(order, r));
      && u.Ok? && u.value.meta == r.meta
      && |u.value.data| == |r.data| + 2
      && u.value.topic + u.value.data == EncodeBody(order, r)[DataRequestMetaSize..]
      && u.value != r
  {
    UnmarshalAtRoundTripIff(order, r, DataRequestMetaSize);
    var body := EncodeBody(order, r);
    MetaRoundTrip(order, r.meta, r.topic + r.data);
    assert body == EncodeMeta(order, r.meta) + (r.topic + r.data);
    assert DataRequestMetaSize + r.meta.topicLength <= |body|;
    var u := UnmarshalDataRequestAt(order, body, DataRequestMetaSize);
    assert u.Ok?;
    assert |u.value.topic| + |u.value.data| == |body| - DataRequestMetaSize;
  }

  /** With the corrected offset every request comes back whole, so its
      TopicDataId, which keys the replica's files, is kept. */
  lemma CorrectedBodyRoundTrip(order: ByteOrder, r: DataRequest)
    requires WellFormed(r)
    ensures CorrectedUnmarshalDataRequest(order, EncodeBody(order, r)) == Ok(r)
    ensures TopicId(CorrectedUnmarshalDataRequest(order, EncodeBody(order, r)).value) == TopicId(r)
  {
    UnmarshalAtRoundTripIff(order, r, EncodedMetaSize);
  }

  /** As written, the token and generation of the TopicDataId arrive intact
      while its name is read starting two bytes early. */
  lemma TopicIdAsWritten(order: ByteOrder, r: DataRequest)
    requires WellFormed(r)
    ensures var u := UnmarshalDataRequest(order, EncodeBody(order, r)).value;
      && TopicId(u).token == r.meta.token && TopicId(u).genId == r.meta.genId
      && TopicId(u).name == EncodeBody(order, r)[DataRequestMetaSize..DataRequestMetaSize + |r.topic|]
  {
    UnmarshalShiftsPayload(order, r);
  }

  /** A whole data message as a peer reads it: the header, then BodyLength
      bytes of body.  With the corrected length and offset the request comes
      back whole, whatever follows on the connection. */
  lemma CorrectedFrameRoundTrip(order: ByteOrder, version: uint8, streamId: uint16, r: DataRequest, rest: seq<byte>)
    requires WellFormed(r) && EncodedMetaSize + |r.topic| + |r.data| < TwoTo32
    ensures var h := Header(version, streamId, DataOp, CorrectedBodyLength(r));
      var bytes := EncodeHeader(order, h) + EncodeBody(order, r) + rest;
      && ReadHeader(order, bytes) == Ok(h)
      && HeaderSize + h.bodyLength <= |bytes|
      && CorrectedUnmarshalDataRequest(order, bytes[HeaderSize..HeaderSize + h.bodyLength]) == Ok(r)
  {
    var h := Header(version, streamId, DataOp, CorrectedBodyLength(r));
    var body := EncodeBody(order, r);
    var bytes := EncodeHeader(order, h) + body + rest;
    HeaderRoundTrip(order, h, body + rest);
    assert EncodeHeader(order, h) + body + rest == EncodeHeader(order, h) + (body + rest);
    assert bytes[HeaderSize..HeaderSize + h.bodyLength] == body;
    CorrectedBodyRoundTrip(order, r);
  }

  /** As written, a request whose topic and data together are shorter than
      two bytes cannot be read back at all: the body the header announces
      is shorter than the meta block. */
  lemma AsWrittenFrameLosesShortRequest(order: ByteOrder, version: uint8, streamId: uint16, rest: seq<byte>)
    ensures var r := DataRequest(Meta(0, 0, 0, 0), [], [7]);
      var h := Header(version, streamId, DataOp, BodyLength(r));
      var bytes := EncodeHeader(order, h) + EncodeBody(order, r) + rest;
      && ReadHeader(order, bytes) == Ok(h)
      && UnmarshalDataRequest(order, bytes[HeaderSize..HeaderSize + h.bodyLength]) == Err(MetaError(UnexpectedEOF))
  {
    var r := DataRequest(Meta(0, 0, 0, 0), [], [7]);
    var h := Header(version, streamId, DataOp, BodyLength(r));
    var body := EncodeBody(order, r);
    HeaderRoundTrip(order, h, body + rest);
    assert EncodeHeader(order, h) + body + rest == EncodeHeader(order, h) + (body + rest);
    assert h.bodyLength == 20;
  }

  /** As written, a peer that reads the header and then BodyLength() bytes
      gets the meta intact and data of the length sent, but the topic and
      data are the body's bytes two places early: they end two bytes before
      the body does. */
  lemma AsWrittenFrameShiftsPayload(order: ByteOrder, version: uint8, streamId: uint16, r: DataRequest, rest: seq<byte>)
    requires WellFormed(r) && 2 <= |r.topic| + |r.data|
    requires EncodedMetaSize + |r.topic| + |r.data| < TwoTo32
    ensures var h := Header(version, streamId, DataOp, BodyLength(r));
      var body := EncodeBody(order, r);
      var bytes := EncodeHeader(order, h) + body + rest;
      && ReadHeader(order, bytes) == Ok(h)
      && HeaderSize + h.bodyLength <= |bytes|
      && var u := UnmarshalDataRequest(order, bytes[HeaderSize..HeaderSize + h.bodyLength]);
      && u.Ok? && u.value.meta == r.meta && |u.value.data| == |r.data|
      && u.value.topic + u.value.data == body[DataRequestMetaSize..|body| - 2]
  {
    var h := Header(version, streamId, DataOp, BodyLength(r));
    var body := EncodeBody(order, r);
    var bytes := EncodeHeader(order, h) + body + rest;
    HeaderRoundTrip(order, h, body + rest);
    assert EncodeHeader(order, h) + body + rest == EncodeHeader(order, h) + (body + rest);
    var sent := bytes[HeaderSize..HeaderSize + h.bodyLength];
    assert sent == body[..|body| - 2];
    assert body == EncodeMeta(order, r.meta) + (r.topic + r.data);
    MetaRoundTrip(order, r.meta, (r.topic + r.data)[..|r.topic| + |r.data| - 2]);
    assert sent == EncodeMeta(order, r.meta) + (r.topic + r.data)[..|r.topic| + |r.data| - 2];
    assert sent[DataRequestMetaSize..] == body[DataRequestMetaSize..|body| - 2];
  }

  // ---------------------------------------------------------------------
  // Responses

  /** errorResponse and emptyResponse. */
  datatype Response =
    | ErrorResponse(message: seq<byte>, streamId: uint16)
    | EmptyResponse(streamId: uint16, op: uint8)

  /** newErrorResponse: the error answers the request's stream. */
  function NewErrorResponse(message: seq<byte>, requestHeader: Header): (r: Response)
    ensures r.ErrorResponse? && r.message == message && r.streamId == requestHeader.streamId
  {
    ErrorResponse(message, requestHeader.streamId)
  }

  /** The header a response's Marshal writes: version 1; an error carries
      its message's length (as uint32) and errorOp, an empty response its op
      and no body. */
  function ResponseHeader(r: Response): (h: Header)
    ensures h.version == 1 && h.streamId == r.streamId
    ensures r.ErrorResponse? ==> h.op == ErrorOp && (|r.message| < TwoTo32 ==> h.bodyLength == |r.message|)
    ensures r.EmptyResponse? ==> h.op == r.op && h.bodyLength == 0
  {
    match r
    case ErrorResponse(message, streamId) => Header(1, streamId, ErrorOp, Wrap32(|message|))
    case EmptyResponse(streamId, op) => Header(1, streamId, op, 0)
  }

  /** The bytes a response's Marshal writes. */
  function EncodeResponse(order: ByteOrder, r: Response): (b: seq<byte>)
    ensures |b| >= HeaderSize && b[..HeaderSize] == EncodeHeader(order, ResponseHeader(r))
    ensures r.ErrorResponse? ==> b[HeaderSize..] == r.message
    ensures r.EmptyResponse? ==> |b| == HeaderSize
  {
    EncodeHeader(order, ResponseHeader(r)) + (if r.ErrorResponse? then r.message else [])
  }

  /** unmarshallResponse: errorOp gives an error response carrying the body
      as its message; any other op an empty response with the header's
      stream and op. */
  function UnmarshallResponse(h: Header, body: seq<byte>): (r: Response)
    ensures r.streamId == h.streamId
    ensures r.ErrorResponse? <==> h.op == ErrorOp
    ensures r.ErrorResponse? ==> r.message == body
    ensures r.EmptyResponse? ==> r.op == h.op
  {
    if h.op == ErrorOp then NewErrorResponse(body, h)
    else EmptyResponse(h.streamId, h.op)
  }

  /** A marshalled response reads back as itself: the header, then the body
      of the length it announces.  An error message must fit the uint32
      length, and an empty response must not use errorOp. */
  lemma ResponseRoundTrip(order: ByteOrder, r: Response, rest: seq<byte>)
    requires r.ErrorResponse? ==> |r.message| < TwoTo32
    requires r.EmptyResponse? ==> r.op != ErrorOp
    ensures var bytes := EncodeResponse(order, r) + rest;
      var h := ReadHeader(order, bytes);
      && h == Ok(ResponseHeader(r))
      && HeaderSize + h.value.bodyLength <= |bytes|
      && UnmarshallResponse(h.value, bytes[HeaderSize..HeaderSize + h.value.bodyLength]) == r
  {
    var h := ResponseHeader(r);
    var body := if r.ErrorResponse? then r.message else [];
    HeaderRoundTrip(order, h, body + rest);
    assert EncodeResponse(order, r) + rest == EncodeHeader(order, h) + (body + rest);
    assert (EncodeResponse(order, r) + rest)[HeaderSize..HeaderSize + h.bodyLength] == body;
  }

  /** An empty response sent with errorOp comes back as an error response
      with an empty message. */
  lemma EmptyErrorOpReadsAsError(order: ByteOrder, streamId: uint16)
    ensures var bytes := EncodeResponse(order, EmptyResponse(streamId, ErrorOp));
      && ReadHeader(order, bytes).Ok?
      && UnmarshallResponse(ReadHeader(order, bytes).value, []) == ErrorResponse([], streamId)
  {
    var h := ResponseHeader(EmptyResponse(streamId, ErrorOp));
    HeaderRoundTrip(order, h, []);
    assert EncodeResponse(order, EmptyResponse(streamId, ErrorOp)) == EncodeHeader(order, h) + [];
  }

  // ---------------------------------------------------------------------
  // Writers

  /** An io.Writer that accepts every write: the bytes written so far. */
  class Writer {
    var written: seq<byte>

    constructor()
      ensures written == []
    {
      written := [];
    }

    method Write(data: seq<byte>)
      modifies this
      ensures written == old(written) + data
    {
      written := written + data;
    }
  }

  /** writeHeader. */
  method WriteHeader(w: Writer, order: ByteOrder, h: Header)
    modifies w
    ensures w.written == old(w.written) + EncodeHeader(order, h)
  {
    w.Write(EncodeHeader(order, h));
  }

  /** dataRequest.Marshal: the header, the meta, the topic, the data, in
      that order. */
  method MarshalDataRequest(w: Writer, order: ByteOrder, r: DataRequest, h: Header)
    modifies w
    ensures w.written == old(w.written) + EncodeHeader(order, h) + EncodeMeta(order, r.meta) + r.topic + r.data
    ensures w.written == old(w.written) + EncodeHeader(order, h) + EncodeBody(order, r)
  {
    WriteHeader(w, order, h);
    w.Write(EncodeMeta(order, r.meta));
    w.Write(r.topic);
    w.Write(r.data);
  }

  /** errorResponse.Marshal. */
  method MarshalErrorResponse(w: Writer, order: ByteOrder, message: seq<byte>, streamId: uint16)
    modifies w
    ensures w.written == old(w.written) + EncodeResponse(order, ErrorResponse(message, streamId))
  {
    WriteHeader(w, order, Header(1, streamId, ErrorOp, Wrap32(|message|)));
    w.Write(message);
  }

  /** emptyResponse.Marshal. */
  method MarshalEmptyResponse(w: Writer, order: ByteOrder, streamId: uint16, op: uint8)
    modifies w
    ensures w.written == old(w.written) + EncodeResponse(order, EmptyResponse(streamId, op))
  {
    WriteHeader(w, order, Header(1, streamId, op, 0));
  }
}
