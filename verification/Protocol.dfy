// Requests, responses and the frames that carry them: MetaHeader | Header | Body.

module Protocol {
  import opened Options
  import opened Wire
  import opened Messages

  const INT_MAX: int := 0x7FFF_FFFF

  datatype Request =
    | AddVar(variable: SaveVariable)
    | SaveVal(value: SaveValue)
    | GetVals(query: GetValues)
    | GetVars

  datatype Response =
    | StatusReply(failure: Failure)
    | ValuesReply(values: seq<VarValue>)
    | VariablesReply(variables: seq<SaveVariable>)

  // ---------- Frames ----------

  /** A size as a std::size_t. */
  function SizeT(n: nat): U64 {
    if n < TWO_TO_64 then n else n % TWO_TO_64
  }

  /** What precedes a body of the given type and size. */
  function HeaderPart(t: MessageType, size: nat): Bytes {
    EncodeHeader(Header(t, SizeT(size)))
  }

  function MetaPart(t: MessageType, size: nat): Bytes {
    EncodeMetaHeader(MetaHeader(SizeT(|HeaderPart(t, size)|)))
  }

  /** The size that a reader probes for, `mh_size`. */
  function MetaSize(): nat {
    |EncodeMetaHeader(MetaHeader(1))|
  }

  lemma HeaderPrefix(t: MessageType, size: nat)
    ensures |HeaderPart(t, size)| == 11
    ensures DecodeHeader(HeaderPart(t, size)) == Some(Header(t, SizeT(size)))
  {
    HeaderRoundTrip(Header(t, SizeT(size)));
  }

  /** Both prefixes have one size for every frame, which the probe and the meta header announce. */
  lemma FramePrefix(t: MessageType, size: nat)
    ensures |MetaPart(t, size)| == MetaSize() == 9 && |HeaderPart(t, size)| == 11
    ensures MetaPart(t, size) == [0x09, 11, 0, 0, 0, 0, 0, 0, 0]
    ensures DecodeMetaHeader(MetaPart(t, size)) == Some(MetaHeader(11))
    ensures DecodeHeader(HeaderPart(t, size)) == Some(Header(t, SizeT(size)))
  {
    HeaderPrefix(t, size);
    MetaHeaderRoundTrip(MetaHeader(11));
    KnownMetaHeader(11);
    ProbedSize();
  }

  // ---------- Requests ----------

  predicate IsRequestType(t: MessageType) {
    t.REQUEST_ADD_VAR? || t.REQUEST_SAVE_VALUE? || t.REQUEST_GET_VALUES? || t.REQUEST_GET_VARIABLES?
  }

  type RequestKind = t: MessageType | IsRequestType(t) witness REQUEST_ADD_VAR

  function RequestType(r: Request): RequestKind {
    match r
    case AddVar(_) => REQUEST_ADD_VAR
    case SaveVal(_) => REQUEST_SAVE_VALUE
    case GetVals(_) => REQUEST_GET_VALUES
    case GetVars => REQUEST_GET_VARIABLES
  }

  function RequestBody(r: Request): Bytes {
    match r
    case AddVar(v) => EncodeSaveVariable(v)
    case SaveVal(v) => EncodeSaveValue(v)
    case GetVals(q) => EncodeGetValues(q)
    case GetVars => []
  }

  function DecodeRequest(t: RequestKind, body: Bytes): Option<Request> {
    match t
    case REQUEST_ADD_VAR =>
      (match DecodeSaveVariable(body) case None => None case Some(v) => Some(AddVar(v)))
    case REQUEST_SAVE_VALUE =>
      (match DecodeSaveValue(body) case None => None case Some(v) => Some(SaveVal(v)))
    case REQUEST_GET_VALUES =>
      (match DecodeGetValues(body) case None => None case Some(q) => Some(GetVals(q)))
    case REQUEST_GET_VARIABLES => Some(GetVars)
  }

  lemma RequestRoundTrip(r: Request)
    requires |RequestBody(r)| <= INT_MAX
    ensures DecodeRequest(RequestType(r), RequestBody(r)) == Some(r)
  {
    match r
    case AddVar(v) => SaveVariableRoundTrip(v);
    case SaveVal(v) => SaveValueRoundTrip(v);
    case GetVals(q) => GetValuesRoundTrip(q);
    case GetVars =>
  }

  // ---------- Responses ----------

  type ResponseKind = t: MessageType | !IsRequestType(t) witness RESPONSE_FAILURE

  function ResponseType(r: Response): ResponseKind {
    match r
    case StatusReply(_) => RESPONSE_FAILURE
    case ValuesReply(_) => RESPONSE_VALUES
    case VariablesReply(_) => RESPONSE_VARIABLES
  }

  function ResponseBody(r: Response): Bytes {
    match r
    case StatusReply(f) => EncodeFailure(f)
    case ValuesReply(vs) => EncodeValues(vs)
    case VariablesReply(vs) => EncodeVariables(vs)
  }

  function DecodeResponse(t: ResponseKind, body: Bytes): Option<Response> {
    match t
    case RESPONSE_FAILURE =>
      (match DecodeFailure(body) case None => None case Some(f) => Some(StatusReply(f)))
    case RESPONSE_VALUES =>
      (match DecodeValues(body) case None => None case Some(vs) => Some(ValuesReply(vs)))
    case RESPONSE_VARIABLES =>
      (match DecodeVariables(body) case None => None case Some(vs) => Some(VariablesReply(vs)))
  }

  /** A response is decoded to itself, and only an empty list has an empty body. */
  lemma ResponseRoundTrip(r: Response)
    requires |ResponseBody(r)| <= INT_MAX
    ensures DecodeResponse(ResponseType(r), ResponseBody(r)) == Some(r)
    ensures r.ValuesReply? ==> (ResponseBody(r) == [] <==> r.values == [])
    ensures r.VariablesReply? ==> (ResponseBody(r) == [] <==> r.variables == [])
  {
    match r
    case StatusReply(f) => FailureRoundTrip(f);
    case ValuesReply(vs) => ValuesRoundTrip(vs);
    case VariablesReply(vs) => VariablesRoundTrip(vs);
  }

  // ---------- The encoding as a parameter ----------

  // A request type with any body at all.
  datatype Packet = Packet(kind: RequestKind, body: Bytes)

  /** All that the two ends need to know about the encoding: `probe` is the size of a meta header,
      `meta` and `header` are the parts before a body of a given type and size. */
  datatype Codec = Codec(probe: nat,
                         meta: (MessageType, nat) -> Bytes,
                         header: (MessageType, nat) -> Bytes,
                         request: Request -> Bytes,
                         response: Response -> Bytes,
                         readMeta: Bytes -> Option<MetaHeader>,
                         readHeader: Bytes -> Option<Header>,
                         readRequest: (RequestKind, Bytes) -> Option<Request>,
                         readResponse: (ResponseKind, Bytes) -> Option<Response>)
  {
    function Frame(t: MessageType, body: Bytes): Bytes {
      meta(t, |body|) + header(t, |body|) + body
    }

    function PacketFrame(p: Packet): Bytes {
      Frame(p.kind, p.body)
    }

    function RequestFrame(r: Request): Bytes {
      Frame(RequestType(r), request(r))
    }

    function ResponseFrame(r: Response): Bytes {
      Frame(ResponseType(r), response(r))
    }

    /** Protocol Buffers handle messages of up to INT_MAX bytes. */
    predicate Sendable(r: Request) {
      |request(r)| <= INT_MAX
    }

    /** Every meta header has the probed size and announces the size of the header, which announces
        the type and the size of the body. */
    ghost predicate ReadsPrefix(t: MessageType, size: nat) {
      && |meta(t, size)| == probe
      && 0 < |header(t, size)| <= INT_MAX
      && readMeta(meta(t, size)) == Some(MetaHeader(|header(t, size)|))
      && (size < TWO_TO_64 ==> readHeader(header(t, size)) == Some(Header(t, size)))
    }

    ghost predicate ReadsRequest(r: Request) {
      |request(r)| <= INT_MAX ==> readRequest(RequestType(r), request(r)) == Some(r)
    }

    /** A response is read as it was written, and only an empty list has an empty body. */
    ghost predicate ReadsResponse(r: Response) {
      && (|response(r)| <= INT_MAX ==> readResponse(ResponseType(r), response(r)) == Some(r))
      && (r.ValuesReply? ==> (response(r) == [] <==> r.values == []))
      && (r.VariablesReply? ==> (response(r) == [] <==> r.variables == []))
    }

    /** Whatever bytes are read as a body of some type, what is read is of that type. */
    ghost predicate KeepsRequestType(t: RequestKind, body: Bytes) {
      readRequest(t, body).Some? ==> RequestType(readRequest(t, body).value) == t
    }

    ghost predicate KeepsResponseType(t: ResponseKind, body: Bytes) {
      readResponse(t, body).Some? ==> ResponseType(readResponse(t, body).value) == t
    }

    ghost predicate Faithful() {
      && 0 < probe <= INT_MAX
      && (forall t, size: nat :: ReadsPrefix(t, size))
      && (forall r :: ReadsRequest(r))
      && (forall r :: ReadsResponse(r))
      && (forall t, body :: KeepsRequestType(t, body))
      && (forall t, body :: KeepsResponseType(t, body))
      && Sendable(GetVars)
    }
  }

  const PROTOBUF := Codec(MetaSize(), MetaPart, HeaderPart, RequestBody, ResponseBody,
                          DecodeMetaHeader, DecodeHeader, DecodeRequest, DecodeResponse)

  lemma PrefixIsRead(c: Codec, t: MessageType, size: nat, meta: Bytes, header: Bytes)
    requires c.meta(t, size) == meta && c.header(t, size) == header
    requires |meta| == c.probe && 0 < |header| <= INT_MAX
    requires c.readMeta(meta) == Some(MetaHeader(|header|)) && c.readHeader(header) == Some(Header(t, SizeT(size)))
    ensures c.ReadsPrefix(t, size)
  {
  }

  lemma ProtobufReadsPrefix(c: Codec, t: MessageType, size: nat)
    requires c.probe == MetaSize() && c.meta == MetaPart && c.header == HeaderPart
    requires c.readMeta == DecodeMetaHeader && c.readHeader == DecodeHeader
    ensures c.ReadsPrefix(t, size)
  {
    FramePrefix(t, size);
    PrefixIsRead(c, t, size, MetaPart(t, size), HeaderPart(t, size));
  }

  lemma ProtobufReadsRequest(c: Codec, r: Request)
    requires c.request == RequestBody && c.readRequest == DecodeRequest
    ensures c.ReadsRequest(r)
  {
    if |RequestBody(r)| <= INT_MAX {
      RequestRoundTrip(r);
    }
  }

  lemma ProtobufKeepsTypes(c: Codec, t: RequestKind, t': ResponseKind, body: Bytes)
    requires c.readRequest == DecodeRequest && c.readResponse == DecodeResponse
    ensures c.KeepsRequestType(t, body) && c.KeepsResponseType(t', body)
  {
  }

  lemma ProtobufReadsResponse(c: Codec, r: Response)
    requires c.response == ResponseBody && c.readResponse == DecodeResponse
    ensures c.ReadsResponse(r)
  {
    if |ResponseBody(r)| <= INT_MAX {
      ResponseRoundTrip(r);
    }
    if r.ValuesReply? && r.values != [] {
      ValuesCons(r.values);
    }
    if r.VariablesReply? && r.variables != [] {
      VariablesCons(r.variables);
    }
  }

  ghost predicate ReadsAll(c: Codec) {
    && (forall t, size: nat :: c.ReadsPrefix(t, size))
    && (forall r :: c.ReadsRequest(r))
    && (forall r :: c.ReadsResponse(r))
  }

  ghost predicate KeepsAllTypes(c: Codec) {
    && (forall t, body :: c.KeepsRequestType(t, body))
    && (forall t, body :: c.KeepsResponseType(t, body))
  }

  lemma ProtobufReadsAll(c: Codec)
    requires c.probe == MetaSize() && c.meta == MetaPart && c.header == HeaderPart
    requires c.readMeta == DecodeMetaHeader && c.readHeader == DecodeHeader
    requires c.request == RequestBody && c.readRequest == DecodeRequest
    requires c.response == ResponseBody && c.readResponse == DecodeResponse
    ensures ReadsAll(c)
  {
    forall t, size: nat
      ensures c.ReadsPrefix(t, size)
    {
      ProtobufReadsPrefix(c, t, size);
    }
    forall r
      ensures c.ReadsRequest(r)
    {
      ProtobufReadsRequest(c, r);
    }
    forall r
      ensures c.ReadsResponse(r)
    {
      ProtobufReadsResponse(c, r);
    }
  }

  lemma ProtobufKeepsAllTypes(c: Codec)
    requires c.readRequest == DecodeRequest && c.readResponse == DecodeResponse
    ensures KeepsAllTypes(c)
  {
    forall t, body
      ensures c.KeepsRequestType(t, body)
    {
      ProtobufKeepsTypes(c, t, RESPONSE_FAILURE, body);
    }
    forall t, body
      ensures c.KeepsResponseType(t, body)
    {
      ProtobufKeepsTypes(c, REQUEST_ADD_VAR, t, body);
    }
  }

  lemma AllMakeFaithful(c: Codec)
    requires SmallSizes(c)
    requires ReadsAll(c) && KeepsAllTypes(c)
    ensures c.Faithful()
  {
  }

  ghost predicate SmallSizes(c: Codec) {
    0 < c.probe <= INT_MAX && c.Sendable(GetVars)
  }

  lemma ProbeFits(c: Codec)
    requires c.probe == 9 && c.request(GetVars) == []
    ensures SmallSizes(c)
  {
  }

  lemma ProbedSize()
    ensures MetaSize() == 9
  {
    KnownMetaHeader(1);
  }

  lemma PartsMakeFaithful(c: Codec)
    requires c.probe == MetaSize() && c.meta == MetaPart && c.header == HeaderPart
    requires c.readMeta == DecodeMetaHeader && c.readHeader == DecodeHeader
    requires c.request == RequestBody && c.readRequest == DecodeRequest
    requires c.response == ResponseBody && c.readResponse == DecodeResponse
    ensures c.Faithful()
  {
    ProbedSize();
    ProbeFits(c);
    ProtobufReadsAll(c);
    ProtobufKeepsAllTypes(c);
    AllMakeFaithful(c);
  }

  /** The encoding of messages.proto has all these properties, for every message. */
  lemma ProtobufIsFaithful()
    ensures PROTOBUF.Faithful()
  {
    PartsMakeFaithful(PROTOBUF);
  }

  /** A whole frame: nine bytes of meta header, eleven of header, and the body. */
  lemma FrameBytes(t: MessageType, body: Bytes)
    requires |body| < TWO_TO_64
    ensures PROTOBUF.Frame(t, body) == [0x09, 11, 0, 0, 0, 0, 0, 0, 0] + EncodeHeader(Header(t, |body|)) + body
  {
    FramePrefix(t, |body|);
  }

  /** Which type announces which body, and all bytes of a request. */
  lemma RequestFrameBytes(r: Request, t: MessageType, body: Bytes)
    requires match r
             case AddVar(v) => t == REQUEST_ADD_VAR && body == EncodeSaveVariable(v)
             case SaveVal(v) => t == REQUEST_SAVE_VALUE && body == EncodeSaveValue(v)
             case GetVals(q) => t == REQUEST_GET_VALUES && body == EncodeGetValues(q)
             case GetVars => t == REQUEST_GET_VARIABLES && body == []
    requires |body| < TWO_TO_64
    ensures PROTOBUF.RequestFrame(r)
         == [0x09, 11, 0, 0, 0, 0, 0, 0, 0] + EncodeHeader(Header(t, |body|)) + body
  {
    assert t == RequestType(r) && body == RequestBody(r);
    FrameBytes(t, body);
  }

  lemma ResponseFrameBytes(r: Response, t: MessageType, body: Bytes)
    requires match r
             case StatusReply(f) => t == RESPONSE_FAILURE && body == EncodeFailure(f)
             case ValuesReply(vs) => t == RESPONSE_VALUES && body == EncodeValues(vs)
             case VariablesReply(vs) => t == RESPONSE_VARIABLES && body == EncodeVariables(vs)
    requires |body| < TWO_TO_64
    ensures PROTOBUF.ResponseFrame(r)
         == [0x09, 11, 0, 0, 0, 0, 0, 0, 0] + EncodeHeader(Header(t, |body|)) + body
  {
    assert t == ResponseType(r) && body == ResponseBody(r);
    FrameBytes(t, body);
  }

  // ---------- Streams of frames ----------

  /** Bytes of the front that have arrived as a whole are the front, and what remains is the back. */
  lemma TakeFront(inbox: Bytes, wire: Bytes, front: Bytes, back: Bytes)
    requires inbox + wire == front + back && |front| <= |inbox|
    ensures inbox[..|front|] == front && inbox[|front|..] + wire == back
  {
    assert inbox[..|front|] == (inbox + wire)[..|front|];
    assert inbox[|front|..] + wire == (inbox + wire)[|front|..];
  }

  function Flat(frames: seq<Bytes>): Bytes {
    if frames == [] then [] else frames[0] + Flat(frames[1..])
  }

  lemma {:induction false} FlatAppend(frames: seq<Bytes>, frame: Bytes)
    ensures Flat(frames + [frame]) == Flat(frames) + frame
  {
    if frames == [] {
      assert Flat([frame]) == frame + Flat([]);
    } else {
      assert (frames + [frame])[1..] == frames[1..] + [frame];
      FlatAppend(frames[1..], frame);
    }
  }

  function PacketFrames(codec: Codec, ps: seq<Packet>): (frames: seq<Bytes>)
    ensures |frames| == |ps|
  {
    seq(|ps|, i requires 0 <= i < |ps| => codec.PacketFrame(ps[i]))
  }

  function PacketOf(codec: Codec, r: Request): Packet {
    Packet(RequestType(r), codec.request(r))
  }

  function Packets(codec: Codec, rs: seq<Request>): (ps: seq<Packet>)
    ensures |ps| == |rs|
    ensures forall i :: 0 <= i < |rs| ==> ps[i] == PacketOf(codec, rs[i])
  {
    seq(|rs|, i requires 0 <= i < |rs| => PacketOf(codec, rs[i]))
  }

  function ResponseFrames(codec: Codec, rs: seq<Response>): (frames: seq<Bytes>)
    ensures |frames| == |rs|
  {
    seq(|rs|, i requires 0 <= i < |rs| => codec.ResponseFrame(rs[i]))
  }

  /** The bytes of a list of packets, one after the other. */
  function PacketStream(codec: Codec, ps: seq<Packet>): Bytes {
    Flat(PacketFrames(codec, ps))
  }

  /** The bytes of a list of requests, as a client writes them. */
  function RequestStream(codec: Codec, rs: seq<Request>): Bytes {
    PacketStream(codec, Packets(codec, rs))
  }

  /** The bytes of a list of responses. */
  function ResponseStream(codec: Codec, rs: seq<Response>): Bytes {
    Flat(ResponseFrames(codec, rs))
  }

  lemma PacketStreamAppend(codec: Codec, ps: seq<Packet>, p: Packet)
    ensures PacketStream(codec, ps + [p]) == PacketStream(codec, ps) + codec.PacketFrame(p)
  {
    assert PacketFrames(codec, ps + [p]) == PacketFrames(codec, ps) + [codec.PacketFrame(p)];
    FlatAppend(PacketFrames(codec, ps), codec.PacketFrame(p));
  }

  lemma PacketStreamFirst(codec: Codec, ps: seq<Packet>)
    requires ps != []
    ensures PacketStream(codec, ps) == codec.PacketFrame(ps[0]) + PacketStream(codec, ps[1..])
  {
    assert PacketFrames(codec, ps)[1..] == PacketFrames(codec, ps[1..]);
  }

  lemma RequestStreamAppend(codec: Codec, rs: seq<Request>, r: Request)
    ensures RequestStream(codec, rs + [r]) == RequestStream(codec, rs) + codec.RequestFrame(r)
  {
    assert Packets(codec, rs + [r]) == Packets(codec, rs) + [PacketOf(codec, r)];
    PacketStreamAppend(codec, Packets(codec, rs), PacketOf(codec, r));
  }

  lemma ResponseStreamAppend(codec: Codec, rs: seq<Response>, r: Response)
    ensures ResponseStream(codec, rs + [r]) == ResponseStream(codec, rs) + codec.ResponseFrame(r)
  {
    assert ResponseFrames(codec, rs + [r]) == ResponseFrames(codec, rs) + [codec.ResponseFrame(r)];
    FlatAppend(ResponseFrames(codec, rs), codec.ResponseFrame(r));
  }
}
