// The client: it writes requests, and reads one response frame whenever its socket is ready.

module Clients {
  import opened Options
  import opened Wire
  import opened Messages
  import opened Protocol
  import opened Times
  import opened Store
  import opened DataModel
  import opened Sessions

  datatype Signal =
    | ResponseReceived(prevMsg: Option<MessageType>, status: ResponseStatus, msg: Bytes)
    | ValuesReceived(values: seq<VarValue>)
    | VariablesReceived(variables: seq<Variable>)

  function AsVariables(vs: seq<SaveVariable>): (r: seq<Variable>)
    ensures |r| == |vs|
    ensures forall i :: 0 <= i < |vs| ==> r[i] == Variable(vs[i].name, vs[i].color)
  {
    seq(|vs|, i requires 0 <= i < |vs| => Variable(vs[i].name, vs[i].color))
  }

  /** What the client emits for a body that it has parsed. */
  function SignalOf(r: Response): Signal {
    match r
    case StatusReply(f) => ResponseReceived(f.prevMsg, f.status, CStr(f.msg.GetOr([])))
    case ValuesReply(vs) => ValuesReceived(vs)
    case VariablesReply(vs) => VariablesReceived(AsVariables(vs))
  }

  /** What it emits for a response of the server, which has an empty body for an empty list: none is
      emitted for an empty body. */
  function SignalsOf(r: Response): seq<Signal> {
    if r == ValuesReply([]) || r == VariablesReply([]) then [] else [SignalOf(r)]
  }

  // ---------- One frame ----------

  /** The fields left by ParseFromArray when it refuses its input. */
  datatype Leftovers = Leftovers(meta: MetaHeader, header: Header,
                                 failure: Failure, values: seq<VarValue>, variables: seq<SaveVariable>)

  function LeftResponse(t: ResponseKind, left: Leftovers): Response {
    match t
    case RESPONSE_FAILURE => StatusReply(left.failure)
    case RESPONSE_VALUES => ValuesReply(left.values)
    case RESPONSE_VARIABLES => VariablesReply(left.variables)
  }

  function ResponseIn(codec: Codec, t: ResponseKind, body: Bytes, left: Leftovers): Response {
    Parsed(body, codec.readResponse(t, body), LeftResponse(t, left))
  }

  /** Each branch gets a response of its own kind. */
  lemma ResponseFitsType(codec: Codec, t: ResponseKind, body: Bytes, left: Leftovers)
    requires codec.Faithful()
    ensures ResponseType(ResponseIn(codec, t, body, left)) == t
  {
    assert codec.KeepsResponseType(t, body);
  }

  datatype Outcome = Outcome(signals: seq<Signal>, rest: Bytes)

  /** What is left of a stream when bytes have been taken from its front. */
  predicate IsTail(stream: Bytes, rest: Bytes) {
    |rest| <= |stream| && rest == stream[|stream| - |rest|..]
  }

  /** The body of a frame, when its prefix has been read: a status must be in the buffer as a whole,
      while a list may arrive later. */
  function TakeBody(codec: Codec, h: Header, buffered: Bytes, later: Bytes, left: Leftovers): (taken: Outcome)
    ensures |taken.rest| <= |buffered| + |later|
  {
    if h.bodySize > INT_MAX then Outcome([], buffered + later)
    else
      match h.msgType
      case RESPONSE_FAILURE =>
        if |buffered| < h.bodySize then Outcome([], later)
        else
          var body := buffered[..h.bodySize];
          Outcome([SignalOf(ResponseIn(codec, RESPONSE_FAILURE, body, left))], buffered[h.bodySize..] + later)
      case RESPONSE_VALUES => TakeList(codec, RESPONSE_VALUES, h.bodySize, buffered + later, left)
      case RESPONSE_VARIABLES => TakeList(codec, RESPONSE_VARIABLES, h.bodySize, buffered + later, left)
      case _ => Outcome([], buffered + later)
  }

  function TakeList(codec: Codec, t: ResponseKind, size: nat, stream: Bytes, left: Leftovers): (taken: Outcome)
    ensures |taken.rest| <= |stream|
  {
    if size == 0 then Outcome([], stream)
    else if |stream| < size then Outcome([], [])
    else Outcome([SignalOf(ResponseIn(codec, t, stream[..size], left))], stream[size..])
  }

  /** What onReadyRead emits and leaves, given what is buffered and what will arrive while it waits.
      It gives up on a prefix that is not buffered as a whole, and has then swallowed what was. */
  function TakeFrame(codec: Codec, buffered: Bytes, later: Bytes, left: Leftovers): (taken: Outcome)
    ensures |taken.rest| <= |buffered| + |later|
  {
    if |buffered| < codec.probe then Outcome([], later)
    else
      var meta := Parsed(buffered[..codec.probe], codec.readMeta(buffered[..codec.probe]), left.meta);
      var more := buffered[codec.probe..];
      if |more| < meta.headerSize then Outcome([], later)
      else
        var head := more[..meta.headerSize];
        TakeBody(codec, Parsed(head, codec.readHeader(head), left.header), more[meta.headerSize..], later, left)
  }

  lemma TailOfTail(stream: Bytes, front: Bytes, tail: Bytes, rest: Bytes)
    requires stream == front + tail && IsTail(tail, rest)
    ensures IsTail(stream, rest)
  {
    assert stream[|stream| - |rest|..] == tail[|tail| - |rest|..];
  }

  lemma Pieces(buffered: Bytes, n: nat, later: Bytes)
    requires n <= |buffered|
    ensures buffered + later == buffered[..n] + (buffered[n..] + later)
  {
  }

  lemma BodyTakesFromFront(codec: Codec, h: Header, buffered: Bytes, later: Bytes, left: Leftovers)
    ensures IsTail(buffered + later, TakeBody(codec, h, buffered, later, left).rest)
  {
    var stream, rest := buffered + later, TakeBody(codec, h, buffered, later, left).rest;
    if h.bodySize <= INT_MAX && h.msgType.RESPONSE_FAILURE? {
      var n := if |buffered| < h.bodySize then |buffered| else h.bodySize;
      Pieces(buffered, n, later);
      TailOfTail(stream, buffered[..n], rest, rest);
    }
  }

  /** Whatever the bytes are: the client takes them from the front, and leaves all the others as they are. */
  lemma TakesFromFront(codec: Codec, buffered: Bytes, later: Bytes, left: Leftovers)
    ensures IsTail(buffered + later, TakeFrame(codec, buffered, later, left).rest)
  {
    var stream := buffered + later;
    if |buffered| < codec.probe {
      TailOfTail(stream, buffered, later, later);
    } else {
      var meta := Parsed(buffered[..codec.probe], codec.readMeta(buffered[..codec.probe]), left.meta);
      var more := buffered[codec.probe..];
      if |more| < meta.headerSize {
        TailOfTail(stream, buffered, later, later);
      } else {
        var head, rest := more[..meta.headerSize], more[meta.headerSize..];
        var h := Parsed(head, codec.readHeader(head), left.header);
        var left' := TakeBody(codec, h, rest, later, left).rest;
        assert IsTail(more + later, left') by {
          BodyTakesFromFront(codec, h, rest, later, left);
          Pieces(more, meta.headerSize, later);
          TailOfTail(more + later, head, rest + later, left');
        }
        Pieces(buffered, codec.probe, later);
        TailOfTail(stream, buffered[..codec.probe], more + later, left');
      }
    }
  }

  /** When the client gives up on a frame, and what it has swallowed by then: what was buffered of a prefix
      or a status that is not there as a whole, everything that came of a list that stays incomplete, and
      only the prefix of a frame whose size or type it does not take. */
  lemma GivesUp(codec: Codec, meta: Bytes, header: Bytes, more: Bytes, later: Bytes, h: Header, left: Leftovers)
    requires |meta| == codec.probe <= INT_MAX && |header| <= INT_MAX
    requires codec.readMeta(meta) == Some(MetaHeader(|header|)) && codec.readHeader(header) == Some(h)
    ensures forall part :: part < meta ==> TakeFrame(codec, part, later, left) == Outcome([], later)
    ensures forall part :: part < header ==> TakeFrame(codec, meta + part, later, left) == Outcome([], later)
    ensures var taken := TakeFrame(codec, meta + header + more, later, left);
            && (h.bodySize > INT_MAX || IsRequestType(h.msgType) ==> taken == Outcome([], more + later))
            && (h.bodySize <= INT_MAX && h.msgType.RESPONSE_FAILURE? && |more| < h.bodySize
                ==> taken == Outcome([], later))
    ensures h.msgType.RESPONSE_VALUES? || h.msgType.RESPONSE_VARIABLES? ==>
              (|more + later| < h.bodySize <= INT_MAX
               ==> TakeFrame(codec, meta + header + more, later, left) == Outcome([], []))
  {
    forall part | part < header
      ensures TakeFrame(codec, meta + part, later, left) == Outcome([], later)
    {
      assert (meta + part)[..|meta|] == meta && (meta + part)[|meta|..] == part;
    }
    var all := meta + header + more;
    assert all[..|meta|] == meta && all[|meta|..] == header + more;
    assert (header + more)[..|header|] == header && (header + more)[|header|..] == more;
  }

  predicate SignalOfType(t: MessageType, s: Signal) {
    match t
    case RESPONSE_FAILURE => s.ResponseReceived?
    case RESPONSE_VALUES => s.ValuesReceived?
    case RESPONSE_VARIABLES => s.VariablesReceived?
    case _ => false
  }

  /** A body gives at most one signal, of the kind of its type. A list that is complete gives one exactly
      when its body is not empty, whatever is decoded from it. */
  lemma SignalFitsType(codec: Codec, h: Header, buffered: Bytes, later: Bytes, left: Leftovers)
    requires codec.Faithful()
    ensures var signals := TakeBody(codec, h, buffered, later, left).signals;
            && |signals| <= 1 && (signals != [] ==> SignalOfType(h.msgType, signals[0]))
            && ((h.msgType.RESPONSE_VALUES? || h.msgType.RESPONSE_VARIABLES?)
                && h.bodySize <= INT_MAX && h.bodySize <= |buffered + later|
                ==> (signals == [] <==> h.bodySize == 0))
  {
    if !IsRequestType(h.msgType) {
      var stream := if h.msgType.RESPONSE_FAILURE? then buffered else buffered + later;
      if h.bodySize <= |stream| {
        ResponseFitsType(codec, h.msgType, stream[..h.bodySize], left);
      }
    }
  }

  /** How much of a response frame has to be buffered for the client to get through: the prefix, and
      the body too if it is a status. */
  function Required(codec: Codec, r: Response): nat {
    var t, size := ResponseType(r), |codec.response(r)|;
    |codec.meta(t, size)| + |codec.header(t, size)| + if r.StatusReply? then size else 0
  }

  lemma TakeBodyOfResponse(codec: Codec, r: Response, back: Bytes, buffered: Bytes, later: Bytes, left: Leftovers)
    requires codec.Faithful() && |codec.response(r)| <= INT_MAX
    requires buffered + later == codec.response(r) + back
    requires r.StatusReply? ==> |codec.response(r)| <= |buffered|
    ensures TakeBody(codec, Header(ResponseType(r), |codec.response(r)|), buffered, later, left)
         == Outcome(SignalsOf(r), back)
  {
    var body, stream := codec.response(r), buffered + later;
    assert codec.ReadsResponse(r);
    assert stream[..|body|] == body && stream[|body|..] == back;
    if r.StatusReply? {
      assert buffered[..|body|] == stream[..|body|];
      assert buffered[|body|..] + later == stream[|body|..];
    }
  }

  /** A frame that the server built makes the client emit exactly what was sent and take exactly the
      bytes of the frame, if its prefix is buffered and its body arrives in time. */
  lemma FrameIsTaken(codec: Codec, r: Response, back: Bytes, buffered: Bytes, later: Bytes, left: Leftovers)
    requires codec.Faithful() && |codec.response(r)| <= INT_MAX
    requires buffered + later == codec.ResponseFrame(r) + back
    requires Required(codec, r) <= |buffered|
    ensures TakeFrame(codec, buffered, later, left) == Outcome(SignalsOf(r), back)
  {
    var t, body := ResponseType(r), codec.response(r);
    var meta, header := codec.meta(t, |body|), codec.header(t, |body|);
    assert codec.ReadsPrefix(t, |body|);
    assert codec.ResponseFrame(r) + back == meta + (header + (body + back));
    var more, rest := buffered[|meta|..], buffered[|meta|..][|header|..];
    TakeFront(buffered, later, meta, header + (body + back));
    TakeFront(more, later, header, body + back);
    TakeBodyOfResponse(codec, r, back, rest, later, left);
  }

  /** In full: what the client emits for a frame of the server's, signal by signal. Empty lists are
      skipped. */
  lemma FrameIsTold(codec: Codec, r: Response, back: Bytes, buffered: Bytes, later: Bytes, left: Leftovers)
    requires codec.Faithful() && |codec.response(r)| <= INT_MAX
    requires buffered + later == codec.ResponseFrame(r) + back
    requires Required(codec, r) <= |buffered|
    ensures TakeFrame(codec, buffered, later, left).rest == back
    ensures var signals := TakeFrame(codec, buffered, later, left).signals;
            match r
            case StatusReply(f) =>
              var text := match f.msg case None => [] case Some(msg) => CStr(msg);
              signals == [ResponseReceived(f.prevMsg, f.status, text)]
            case ValuesReply(vs) => signals == if vs == [] then [] else [ValuesReceived(vs)]
            case VariablesReply(vs) =>
              if vs == [] then signals == []
              else
                && |signals| == 1 && signals[0].VariablesReceived? && |signals[0].variables| == |vs|
                && forall k :: 0 <= k < |vs| ==> signals[0].variables[k] == Variable(vs[k].name, vs[k].color)
  {
    FrameIsTaken(codec, r, back, buffered, later, left);
  }

  // ---------- The socket ----------

  class Socket {
    const open: bool
    var buffered: Bytes
    var arrivals: seq<Bytes>   // what will arrive, one piece after the other
    var out: Bytes             // what has been written

    ghost function Later(): Bytes
      reads this
    {
      Flat(arrivals)
    }

    ghost function Stream(): Bytes
      reads this
    {
      buffered + Later()
    }

    constructor (open: bool, buffered: Bytes, arrivals: seq<Bytes>)
      ensures this.open == open && this.buffered == buffered && this.arrivals == arrivals && out == []
    {
      this.open, this.buffered, this.arrivals, out := open, buffered, arrivals, [];
    }

    /** Reads what is there, at most max bytes; -1 when the socket is not open. */
    method Read(max: nat) returns (count: int, data: Bytes)
      modifies this`buffered
      ensures !open ==> count == -1 && data == [] && buffered == old(buffered)
      ensures open ==> count == Min(max, |old(buffered)|)
                       && data == old(buffered)[..count] && buffered == old(buffered)[count..]
      ensures data + Stream() == old(Stream())
    {
      if !open {
        return -1, [];
      }
      count := Min(max, |buffered|);
      data, buffered := buffered[..count], buffered[count..];
    }

    /** Waits for the next piece; false when none comes in time. */
    method WaitForReadyRead() returns (ready: bool)
      modifies this`buffered, this`arrivals
      ensures ready <==> old(arrivals) != []
      ensures Stream() == old(Stream())
      ensures ready ==> |arrivals| < |old(arrivals)|
      ensures !ready ==> buffered == old(buffered) && Later() == []
    {
      ready := arrivals != [];
      if ready {
        assert Flat(arrivals) == arrivals[0] + Flat(arrivals[1..]);
        buffered, arrivals := buffered + arrivals[0], arrivals[1..];
      }
    }
  }

  class Client {
    const codec: Codec
    const socket: Socket
    ghost var requests: seq<Request>   // what has been asked for

    ghost predicate Valid()
      reads this, socket
    {
      socket.out == RequestStream(codec, requests)
    }

    constructor (codec: Codec, socket: Socket)
      requires socket.out == []
      ensures this.codec == codec && this.socket == socket && requests == [] && Valid()
    {
      this.codec, this.socket, requests := codec, socket, [];
    }

    // ---------- Requests ----------

    /** Serialises meta header, header and body one after the other, and writes them. */
    method SendRequest(r: Request)
      requires Valid()
      modifies this, socket`out
      ensures Valid() && requests == old(requests) + [r]
    {
      var body := codec.request(r);
      var header := codec.header(RequestType(r), |body|);
      var stream := codec.meta(RequestType(r), |body|);
      stream := stream + header;
      stream := stream + body;
      RequestStreamAppend(codec, requests, r);
      socket.out := socket.out + stream;
      requests := requests + [r];
    }

    method SendVar(v: Variable)
      requires Valid()
      modifies this, socket`out
      ensures Valid() && requests == old(requests) + [AddVar(SaveVariable(v.name, v.color))]
    {
      SendRequest(AddVar(SaveVariable(v.name, v.color)));
    }

    method SendVarVal(name: Bytes, value: U64)
      requires Valid()
      modifies this, socket`out
      ensures Valid() && requests == old(requests) + [SaveVal(SaveValue(name, value))]
    {
      SendRequest(SaveVal(SaveValue(name, value)));
    }

    method RequestVars()
      requires Valid()
      modifies this, socket`out
      ensures Valid() && requests == old(requests) + [GetVars]
    {
      SendRequest(GetVars);
    }

    /** All readings of a variable, or those between two time points. */
    method RequestVarValues(name: Bytes, range: Range)
      requires Valid()
      modifies this, socket`out
      ensures Valid()
      ensures exists q :: requests == old(requests) + [GetVals(q)]
                          && q.variable == name && SameMillis(RangeOf(q), range)
    {
      var q := match range
               case Always => GetValues(name, None, None)
               case Between(start, end) => GetValues(name, Some(ToMillis(start)), Some(ToMillis(end)));
      if range.Between? {
        MillisSurvive(ToMillis(range.start));
        MillisSurvive(ToMillis(range.end));
      }
      SendRequest(GetVals(q));
      assert SameMillis(RangeOf(q), range);
    }

    // ---------- Responses ----------

    /** The do-while loop that fills the buffer of a body that is not empty. */
    method ReadList(size: nat) returns (body: Bytes, complete: bool)
      requires size > 0
      modifies socket`buffered, socket`arrivals
      ensures complete <==> socket.open && size <= |old(socket.Stream())|
      ensures complete ==> body == old(socket.Stream())[..size]
      ensures complete ==> socket.Stream() == old(socket.Stream())[size..]
      ensures socket.open && !complete ==> socket.Stream() == []
    {
      ghost var stream := socket.Stream();
      body := [];
      while true
        invariant |body| < size
        invariant body + socket.Stream() == stream
        decreases size - |body|, |socket.arrivals|
      {
        ghost var before := socket.Stream();
        var count, data := socket.Read(size - |body|);
        if count == -1 {
          return body, false;
        }
        assert (body + data) + socket.Stream() == body + before;
        if count == 0 {
          var ready := socket.WaitForReadyRead();
          if !ready {
            return body, false;
          }
        }
        body := body + data;
        if |body| == size {
          assert stream[..size] == body;
          return body, true;
        }
      }
    }

    /** `onReadyRead`: takes one frame. */
    method OnReadyRead(left: Leftovers) returns (signals: seq<Signal>)
      modifies socket`buffered, socket`arrivals
      ensures socket.open ==>
                Outcome(signals, socket.Stream()) == TakeFrame(codec, old(socket.buffered), old(socket.Later()), left)
      ensures !socket.open ==> signals == []
    {
      signals := [];
      var count, data := socket.Read(codec.probe);
      if count != codec.probe {
        return;
      }
      var meta := Parsed(data, codec.readMeta(data), left.meta);
      count, data := socket.Read(meta.headerSize);
      if count != meta.headerSize {
        return;
      }
      var header := Parsed(data, codec.readHeader(data), left.header);
      signals := ReadFrameBody(header, left);
    }

    method ReadFrameBody(header: Header, left: Leftovers) returns (signals: seq<Signal>)
      requires socket.open
      modifies socket`buffered, socket`arrivals
      ensures Outcome(signals, socket.Stream())
           == TakeBody(codec, header, old(socket.buffered), old(socket.Later()), left)
    {
      signals := [];
      if header.bodySize > INT_MAX {
        return;
      }
      if header.msgType.RESPONSE_FAILURE? {
        var count, data := socket.Read(header.bodySize);
        if count != header.bodySize {
          return;
        }
        signals := [SignalOf(ResponseIn(codec, RESPONSE_FAILURE, data, left))];
      } else if header.msgType.RESPONSE_VALUES? || header.msgType.RESPONSE_VARIABLES? {
        if header.bodySize != 0 {
          var body, complete := ReadList(header.bodySize);
          if complete {
            signals := [SignalOf(ResponseIn(codec, header.msgType, body, left))];
          }
        }
      }
    }
  }

  predicate SameMillis(a: Range, b: Range) {
    && a.Between? == b.Between?
    && (a.Between? ==> ToMillis(a.start) == ToMillis(b.start) && ToMillis(a.end) == ToMillis(b.end))
  }
}
