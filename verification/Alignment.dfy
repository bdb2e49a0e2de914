// Where a session stands in the stream of frames that its peer sends.

module Alignments {
  import opened Wire
  import Messages
  import opened Protocol
  import opened Store
  import opened Sessions
  import opened Linearization

  // ---------- What a handler makes of its bytes ----------

  /** A body that is small enough and can be decoded is the request that it encodes; of any other the
      handler goes on with the fields that the parse has left, under the same type. */
  lemma RequestInFull(env: Env, kind: RequestKind, body: Bytes, o: Oracle)
    ensures RequestIn(env, kind, body, o)
         == if |body| <= 0x7FFF_FFFF && env.codec.readRequest(kind, body).Some?
            then env.codec.readRequest(kind, body).value
            else match kind
                 case REQUEST_ADD_VAR => AddVar(o.variable)
                 case REQUEST_SAVE_VALUE => SaveVal(o.value)
                 case REQUEST_GET_VALUES => GetVals(o.query)
                 case REQUEST_GET_VARIABLES => GetVars
  {
  }

  // ---------- A session between two frames, or inside one ----------

  /** The bytes on their way to the session that no operation has taken yet. */
  function Ahead(c: Conn): Bytes { c.inbox + c.wire }

  /** What a handler may make of a packet: its parse result is not looked at, so that a body that
      cannot be decoded is any request of the packet's type. */
  ghost predicate IsRead(env: Env, p: Packet, r: Request) {
    exists o :: r == RequestIn(env, p.kind, p.body, o)
  }

  /** The session has answered one request for each of the first packets, in their order. Its operation
      stands at the right place of the next packet's frame, or writes the last of these answers. */
  ghost predicate Aligned(env: Env, packets: seq<Packet>, mine: seq<Exchange>, c: Conn) {
    && |c.pending| == 1 && |mine| <= |packets|
    && (forall k :: 0 <= k < |packets| ==> |packets[k].body| < TWO_TO_64)
    && (forall k :: 0 <= k < |mine| ==> IsRead(env, packets[k], mine[k].request))
    && AtPlace(env, packets[|mine|..], ResponseStream(env.codec, Responses(mine)), c)
  }

  ghost predicate AtPlace(env: Env, rest: seq<Packet>, replies: Bytes, c: Conn)
    requires |c.pending| == 1
  {
    match c.pending[0]
    case ReadMeta => c.written == replies && Ahead(c) == PacketStream(env.codec, rest)
    case ReadHeader(size) =>
      && rest != [] && c.written == replies
      && var header := env.codec.header(rest[0].kind, |rest[0].body|);
         size == |header| && Ahead(c) == header + (rest[0].body + PacketStream(env.codec, rest[1..]))
    case ReadBody(kind, size) =>
      && rest != [] && c.written == replies
      && kind == rest[0].kind && size == |rest[0].body|
      && Ahead(c) == rest[0].body + PacketStream(env.codec, rest[1..])
    case Write(frame) => c.written + frame == replies && Ahead(c) == PacketStream(env.codec, rest)
  }

  lemma AfterFirstOp(c: Conn)
    requires |c.pending| == 1
    ensures c.pending[..0] + c.pending[1..] == []
  {
  }

  /** Another frame is on its way. */
  ghost predicate Sends(env: Env, c: Conn, c': Conn, p: Packet) {
    && c'.pending == c.pending && c'.inbox == c.inbox && c'.written == c.written
    && c'.wire == c.wire + env.codec.PacketFrame(p)
  }

  lemma SendKeepsPlace(env: Env, rest: seq<Packet>, replies: Bytes, c: Conn, c': Conn, p: Packet)
    requires |c.pending| == 1 && AtPlace(env, rest, replies, c) && Sends(env, c, c', p)
    ensures AtPlace(env, rest + [p], replies, c')
  {
    assert Ahead(c') == Ahead(c) + env.codec.PacketFrame(p);
    PacketStreamAppend(env.codec, rest, p);
    if rest != [] {
      assert (rest + [p])[1..] == rest[1..] + [p];
      PacketStreamAppend(env.codec, rest[1..], p);
    }
  }

  lemma SendStep(env: Env, packets: seq<Packet>, mine: seq<Exchange>, c: Conn, c': Conn, p: Packet)
    requires Aligned(env, packets, mine, c) && Sends(env, c, c', p) && |p.body| < TWO_TO_64
    ensures Aligned(env, packets + [p], mine, c')
  {
    SendKeepsPlace(env, packets[|mine|..], ResponseStream(env.codec, Responses(mine)), c, c', p);
    assert (packets + [p])[|mine|..] == packets[|mine|..] + [p];
  }

  lemma DeliverStep(env: Env, packets: seq<Packet>, mine: seq<Exchange>, c: Conn, size: nat)
    requires Aligned(env, packets, mine, c) && size <= |c.wire|
    ensures Aligned(env, packets, mine, c.(wire := c.wire[size..], inbox := c.inbox + c.wire[..size]))
  {
    var c' := c.(wire := c.wire[size..], inbox := c.inbox + c.wire[..size]);
    assert Ahead(c') == Ahead(c);
  }

  lemma EnoughMeansMore(env: Env, rest: seq<Packet>, c: Conn)
    requires env.codec.Faithful()
    requires Ahead(c) == PacketStream(env.codec, rest) && env.codec.probe <= |c.inbox|
    ensures rest != []
  {
  }

  lemma MetaStep(env: Env, t: Tables, packets: seq<Packet>, mine: seq<Exchange>, c: Conn, o: Oracle)
    requires env.codec.Faithful()
    requires Aligned(env, packets, mine, c) && c.pending[0].ReadMeta? && env.codec.probe <= |c.inbox|
    ensures Aligned(env, packets, mine, Complete(env, t, c, 0, o).conn)
    ensures Complete(env, t, c, 0, o).conn.pending[0].ReadHeader?
    ensures Complete(env, t, c, 0, o).tables == t && !Complete(env, t, c, 0, o).crashed
  {
    var rest := packets[|mine|..];
    EnoughMeansMore(env, rest, c);
    var kind, body := rest[0].kind, rest[0].body;
    assert env.codec.ReadsPrefix(kind, |body|);
    PacketStreamFirst(env.codec, rest);
    var meta, header := env.codec.meta(kind, |body|), env.codec.header(kind, |body|);
    var back := header + (body + PacketStream(env.codec, rest[1..]));
    assert PacketStream(env.codec, rest) == meta + back;
    TakeFront(c.inbox, c.wire, meta, back);
    AfterFirstOp(c);
  }

  lemma HeaderStep(env: Env, t: Tables, packets: seq<Packet>, mine: seq<Exchange>, c: Conn, o: Oracle)
    requires env.codec.Faithful()
    requires Aligned(env, packets, mine, c) && c.pending[0].ReadHeader? && c.pending[0].size <= |c.inbox|
    ensures Aligned(env, packets, mine, Complete(env, t, c, 0, o).conn)
    ensures Complete(env, t, c, 0, o).conn.pending[0].ReadBody?
    ensures Complete(env, t, c, 0, o).tables == t && !Complete(env, t, c, 0, o).crashed
  {
    var rest := packets[|mine|..];
    assert rest[0] == packets[|mine|];
    var kind, body := rest[0].kind, rest[0].body;
    assert env.codec.ReadsPrefix(kind, |body|);
    TakeFront(c.inbox, c.wire, env.codec.header(kind, |body|), body + PacketStream(env.codec, rest[1..]));
    AfterFirstOp(c);
  }

  lemma WriteStep(env: Env, t: Tables, packets: seq<Packet>, mine: seq<Exchange>, c: Conn, o: Oracle)
    requires Aligned(env, packets, mine, c) && c.pending[0].Write?
    ensures Aligned(env, packets, mine, Complete(env, t, c, 0, o).conn)
    ensures Complete(env, t, c, 0, o).conn.pending[0].ReadMeta?
    ensures Complete(env, t, c, 0, o).tables == t && !Complete(env, t, c, 0, o).crashed
  {
    AfterFirstOp(c);
    assert c.inbox[0..] == c.inbox;
  }

  /** A body that has arrived is the body of the next packet. */
  lemma BodyIsNextPacket(env: Env, packets: seq<Packet>, mine: seq<Exchange>, c: Conn)
    requires Aligned(env, packets, mine, c) && c.pending[0].ReadBody? && c.pending[0].size <= |c.inbox|
    ensures |mine| < |packets| && c.pending[0].kind == packets[|mine|].kind
    ensures c.inbox[..c.pending[0].size] == packets[|mine|].body
    ensures c.inbox[c.pending[0].size..] + c.wire == PacketStream(env.codec, packets[|mine| + 1..])
  {
    var rest := packets[|mine|..];
    assert rest[0] == packets[|mine|] && rest[1..] == packets[|mine| + 1..];
    TakeFront(c.inbox, c.wire, rest[0].body, PacketStream(env.codec, rest[1..]));
  }

  lemma BodyStep(env: Env, t: Tables, packets: seq<Packet>, mine: seq<Exchange>, c: Conn, o: Oracle, x: Exchange)
    requires Aligned(env, packets, mine, c) && c.pending[0].ReadBody? && c.pending[0].size <= |c.inbox|
    requires x.request == RequestIn(env, c.pending[0].kind, c.inbox[..c.pending[0].size], o)
    requires Serve(env, t, x.request, o.now).1 == Answered(x.response)
    ensures Aligned(env, packets, mine + [x], Complete(env, t, c, 0, o).conn)
    ensures Complete(env, t, c, 0, o).conn.pending[0].Write?
  {
    BodyIsNextPacket(env, packets, mine, c);
    AfterFirstOp(c);
    assert IsRead(env, packets[|mine|], x.request);
    assert Responses(mine + [x]) == Responses(mine) + [x.response];
    ResponseStreamAppend(env.codec, Responses(mine), x.response);
  }

  // ---------- Runs in which peers send frames ----------

  /** The bytes are one frame of a request type, with any body. */
  ghost predicate IsFrame(env: Env, data: Bytes, p: Packet) {
    data == env.codec.PacketFrame(p) && |p.body| < TWO_TO_64
  }

  /** No transport failure, and peers that send only frames of the four request types. */
  ghost predicate Framed(env: Env, a: Action) {
    !a.Fail? && (a.SendRaw? ==> exists p :: IsFrame(env, a.data, p))
  }

  ghost function PacketIn(env: Env, data: Bytes): Packet
    requires exists p :: IsFrame(env, data, p)
  {
    var p :| IsFrame(env, data, p); p
  }

  /** What the peers have sent after one more action, session by session. */
  ghost function AlsoSent(env: Env, packets: seq<seq<Packet>>, w: World, a: Action): seq<seq<Packet>> {
    if w.crashed then packets
    else if a.Accept? then packets + if a.ok then [[]] else []
    else if a.conn >= |packets| then packets
    else
      match a
      case Send(i, r) =>
        if env.codec.Sendable(r) then packets[i := packets[i] + [PacketOf(env.codec, r)]] else packets
      case SendRaw(i, data) =>
        if exists p :: IsFrame(env, data, p) then packets[i := packets[i] + [PacketIn(env, data)]] else packets
      case _ => packets
  }

  /** The packets that the peers have sent in a run, session by session. */
  ghost function Incoming(env: Env, run: seq<Action>): seq<seq<Packet>> {
    if run == [] then []
    else AlsoSent(env, Incoming(env, run[..|run| - 1]), Run(env, run[..|run| - 1]), run[|run| - 1])
  }

  ghost predicate AllAligned(env: Env, packets: seq<seq<Packet>>, log: seq<Exchange>, w: World) {
    && |packets| == |w.conns|
    && (forall k :: 0 <= k < |log| ==> log[k].conn < |w.conns|)
    && (forall i: nat :: i < |w.conns| ==> Aligned(env, packets[i], Of(log, i), w.conns[i]))
  }

  lemma {:induction false} OfStranger(log: seq<Exchange>, i: nat)
    requires forall k :: 0 <= k < |log| ==> log[k].conn != i
    ensures Of(log, i) == []
  {
    if log != [] {
      OfStranger(log[..|log| - 1], i);
    }
  }

  lemma AcceptAligned(env: Env, packets: seq<seq<Packet>>, log: seq<Exchange>, w: World)
    requires AllAligned(env, packets, log, w) && !w.crashed
    ensures AllAligned(env, packets + [[]], log, Next(env, w, Accept(true)))
  {
    var conns := w.conns + [NEW_CONN];
    forall i: nat | i < |conns|
      ensures Aligned(env, (packets + [[]])[i], Of(log, i), conns[i])
    {
      if i == |w.conns| {
        OfStranger(log, i);
        assert NEW_CONN.pending == [ReadMeta];
      } else {
        assert conns[i] == w.conns[i];
      }
    }
  }

  lemma ConnAligned(env: Env, packets: seq<seq<Packet>>, log: seq<Exchange>, w: World, t: Tables,
                    i: nat, c: Conn, ps: seq<Packet>)
    requires AllAligned(env, packets, log, w) && i < |w.conns| && Aligned(env, ps, Of(log, i), c)
    ensures AllAligned(env, packets[i := ps], log, World(t, w.conns[i := c], false))
  {
  }

  lemma AnswerAligned(env: Env, packets: seq<seq<Packet>>, log: seq<Exchange>, w: World, t: Tables,
                      x: Exchange, c: Conn)
    requires AllAligned(env, packets, log, w) && x.conn < |w.conns|
    requires Aligned(env, packets[x.conn], Of(log, x.conn) + [x], c)
    ensures AllAligned(env, packets, log + [x], World(t, w.conns[x.conn := c], false))
  {
    forall k: nat | k < |w.conns|
      ensures Aligned(env, packets[k], Of(log + [x], k), w.conns[x.conn := c][k])
    {
      OfAppend(log, x, k);
    }
  }

  lemma PeerAligned(env: Env, packets: seq<seq<Packet>>, log: seq<Exchange>, w: World, a: Action)
    requires AllAligned(env, packets, log, w) && !w.crashed && Framed(env, a) && !a.Accept? && !a.Succeed?
    ensures AllAligned(env, AlsoSent(env, packets, w, a), log, Next(env, w, a))
  {
    if a.conn < |w.conns| {
      var i, c, mine := a.conn, w.conns[a.conn], Of(log, a.conn);
      var c' := Act(env, w.tables, c, a).conn;
      match a
      case Send(_, r) =>
        if env.codec.Sendable(r) {
          SendStep(env, packets[i], mine, c, c', PacketOf(env.codec, r));
          ConnAligned(env, packets, log, w, w.tables, i, c', packets[i] + [PacketOf(env.codec, r)]);
        }
      case SendRaw(_, data) =>
        SendStep(env, packets[i], mine, c, c', PacketIn(env, data));
        ConnAligned(env, packets, log, w, w.tables, i, c', packets[i] + [PacketIn(env, data)]);
      case Deliver(_, size) =>
        if size <= |c.wire| {
          DeliverStep(env, packets[i], mine, c, size);
          ConnAligned(env, packets, log, w, w.tables, i, c', packets[i]);
        }
    }
  }

  lemma PartAligned(env: Env, t: Tables, packets: seq<Packet>, mine: seq<Exchange>, c: Conn, o: Oracle)
    requires env.codec.Faithful() && Aligned(env, packets, mine, c)
    requires Need(env, c.pending[0]) <= |c.inbox| && !c.pending[0].ReadBody?
    ensures var e := Complete(env, t, c, 0, o);
            !e.crashed && e.tables == t && Aligned(env, packets, mine, e.conn)
  {
    match c.pending[0]
    case ReadMeta => MetaStep(env, t, packets, mine, c, o);
    case ReadHeader(_) => HeaderStep(env, t, packets, mine, c, o);
    case Write(_) => WriteStep(env, t, packets, mine, c, o);
  }

  lemma NextIsCompletion(env: Env, w: World, a: Action)
    requires !w.crashed && a.Succeed? && a.conn < |w.conns| && Arrived(env, w.conns[a.conn], a.op)
    ensures var e := Complete(env, w.tables, w.conns[a.conn], a.op, a.oracle);
            Next(env, w, a) == World(e.tables, w.conns[a.conn := e.conn], e.crashed)
  {
  }

  lemma HandlerAligned(env: Env, packets: seq<seq<Packet>>, log: seq<Exchange>, w: World, a: Action)
    requires env.codec.Faithful() && AllAligned(env, packets, log, w) && !w.crashed
    requires a.Succeed? && a.conn < |w.conns| && Arrived(env, w.conns[a.conn], a.op)
    requires !Next(env, w, a).crashed
    ensures AllAligned(env, packets, log + Exchanged(env, w, a), Next(env, w, a))
  {
    var i, c := a.conn, w.conns[a.conn];
    assert a.op == 0;
    NextIsCompletion(env, w, a);
    var e := Complete(env, w.tables, c, 0, a.oracle);
    if c.pending[0].ReadBody? {
      var x := Exchanged(env, w, a)[0];
      assert Exchanged(env, w, a) == [x];
      BodyStep(env, w.tables, packets[i], Of(log, i), c, a.oracle, x);
      AnswerAligned(env, packets, log, w, e.tables, x, e.conn);
    } else {
      PartAligned(env, w.tables, packets[i], Of(log, i), c, a.oracle);
      ConnAligned(env, packets, log, w, w.tables, i, e.conn, packets[i]);
      assert packets[i := packets[i]] == packets && log + [] == log;
    }
  }

  lemma StepAligned(env: Env, packets: seq<seq<Packet>>, log: seq<Exchange>, w: World, a: Action)
    requires env.codec.Faithful() && AllAligned(env, packets, log, w) && Framed(env, a) && !Next(env, w, a).crashed
    ensures AllAligned(env, AlsoSent(env, packets, w, a), log + Exchanged(env, w, a), Next(env, w, a))
  {
    if a.Succeed? && a.conn < |w.conns| && Arrived(env, w.conns[a.conn], a.op) {
      HandlerAligned(env, packets, log, w, a);
    } else {
      assert log + Exchanged(env, w, a) == log;
      if a == Accept(true) {
        AcceptAligned(env, packets, log, w);
      } else if !a.Accept? && !a.Succeed? {
        PeerAligned(env, packets, log, w, a);
      }
    }
  }

  /** In every run without transport failures whose peers send frames of the four request types, with
      any bodies, also such that cannot be decoded: each session has answered one request per frame, in
      order, and every read starts where a part of a frame starts. */
  lemma {:induction false} FramedRunsStayAligned(env: Env, run: seq<Action>)
    requires env.codec.Faithful() && !Run(env, run).crashed
    requires forall k :: 0 <= k < |run| ==> Framed(env, run[k])
    ensures AllAligned(env, Incoming(env, run), LogOf(env, run), Run(env, run))
  {
    if run != [] {
      var init := run[..|run| - 1];
      FramedRunsStayAligned(env, init);
      StepAligned(env, Incoming(env, init), LogOf(env, init), Run(env, init), run[|run| - 1]);
    }
  }

  // ---------- Runs in which peers send requests ----------

  /** No transport failure, and peers that send only requests. */
  predicate Clean(a: Action) {
    !a.SendRaw? && !a.Fail?
  }

  /** The session has answered exactly the requests `mine`, in the order in which they were sent. */
  ghost predicate InStep(env: Env, mine: seq<Exchange>, c: Conn) {
    && Aligned(env, Packets(env.codec, c.sent), mine, c)
    && Requests(mine) <= c.sent
    && (forall k :: 0 <= k < |c.sent| ==> env.codec.Sendable(c.sent[k]))
  }

  /** Of a request that was sent, the handler reads the request. */
  lemma SentIsRead(env: Env, r: Request, o: Oracle)
    requires env.codec.Faithful() && env.codec.Sendable(r)
    ensures RequestIn(env, RequestType(r), env.codec.request(r), o) == r
  {
    assert env.codec.ReadsRequest(r);
  }

  lemma AlignedIsInStep(env: Env, mine: seq<Exchange>, c: Conn)
    requires env.codec.Faithful() && Aligned(env, Packets(env.codec, c.sent), mine, c)
    requires forall k :: 0 <= k < |c.sent| ==> env.codec.Sendable(c.sent[k])
    ensures InStep(env, mine, c)
  {
    forall k | 0 <= k < |mine|
      ensures Requests(mine)[k] == c.sent[k]
    {
      assert IsRead(env, PacketOf(env.codec, c.sent[k]), mine[k].request);
      var o :| mine[k].request == RequestIn(env, RequestType(c.sent[k]), env.codec.request(c.sent[k]), o);
      SentIsRead(env, c.sent[k], o);
    }
  }

  ghost predicate OnlyRequests(env: Env, packets: seq<seq<Packet>>, w: World) {
    && |packets| == |w.conns|
    && (forall i :: 0 <= i < |packets| ==> packets[i] == Packets(env.codec, w.conns[i].sent))
    && (forall i, k :: 0 <= i < |packets| && 0 <= k < |w.conns[i].sent| ==> env.codec.Sendable(w.conns[i].sent[k]))
  }

  lemma ActSends(env: Env, t: Tables, c: Conn, a: Action)
    requires Clean(a) && !a.Accept?
    ensures var sent := Act(env, t, c, a).conn.sent;
            if a.Send? && env.codec.Sendable(a.request)
            then sent == c.sent + [a.request]
                 && Packets(env.codec, sent) == Packets(env.codec, c.sent) + [PacketOf(env.codec, a.request)]
            else sent == c.sent
  {
  }

  lemma StepSendsRequests(env: Env, packets: seq<seq<Packet>>, w: World, a: Action)
    requires OnlyRequests(env, packets, w) && Clean(a)
    ensures OnlyRequests(env, AlsoSent(env, packets, w, a), Next(env, w, a))
  {
    if !w.crashed && !a.Accept? && a.conn < |packets| {
      ActSends(env, w.tables, w.conns[a.conn], a);
    }
  }

  lemma {:induction false} CleanRunsSendRequests(env: Env, run: seq<Action>)
    requires forall k :: 0 <= k < |run| ==> Clean(run[k])
    ensures OnlyRequests(env, Incoming(env, run), Run(env, run))
  {
    if run != [] {
      var init := run[..|run| - 1];
      CleanRunsSendRequests(env, init);
      StepSendsRequests(env, Incoming(env, init), Run(env, init), run[|run| - 1]);
    }
  }

  /** The log accounts for the store, for all answers and for every byte read or written. */
  ghost predicate Explains(env: Env, log: seq<Exchange>, w: World) {
    && Accounts(env, log, w.tables)
    && (forall k :: 0 <= k < |log| ==> log[k].conn < |w.conns|)
    && (forall i: nat :: i < |w.conns| ==> InStep(env, Of(log, i), w.conns[i]))
  }

  /** In every run without transport failures, for any number of sessions and any splitting and
      interleaving: the log gives one global order of the answered requests in which an ordered map,
      serving one request at a time, ends as the store and gives every answer; each session has
      answered a prefix of what its peer sent, in order and once each, and it has written exactly
      these answers; and each of its reads starts where a part of a frame starts. */
  lemma EveryCleanRunIsExplained(env: Env, run: seq<Action>)
    requires env.codec.Faithful() && !Run(env, run).crashed
    requires forall k :: 0 <= k < |run| ==> Clean(run[k])
    ensures Explains(env, LogOf(env, run), Run(env, run))
  {
    EveryRunIsLinearized(env, run);
    FramedRunsStayAligned(env, run);
    CleanRunsSendRequests(env, run);
    var log, w := LogOf(env, run), Run(env, run);
    forall i: nat | i < |w.conns|
      ensures InStep(env, Of(log, i), w.conns[i])
    {
      AlignedIsInStep(env, Of(log, i), w.conns[i]);
    }
  }

  /** When a body has arrived, the handler serves the very request that the peer sent next. */
  lemma BodyIsNextRequest(env: Env, mine: seq<Exchange>, c: Conn, o: Oracle)
    requires env.codec.Faithful()
    requires InStep(env, mine, c) && c.pending[0].ReadBody? && c.pending[0].size <= |c.inbox|
    ensures |mine| < |c.sent|
    ensures RequestIn(env, c.pending[0].kind, c.inbox[..c.pending[0].size], o) == c.sent[|mine|]
    ensures c.inbox[c.pending[0].size..] + c.wire == RequestStream(env.codec, c.sent[|mine| + 1..])
  {
    BodyIsNextPacket(env, Packets(env.codec, c.sent), mine, c);
    SentIsRead(env, c.sent[|mine|], o);
    assert Packets(env.codec, c.sent)[|mine| + 1..] == Packets(env.codec, c.sent[|mine| + 1..]);
  }

  // ---------- Nothing is left over ----------

  /** The peer's bytes have all arrived, and the session waits for more. */
  ghost predicate Waiting(env: Env, c: Conn) {
    |c.pending| == 1 && c.wire == [] && !c.pending[0].Write? && |c.inbox| < Need(env, c.pending[0])
  }

  lemma MoreMeansEnough(env: Env, rest: seq<Packet>, replies: Bytes, c: Conn)
    requires env.codec.Faithful() && rest != []
    requires |c.pending| == 1 && AtPlace(env, rest, replies, c) && c.wire == []
    ensures Need(env, c.pending[0]) <= |c.inbox|
  {
    assert env.codec.ReadsPrefix(rest[0].kind, |rest[0].body|);
    PacketStreamFirst(env.codec, rest);
    assert Ahead(c) == c.inbox;
  }

  /** However the stream was split, a session that waits with nothing more to arrive has answered a
      request for every frame, and has no byte left over. */
  lemma WaitingMeansAllServed(env: Env, packets: seq<Packet>, mine: seq<Exchange>, c: Conn)
    requires env.codec.Faithful() && Aligned(env, packets, mine, c) && Waiting(env, c)
    ensures c.pending == [ReadMeta] && c.inbox == []
    ensures |mine| == |packets| && c.written == ResponseStream(env.codec, Responses(mine))
  {
    var rest := packets[|mine|..];
    assert Ahead(c) == c.inbox;
    if rest != [] {
      MoreMeansEnough(env, rest, ResponseStream(env.codec, Responses(mine)), c);
    }
    assert PacketStream(env.codec, []) == [];
  }

  /** If they were requests, it has recovered exactly these and has answered them all. */
  lemma WaitingMeansAllAnswered(env: Env, mine: seq<Exchange>, c: Conn)
    requires env.codec.Faithful() && InStep(env, mine, c) && Waiting(env, c)
    ensures c.pending == [ReadMeta] && c.inbox == []
    ensures Requests(mine) == c.sent && c.written == ResponseStream(env.codec, Responses(mine))
  {
    WaitingMeansAllServed(env, Packets(env.codec, c.sent), mine, c);
  }

  // ---------- What keeps reads on frame boundaries ----------

  /** Runs the next handlers of a session until it reads a meta header again. */
  ghost function Settle(env: Env, t: Tables, c: Conn, o: Oracle, steps: nat): Conn
    decreases steps
  {
    if steps == 0 || c.pending == [ReadMeta] || !Arrived(env, c, 0) then c
    else
      var e := Complete(env, t, c, 0, o);
      Settle(env, e.tables, e.conn, o, steps - 1)
  }

  /** Two handlers write the answer and start over. */
  lemma SettleWrite(env: Env, t: Tables, c: Conn, o: Oracle, steps: nat)
    requires |c.pending| == 1 && c.pending[0].Write? && steps > 0
    ensures Settle(env, t, c, o, steps).pending == [ReadMeta] && Settle(env, t, c, o, steps).inbox == c.inbox
  {
    AfterFirstOp(c);
    assert c.inbox[0..] == c.inbox;
  }

  lemma SettleBody(env: Env, t: Tables, c: Conn, o: Oracle, kind: RequestKind, body: Bytes, back: Bytes, steps: nat)
    requires c.pending == [ReadBody(kind, |body|)] && c.inbox == body + back && steps > 1
    requires Serve(env, t, RequestIn(env, kind, body, o), o.now).1 != Crash
    ensures Settle(env, t, c, o, steps).pending == [ReadMeta] && Settle(env, t, c, o, steps).inbox == back
  {
    TakeFront(c.inbox, [], body, back);
    AfterFirstOp(c);
    var e := Complete(env, t, c, 0, o);
    assert e.conn.inbox == back;
    SettleWrite(env, e.tables, e.conn, o, steps - 1);
  }

  /** When the header of a frame has arrived, with its body and more bytes behind it, the session's
      next meta-header read starts behind the body exactly when the frame's type is one of the four
      requests, or the body is empty: any other type is answered without taking its body. */
  lemma ReadsResumeBehindRequests(env: Env, t: Tables, c: Conn, o: Oracle,
                                  kind: Messages.MessageType, body: Bytes, back: Bytes)
    requires env.codec.Faithful() && |body| <= INT_MAX
    requires c.pending == [ReadHeader(|env.codec.header(kind, |body|)|)]
    requires c.inbox == env.codec.header(kind, |body|) + (body + back)
    requires IsRequestType(kind) ==> Serve(env, t, RequestIn(env, kind, body, o), o.now).1 != Crash
    ensures Settle(env, t, c, o, 3).pending == [ReadMeta]
    ensures Settle(env, t, c, o, 3).inbox == back <==> IsRequestType(kind) || body == []
  {
    var header := env.codec.header(kind, |body|);
    assert env.codec.ReadsPrefix(kind, |body|);
    TakeFront(c.inbox, [], header, body + back);
    AfterFirstOp(c);
    var e := Complete(env, t, c, 0, o);
    assert e.conn.inbox == body + back;
    if IsRequestType(kind) {
      SettleBody(env, t, e.conn, o, kind, body, back, 2);
    } else {
      SettleWrite(env, t, e.conn, o, 2);
    }
    assert body == [] ==> body + back == back;
    assert body != [] ==> |body + back| > |back|;
  }
}
