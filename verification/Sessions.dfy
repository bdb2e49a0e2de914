// The server as a transition system: sessions that share one store, each a chain of handlers.

module Sessions {
  import opened Options
  import opened Wire
  import opened Messages
  import opened Protocol
  import DataModel
  import Times
  import opened Store
  import DataAccesses

  // `max_values_ammount`
  const MAX_VALUES: nat := 120

  /** How doubles are stored and sent: the number that a column holds for a bit pattern, and the bit
      pattern that is sent for a number. Everything below holds for any such pair. */
  datatype Doubles = Doubles(stored: U64 -> real, sent: real -> U64)

  // What the server is built on.
  datatype Env = Env(fp: Doubles, codec: Codec)

  // ---------- Answers ----------

  function Text(s: string): Bytes {
    seq(|s|, i requires 0 <= i < |s| => (s[i] as int) % 256)
  }

  function StatusOnly(status: ResponseStatus, msg: string): Response {
    StatusReply(Failure(status, Some(Text(msg)), None))
  }

  /** Only the reply to a variable that was added names the request that it answers. */
  function AddReply(err: Err): Response {
    if err == Ok then StatusReply(Failure(OK, Some(Text("Ok")), Some(REQUEST_ADD_VAR)))
    else StatusOnly(FAILED, "Failed to save value")
  }

  function SaveReply(err: Err): Response {
    if err == Ok then StatusOnly(OK, "Ok") else StatusOnly(FAILED, "Failed to save value")
  }

  function ValuesMessage(fp: Doubles, vals: seq<DataModel.Reading>): (vs: seq<VarValue>)
    ensures |vs| == |vals|
    ensures forall i :: 0 <= i < |vs| ==> vs[i] == VarValue(vals[i].name, fp.sent(vals[i].val), vals[i].timestamp)
  {
    seq(|vals|, i requires 0 <= i < |vals| => VarValue(vals[i].name, fp.sent(vals[i].val), vals[i].timestamp))
  }

  function VariablesMessage(variables: seq<DataModel.Variable>): (vs: seq<SaveVariable>)
    ensures |vs| == |variables|
    ensures forall i :: 0 <= i < |vs| ==> vs[i] == SaveVariable(variables[i].name, variables[i].color)
  {
    seq(|variables|, i requires 0 <= i < |variables| => SaveVariable(variables[i].name, variables[i].color))
  }

  // Crash: the process runs into the undefined behaviour of compress.
  datatype Served = Answered(response: Response) | Crash

  function FetchReply(fp: Doubles, r: DataAccesses.Fetched): Served {
    match r
    case Readings(vals) => Answered(ValuesReply(ValuesMessage(fp, vals)))
    case Refused => Answered(StatusOnly(FAILED, "Failed to get values"))
    case Faulted => Crash
  }

  function VariablesReplyOf(variables: seq<DataModel.Variable>, err: Err): Response {
    if err == Ok then VariablesReply(VariablesMessage(variables)) else StatusOnly(FAILED, "Failed to get variables")
  }

  /** Only a request with both bounds asks for a range. */
  function RangeOf(q: GetValues): Range {
    if q.start.Some? && q.end.Some?
    then Between(Times.FromMillis(q.start.value), Times.FromMillis(q.end.value)) else Always
  }

  /** What the four request handlers do with the store. */
  ghost function Serve(env: Env, t: Tables, r: Request, now: I64): (Tables, Served) {
    match r
    case AddVar(v) =>
      var (t', err) := AddVariable(t, v.name, v.color);
      (t', Answered(AddReply(err)))
    case SaveVal(v) =>
      var (t', err) := AddVariableValue(t, v.variable, env.fp.stored(v.value), now);
      (t', Answered(SaveReply(err)))
    case GetVals(q) => (t, FetchReply(env.fp, DataAccesses.FetchLimited(t, q.variable, RangeOf(q), MAX_VALUES)))
    case GetVars =>
      var (variables, err) := FetchVariables(t);
      (t, Answered(VariablesReplyOf(variables, err)))
  }

  // ---------- One connection ----------

  // An asynchronous operation that has been started and whose handler has not run yet.
  datatype Op =
    | ReadMeta
    | ReadHeader(size: nat)
    | ReadBody(kind: RequestKind, size: nat)
    | Write(frame: Bytes)

  // `sent` is what the peer has asked for so far, `wire` its bytes still on the way, `inbox` the
  // bytes that have arrived, `written` what the server has written, and `pending` the operations
  // under way.
  datatype Conn = Conn(sent: seq<Request>, wire: Bytes, inbox: Bytes, written: Bytes, pending: seq<Op>)

  /** What the environment decides: the clock, and the fields left by ParseFromArray when it refuses
      its input, a result that the handlers do not look at. */
  datatype Oracle = Oracle(now: I64, meta: MetaHeader, header: Header,
                           variable: SaveVariable, value: SaveValue, query: GetValues)

  function Parsed<T>(data: Bytes, decoded: Option<T>, junk: T): T {
    if |data| <= INT_MAX && decoded.Some? then decoded.value else junk
  }

  /** async_read completes when all its bytes are there. */
  function Need(env: Env, op: Op): nat {
    match op
    case ReadMeta => env.codec.probe
    case ReadHeader(size) => size
    case ReadBody(_, size) => size
    case Write(_) => 0
  }

  function Begin(c: Conn, op: Op): Conn {
    c.(pending := c.pending + [op])
  }

  function DoRead(c: Conn): Conn { Begin(c, ReadMeta) }

  function Respond(env: Env, c: Conn, r: Response): Conn { Begin(c, Write(env.codec.ResponseFrame(r))) }

  /** `read_body`: a type that is not a request is answered without reading its body. */
  function BodyOf(env: Env, c: Conn, h: Header): Conn {
    if IsRequestType(h.msgType) then Begin(c, ReadBody(h.msgType, h.bodySize))
    else Respond(env, c, StatusOnly(FAILED, "unknow error"))
  }

  function JunkRequest(kind: RequestKind, o: Oracle): Request {
    match kind
    case REQUEST_ADD_VAR => AddVar(o.variable)
    case REQUEST_SAVE_VALUE => SaveVal(o.value)
    case REQUEST_GET_VALUES => GetVals(o.query)
    case REQUEST_GET_VARIABLES => GetVars
  }

  function RequestIn(env: Env, kind: RequestKind, data: Bytes, o: Oracle): Request {
    Parsed(data, env.codec.readRequest(kind, data), JunkRequest(kind, o))
  }

  datatype Effect = Effect(tables: Tables, conn: Conn, crashed: bool)

  ghost function BodyArrived(env: Env, t: Tables, c: Conn, r: Request, now: I64): Effect {
    var (t', served) := Serve(env, t, r, now);
    match served
    case Answered(response) => Effect(t', Respond(env, c, response), false)
    case Crash => Effect(t', c, true)
  }

  /** Takes operation j out, together with the bytes that it has consumed. */
  function Finish(c: Conn, j: nat, consumed: nat): Conn
    requires j < |c.pending| && consumed <= |c.inbox|
  {
    c.(pending := c.pending[..j] + c.pending[j + 1..], inbox := c.inbox[consumed..])
  }

  /** The handler of operation j after a success. */
  ghost function Complete(env: Env, t: Tables, c: Conn, j: nat, o: Oracle): Effect
    requires j < |c.pending| && Need(env, c.pending[j]) <= |c.inbox|
  {
    var op := c.pending[j];
    var data, rest := c.inbox[..Need(env, op)], Finish(c, j, Need(env, op));
    match op
    case ReadMeta =>
      Effect(t, Begin(rest, ReadHeader(Parsed(data, env.codec.readMeta(data), o.meta).headerSize)), false)
    case ReadHeader(_) => Effect(t, BodyOf(env, rest, Parsed(data, env.codec.readHeader(data), o.header)), false)
    case ReadBody(kind, _) => BodyArrived(env, t, rest, RequestIn(env, kind, data, o), o.now)
    case Write(frame) => Effect(t, DoRead(rest.(written := rest.written + frame)), false)
  }

  function Min(a: nat, b: nat): nat {
    if a < b then a else b
  }

  /** The handler of operation j after a failure, when k bytes had been read or written. */
  function Break(env: Env, c: Conn, j: nat, k: nat): Conn
    requires j < |c.pending|
  {
    var op := c.pending[j];
    var rest := Finish(c, j, Min(k, Min(Need(env, op), |c.inbox|)));
    match op
    case ReadMeta => Respond(env, rest, StatusOnly(FAILED, "reading mh_buff"))
    case ReadHeader(_) => Respond(env, rest, StatusOnly(FAILED, "reading h_buff"))
    case ReadBody(_, _) => rest
    case Write(frame) =>
      Respond(env, rest.(written := rest.written + frame[..Min(k, |frame|)]), StatusOnly(FAILED, "writing response"))
  }

  // ---------- The whole server and its peers ----------

  datatype World = World(tables: Tables, conns: seq<Conn>, crashed: bool)

  datatype Action =
    | Accept(ok: bool)                              // a peer connects
    | Send(conn: nat, request: Request)             // the peer sends a request
    | SendRaw(conn: nat, data: Bytes)               // the peer sends something else
    | Deliver(conn: nat, size: nat)                 // that many bytes arrive
    | Succeed(conn: nat, op: nat, oracle: Oracle)   // an operation completes
    | Fail(conn: nat, op: nat, bytes: nat)          // an operation fails after that many bytes

  const NEW_CONN := DoRead(Conn([], [], [], [], []))

  function InitialTables(): Tables {
    AddVariable(CreateScheme(NO_TABLES).0, Text("temp"), Text("color")).0
  }

  /** The server's constructor: a new database with the variable "temp", and no session yet. */
  function Start(): World {
    World(InitialTables(), [], false)
  }

  predicate Arrived(env: Env, c: Conn, j: nat) {
    j < |c.pending| && Need(env, c.pending[j]) <= |c.inbox|
  }

  /** What an action does to the connection it is about; one that is not possible does nothing. */
  ghost function Act(env: Env, t: Tables, c: Conn, a: Action): Effect
    requires !a.Accept?
  {
    match a
    case Send(_, r) =>
      Effect(t, if env.codec.Sendable(r) then c.(sent := c.sent + [r], wire := c.wire + env.codec.RequestFrame(r))
                else c, false)
    case SendRaw(_, data) => Effect(t, c.(wire := c.wire + data), false)
    case Deliver(_, size) =>
      Effect(t, if size <= |c.wire| then c.(wire := c.wire[size..], inbox := c.inbox + c.wire[..size]) else c, false)
    case Succeed(_, j, o) => if Arrived(env, c, j) then Complete(env, t, c, j, o) else Effect(t, c, false)
    case Fail(_, j, k) => Effect(t, if j < |c.pending| then Break(env, c, j, k) else c, false)
  }

  /** One step. Nothing happens after a crash. */
  ghost function Next(env: Env, w: World, a: Action): World {
    if w.crashed then w
    else if a.Accept? then w.(conns := w.conns + if a.ok then [NEW_CONN] else [])
    else if a.conn < |w.conns| then
      var e := Act(env, w.tables, w.conns[a.conn], a);
      World(e.tables, w.conns[a.conn := e.conn], e.crashed)
    else w
  }

  ghost function Run(env: Env, run: seq<Action>): World {
    if run == [] then Start() else Next(env, Run(env, run[..|run| - 1]), run[|run| - 1])
  }
}
