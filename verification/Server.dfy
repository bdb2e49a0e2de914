// The server's objects: sessions with their handlers, and the server that accepts them. Each method
// is proved to make the step of the transition system in Sessions.

module Servers {
  import opened Wire
  import opened Messages
  import opened Protocol
  import DataModel
  import opened Store
  import opened DataAccesses
  import opened Sessions

  class Session {
    const env: Env
    const access: DataAccess

    // The socket: what the peer has sent, what is on its way, what has arrived, what was written.
    var sent: seq<Request>
    var wire: Bytes
    var inbox: Bytes
    var written: Bytes

    // The asynchronous operations under way.
    var pending: seq<Op>

    ghost function State(): Conn
      reads this
    {
      Conn(sent, wire, inbox, written, pending)
    }

    constructor (env: Env, access: DataAccess)
      ensures this.env == env && this.access == access
      ensures State() == Conn([], [], [], [], [])
    {
      this.env, this.access := env, access;
      sent, wire, inbox, written, pending := [], [], [], [], [];
    }

    method Start()
      modifies this
      ensures State() == DoRead(old(State()))
    {
      ReadHeader();
    }

    /** Starts the read of a meta header. */
    method ReadHeader()
      modifies this`pending
      ensures State() == DoRead(old(State()))
    {
      pending := pending + [ReadMeta];
    }

    /** Starts the write of a frame. */
    method SendMsg(frame: Bytes)
      modifies this`pending
      ensures State() == Begin(old(State()), Write(frame))
    {
      pending := pending + [Write(frame)];
    }

    /** `send_status_response`, `send_values_response` and `send_variables_response`: meta header,
        header and body in one buffer. */
    method SendResponse(r: Response)
      modifies this`pending
      ensures State() == Respond(env, old(State()), r)
    {
      var body := env.codec.response(r);
      var header := env.codec.header(ResponseType(r), |body|);
      var meta := env.codec.meta(ResponseType(r), |body|);
      SendMsg(meta + header + body);
    }

    /** Starts the read of a body, or answers a type that is not a request. */
    method ReadBodyOf(h: Header)
      modifies this`pending
      ensures State() == BodyOf(env, old(State()), h)
    {
      match h.msgType
      case REQUEST_SAVE_VALUE => pending := pending + [ReadBody(REQUEST_SAVE_VALUE, h.bodySize)];
      case REQUEST_GET_VALUES => pending := pending + [ReadBody(REQUEST_GET_VALUES, h.bodySize)];
      case REQUEST_ADD_VAR => pending := pending + [ReadBody(REQUEST_ADD_VAR, h.bodySize)];
      case REQUEST_GET_VARIABLES => pending := pending + [ReadBody(REQUEST_GET_VARIABLES, h.bodySize)];
      case _ => SendResponse(StatusOnly(FAILED, "unknow error"));
    }

    /** The handlers of the four request bodies. */
    method ServeRequest(r: Request, now: I64) returns (crashed: bool)
      modifies this`pending, access.source
      ensures Effect(access.source.Contents(), State(), crashed)
           == BodyArrived(env, old(access.source.Contents()), old(State()), r, now)
    {
      crashed := false;
      match r
      case AddVar(v) =>
        var err := access.source.InsertVariable(DataModel.Variable(v.name, v.color));
        SendResponse(AddReply(err));
      case SaveVal(v) =>
        var err := access.source.InsertValue(DataModel.Reading(v.variable, env.fp.stored(v.value), 0), now);
        SendResponse(SaveReply(err));
      case GetVals(q) =>
        var fetched := access.FetchVariableValues(q.variable, RangeOf(q), MAX_VALUES);
        var served := FetchReply(env.fp, fetched);
        match served {
          case Answered(response) => SendResponse(response);
          case Crash => crashed := true;
        }
      case GetVars =>
        var variables, err := access.FetchAllVariables();
        SendResponse(VariablesReplyOf(variables, err));
    }

    /** The handler of operation j when it has succeeded. */
    method OnSuccess(j: nat, o: Oracle) returns (crashed: bool)
      requires j < |pending| && Need(env, pending[j]) <= |inbox|
      modifies this, access.source
      ensures Effect(access.source.Contents(), State(), crashed)
           == Complete(env, old(access.source.Contents()), old(State()), j, o)
    {
      var op, data := pending[j], inbox[..Need(env, pending[j])];
      inbox := inbox[Need(env, op)..];
      pending := pending[..j] + pending[j + 1..];
      crashed := false;
      match op
      case ReadMeta =>
        var meta := Parsed(data, env.codec.readMeta(data), o.meta);
        pending := pending + [Op.ReadHeader(meta.headerSize)];
      case ReadHeader(_) =>
        var header := Parsed(data, env.codec.readHeader(data), o.header);
        ReadBodyOf(header);
      case ReadBody(kind, _) =>
        crashed := ServeRequest(RequestIn(env, kind, data, o), o.now);
      case Write(frame) =>
        written := written + frame;
        ReadHeader();
    }

    /** The handler of operation j when it has failed after k bytes. */
    method OnFailure(j: nat, k: nat)
      requires j < |pending|
      modifies this
      ensures State() == Break(env, old(State()), j, k)
    {
      var op := pending[j];
      inbox := inbox[Min(k, Min(Need(env, op), |inbox|))..];
      pending := pending[..j] + pending[j + 1..];
      match op
      case ReadMeta => SendResponse(StatusOnly(FAILED, "reading mh_buff"));
      case ReadHeader(_) => SendResponse(StatusOnly(FAILED, "reading h_buff"));
      case ReadBody(_, _) =>
      case Write(frame) =>
        written := written + frame[..Min(k, |frame|)];
        SendResponse(StatusOnly(FAILED, "writing response"));
    }

    /** The peer, the network or a finished operation acts on the session. */
    method Act(a: Action) returns (crashed: bool)
      requires !a.Accept?
      modifies this, access.source
      ensures Effect(access.source.Contents(), State(), crashed)
           == Sessions.Act(env, old(access.source.Contents()), old(State()), a)
    {
      crashed := false;
      match a
      case Send(_, r) =>
        if env.codec.Sendable(r) {
          sent, wire := sent + [r], wire + env.codec.RequestFrame(r);
        }
      case SendRaw(_, data) =>
        wire := wire + data;
      case Deliver(_, size) =>
        if size <= |wire| {
          wire, inbox := wire[size..], inbox + wire[..size];
        }
      case Succeed(_, j, o) =>
        if j < |pending| && Need(env, pending[j]) <= |inbox| {
          crashed := OnSuccess(j, o);
        }
      case Fail(_, j, k) =>
        if j < |pending| {
          OnFailure(j, k);
        }
    }
  }

  class Server {
    const env: Env
    const access: DataAccess
    var sessions: seq<Session>
    var crashed: bool

    ghost predicate Valid()
      reads this
    {
      && (forall i :: 0 <= i < |sessions| ==> sessions[i].env == env && sessions[i].access == access)
      && (forall i, j :: 0 <= i < j < |sessions| ==> sessions[i] != sessions[j])
    }

    ghost function States(ss: seq<Session>): (cs: seq<Conn>)
      reads ss
      ensures |cs| == |ss|
      ensures forall i :: 0 <= i < |ss| ==> cs[i] == ss[i].State()
    {
      seq(|ss|, i requires 0 <= i < |ss| reads ss => ss[i].State())
    }

    ghost function Whole(): World
      reads this, access.source, sessions
    {
      World(access.source.Contents(), States(sessions), crashed)
    }

    /** Creates the schema and the variable "temp" in a new database. */
    constructor (env: Env)
      ensures Valid() && this.env == env && fresh(access.source)
      ensures sessions == [] && Whole() == Sessions.Start()
    {
      var source := new SQLiteWrapper();
      var access := new DataAccess(source);
      this.env, this.access := env, access;
      sessions, crashed := [], false;
      new;
      var err := source.CreateTables();
      err := source.InsertVariable(DataModel.Variable(Text("temp"), Text("color")));
    }

    /** The handler of `async_accept`, which then waits for the next peer. */
    method DoAccept(ok: bool)
      requires Valid() && !crashed
      modifies this`sessions
      ensures Valid() && Whole() == Next(env, old(Whole()), Accept(ok))
      ensures forall s :: s in sessions ==> s in old(sessions) || fresh(s)
    {
      if ok {
        var session := new Session(env, access);
        session.Start();
        assert States(sessions + [session]) == States(sessions) + [session.State()];
        sessions := sessions + [session];
      }
    }

    /** Lets one session act. */
    method SessionStep(a: Action)
      requires Valid() && !crashed && !a.Accept? && a.conn < |sessions|
      modifies this`crashed, access.source, sessions[a.conn]
      ensures Valid() && Whole() == Next(env, old(Whole()), a)
    {
      var session := sessions[a.conn];
      ghost var before := States(sessions);
      crashed := session.Act(a);
      assert forall j :: 0 <= j < |sessions| && j != a.conn ==> sessions[j] != session;
      OnlyOneChanges(before, States(sessions), a.conn);
    }

    /** Lets one action happen. */
    method Step(a: Action)
      requires Valid()
      modifies this`sessions, this`crashed, access.source, sessions
      ensures Valid() && Whole() == Next(env, old(Whole()), a)
      ensures forall s :: s in sessions ==> s in old(sessions) || fresh(s)
    {
      if !crashed {
        if a.Accept? {
          DoAccept(a.ok);
        } else if a.conn < |sessions| {
          SessionStep(a);
        }
      }
    }
  }

  lemma OnlyOneChanges(before: seq<Conn>, after: seq<Conn>, i: nat)
    requires i < |before| == |after| && forall j :: 0 <= j < |before| && j != i ==> after[j] == before[j]
    ensures after == before[i := after[i]]
  {
  }

  /** A server that goes through any run of actions, from its construction on, is at every point the
      server of the transition system. */
  method Perform(env: Env, run: seq<Action>) returns (server: Server)
    ensures server.Valid() && server.env == env && server.Whole() == Run(env, run)
  {
    server := new Server(env);
    for k := 0 to |run|
      invariant fresh(server) && fresh(server.access.source) && forall s :: s in server.sessions ==> fresh(s)
      invariant server.Valid() && server.env == env && server.Whole() == Run(env, run[..k])
    {
      assert run[..k + 1][..k] == run[..k];
      server.Step(run[k]);
    }
    assert run[..|run|] == run;
  }
}
