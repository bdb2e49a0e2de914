// Sessions get ahead: every turn of a session with bytes to read brings it closer to rest.

module Progress {
  import opened Options
  import opened Wire
  import opened Messages
  import opened Protocol
  import DataModel
  import opened Store
  import opened Sessions
  import opened Invariants
  import opened Linearization
  import opened Alignments

  // ---------- Counting turns ----------

  /** The handler of session i runs. */
  predicate IsTurn(a: Action, i: nat) {
    a.Succeed? && a.conn == i && a.op == 0
  }

  function Turns(more: seq<Action>, i: nat): nat {
    if more == [] then 0 else (if IsTurn(more[0], i) then 1 else 0) + Turns(more[1..], i)
  }

  predicate SendsTo(a: Action, i: nat) {
    (a.Send? || a.SendRaw?) && a.conn == i
  }

  /** How many turns a session needs until it has answered everything: four for each frame that it has
      not started to read, for its meta header, its header, its body and its answer. */
  function TurnsLeft(c: Conn, unanswered: int): int
    requires |c.pending| == 1
  {
    match c.pending[0]
    case ReadMeta => 4 * unanswered
    case ReadHeader(_) => 4 * unanswered - 1
    case ReadBody(_, _) => 4 * unanswered - 2
    case Write(_) => 4 * unanswered + 1
  }

  /** When all bytes have arrived, a session either has a turn left and can take it, or it waits. */
  lemma TurnOrRest(env: Env, packets: seq<Packet>, mine: seq<Exchange>, c: Conn)
    requires env.codec.Faithful() && Aligned(env, packets, mine, c) && c.wire == []
    ensures TurnsLeft(c, |packets| - |mine|) > 0 <==> Arrived(env, c, 0)
    ensures TurnsLeft(c, |packets| - |mine|) == 0 <==> Waiting(env, c)
    ensures TurnsLeft(c, |packets| - |mine|) >= 0
  {
    var rest := packets[|mine|..];
    if rest != [] {
      MoreMeansEnough(env, rest, ResponseStream(env.codec, Responses(mine)), c);
    } else {
      assert Ahead(c) == c.inbox;
      assert PacketStream(env.codec, []) == [];
    }
  }

  /** Each turn is one less to go. */
  lemma TurnTaken(env: Env, t: Tables, packets: seq<Packet>, mine: seq<Exchange>, c: Conn, o: Oracle)
    requires env.codec.Faithful() && Aligned(env, packets, mine, c) && Arrived(env, c, 0)
    requires !Complete(env, t, c, 0, o).crashed
    ensures var e, unanswered := Complete(env, t, c, 0, o), |packets| - |mine|;
            && e.conn.wire == c.wire && |e.conn.pending| == 1
            && TurnsLeft(e.conn, if c.pending[0].ReadBody? then unanswered - 1 else unanswered)
            == TurnsLeft(c, unanswered) - 1
  {
    match c.pending[0]
    case ReadMeta => MetaStep(env, t, packets, mine, c, o);
    case ReadHeader(_) => HeaderStep(env, t, packets, mine, c, o);
    case ReadBody(_, _) => AfterFirstOp(c);
    case Write(_) => WriteStep(env, t, packets, mine, c, o);
  }

  // ---------- Runs ----------

  ghost function Left(packets: seq<seq<Packet>>, log: seq<Exchange>, w: World, i: nat): int
    requires i < |packets| == |w.conns| && |w.conns[i].pending| == 1
  {
    TurnsLeft(w.conns[i], |packets[i]| - |Of(log, i)|)
  }

  function CountDown(left: int, turns: nat): int {
    if turns < left then left - turns else 0
  }

  ghost predicate Unmoved(packets: seq<seq<Packet>>, log: seq<Exchange>, w: World,
                          packets': seq<seq<Packet>>, log': seq<Exchange>, w': World, i: nat) {
    && i < |w.conns| == |packets| && i < |w'.conns| == |packets'|
    && w'.conns[i] == w.conns[i] && packets'[i] == packets[i] && Of(log', i) == Of(log, i)
  }

  /** What the others do leaves a session where it is, and so does a handler that cannot run. */
  lemma OthersDoNotMove(env: Env, packets: seq<seq<Packet>>, log: seq<Exchange>, w: World, a: Action, i: nat)
    requires Framed(env, a) && !w.crashed && i < |w.conns|
    requires w.conns[i].wire == [] && !SendsTo(a, i)
    requires AllAligned(env, packets, log, w) && (!IsTurn(a, i) || !Arrived(env, w.conns[i], 0))
    ensures Unmoved(packets, log, w, AlsoSent(env, packets, w, a), log + Exchanged(env, w, a), Next(env, w, a), i)
  {
    OthersDoNotAnswer(env, log, w, a, i);
    if !a.Accept? && a.conn == i {
      NothingHappens(env, w.tables, w.conns[i], a);
    }
  }

  lemma OthersDoNotAnswer(env: Env, log: seq<Exchange>, w: World, a: Action, i: nat)
    requires i < |w.conns| && |w.conns[i].pending| == 1 && (!IsTurn(a, i) || !Arrived(env, w.conns[i], 0))
    ensures Of(log + Exchanged(env, w, a), i) == Of(log, i)
  {
    var more := Exchanged(env, w, a);
    if more == [] {
      assert log + more == log;
    } else {
      assert more == [more[0]] && more[0].conn == a.conn != i;
      OfAppend(log, more[0], i);
    }
  }

  lemma NothingHappens(env: Env, t: Tables, c: Conn, a: Action)
    requires |c.pending| == 1 && c.wire == [] && (a.Deliver? || (a.Succeed? && !Arrived(env, c, a.op)))
    ensures Act(env, t, c, a) == Effect(t, c, false)
  {
  }

  lemma TurnAnswers(env: Env, log: seq<Exchange>, w: World, a: Action, i: nat)
    requires !w.crashed && i < |w.conns| && IsTurn(a, i) && Arrived(env, w.conns[i], 0) && !Next(env, w, a).crashed
    ensures |Of(log + Exchanged(env, w, a), i)| == |Of(log, i)| + if w.conns[i].pending[0].ReadBody? then 1 else 0
  {
    var more := Exchanged(env, w, a);
    if w.conns[i].pending[0].ReadBody? {
      NextIsCompletion(env, w, a);
      assert more == [more[0]] && more[0].conn == i;
      OfAppend(log, more[0], i);
    } else {
      assert log + more == log;
    }
  }

  lemma TurnMoves(env: Env, packets: seq<seq<Packet>>, log: seq<Exchange>, w: World, a: Action, i: nat)
    requires env.codec.Faithful() && AllAligned(env, packets, log, w) && !w.crashed && i < |w.conns|
    requires IsTurn(a, i) && Arrived(env, w.conns[i], 0) && !Next(env, w, a).crashed
    ensures var w' := Next(env, w, a);
            && i < |w'.conns| == |packets| && w'.conns[i].wire == w.conns[i].wire && |w'.conns[i].pending| == 1
            && Left(packets, log + Exchanged(env, w, a), w', i) == Left(packets, log, w, i) - 1
  {
    var c, log' := w.conns[i], log + Exchanged(env, w, a);
    NextIsCompletion(env, w, a);
    var e := Complete(env, w.tables, c, 0, a.oracle);
    assert Next(env, w, a).conns[i] == e.conn;
    TurnTaken(env, w.tables, packets[i], Of(log, i), c, a.oracle);
    assert |Of(log', i)| == |Of(log, i)| + if c.pending[0].ReadBody? then 1 else 0 by {
      TurnAnswers(env, log, w, a, i);
    }
  }

  ghost predicate CountsDown(packets: seq<seq<Packet>>, log: seq<Exchange>, w: World, i: nat, left: int) {
    && i < |packets| == |w.conns| && |w.conns[i].pending| == 1
    && w.conns[i].wire == [] && Left(packets, log, w, i) == left
  }

  lemma StepCountsDown(env: Env, packets: seq<seq<Packet>>, log: seq<Exchange>, w: World, a: Action, i: nat, left: int)
    requires env.codec.Faithful() && AllAligned(env, packets, log, w) && Framed(env, a)
    requires !w.crashed && !Next(env, w, a).crashed && !SendsTo(a, i)
    requires CountsDown(packets, log, w, i, left)
    ensures CountsDown(AlsoSent(env, packets, w, a), log + Exchanged(env, w, a), Next(env, w, a), i,
                       CountDown(left, if IsTurn(a, i) then 1 else 0))
  {
    TurnOrRest(env, packets[i], Of(log, i), w.conns[i]);
    if IsTurn(a, i) && Arrived(env, w.conns[i], 0) {
      TurnMoves(env, packets, log, w, a, i);
    } else {
      OthersDoNotMove(env, packets, log, w, a, i);
    }
  }

  ghost predicate InStateOf(env: Env, run: seq<Action>, i: nat, left: int) {
    CountsDown(Incoming(env, run), LogOf(env, run), Run(env, run), i, left)
  }

  ghost predicate FramedRun(env: Env, run: seq<Action>) {
    forall k :: 0 <= k < |run| ==> Framed(env, run[k])
  }

  predicate NothingSentTo(more: seq<Action>, i: nat) {
    forall k :: 0 <= k < |more| ==> !SendsTo(more[k], i)
  }

  lemma RunGoesOn(env: Env, run: seq<Action>, a: Action)
    ensures Run(env, run + [a]) == Next(env, Run(env, run), a)
    ensures LogOf(env, run + [a]) == LogOf(env, run) + Exchanged(env, Run(env, run), a)
    ensures Incoming(env, run + [a]) == AlsoSent(env, Incoming(env, run), Run(env, run), a)
  {
    assert (run + [a])[..|run|] == run;
  }

  lemma OneMoreCounts(env: Env, run: seq<Action>, a: Action, all: seq<Action>, i: nat, left: int)
    requires env.codec.Faithful() && FramedRun(env, run) && Framed(env, a) && all == run + [a]
    requires !Run(env, all).crashed && !SendsTo(a, i) && InStateOf(env, run, i, left)
    ensures InStateOf(env, all, i, CountDown(left, if IsTurn(a, i) then 1 else 0))
  {
    RunGoesOn(env, run, a);
    FramedRunsStayAligned(env, run);
    StepCountsDown(env, Incoming(env, run), LogOf(env, run), Run(env, run), a, i, left);
  }

  lemma NoneLeftToCount(env: Env, run: seq<Action>, i: nat, left: int)
    requires env.codec.Faithful() && FramedRun(env, run) && !Run(env, run).crashed && InStateOf(env, run, i, left)
    ensures left >= 0 && (left == 0 ==> Waiting(env, Run(env, run).conns[i]) && Unanswered(env, run, i) == 0)
  {
    FramedRunsStayAligned(env, run);
    var packets, mine, c := Incoming(env, run)[i], Of(LogOf(env, run), i), Run(env, run).conns[i];
    TurnOrRest(env, packets, mine, c);
    if left == 0 {
      WaitingMeansAllServed(env, packets, mine, c);
    }
  }

  /** The first of some more actions, and the rest. */
  lemma FirstOf(env: Env, run: seq<Action>, more: seq<Action>, i: nat)
    returns (a: Action, rest: seq<Action>, next: seq<Action>)
    requires more != [] && FramedRun(env, run) && FramedRun(env, more) && NothingSentTo(more, i)
    ensures more == [a] + rest && next == run + [a] && run + more == next + rest
    ensures Framed(env, a) && !SendsTo(a, i)
    ensures FramedRun(env, next) && FramedRun(env, rest) && NothingSentTo(rest, i)
    ensures Turns(more, i) == (if IsTurn(a, i) then 1 else 0) + Turns(rest, i)
  {
    a, rest, next := more[0], more[1..], run + [more[0]];
  }

  /** Whatever the other sessions do in between: every turn counts. */
  lemma {:induction false} EveryTurnCounts(env: Env, run: seq<Action>, more: seq<Action>, all: seq<Action>,
                                           i: nat, left: int)
    requires env.codec.Faithful() && all == run + more && !Run(env, all).crashed && InStateOf(env, run, i, left)
    requires FramedRun(env, run) && FramedRun(env, more) && NothingSentTo(more, i)
    ensures InStateOf(env, all, i, CountDown(left, Turns(more, i)))
    decreases |more|
  {
    if more == [] {
      assert all == run;
      NoneLeftToCount(env, run, i, left);
    } else {
      var a, rest, next := FirstOf(env, run, more, i);
      CrashIsFinal(env, next, rest, all);
      OneMoreCounts(env, run, a, next, i, left);
      EveryTurnCounts(env, next, rest, all, i, CountDown(left, if IsTurn(a, i) then 1 else 0));
    }
  }

  ghost function Unanswered(env: Env, run: seq<Action>, i: nat): int
    requires i < |Incoming(env, run)|
  {
    |Incoming(env, run)[i]| - |Of(LogOf(env, run), i)|
  }

  /** The session waits and has answered every frame. */
  ghost predicate Settled(env: Env, run: seq<Action>, i: nat) {
    && i < |Run(env, run).conns| == |Incoming(env, run)|
    && Waiting(env, Run(env, run).conns[i]) && Unanswered(env, run, i) == 0
  }

  lemma CountedAt(env: Env, run: seq<Action>, i: nat) returns (left: int)
    requires env.codec.Faithful() && FramedRun(env, run) && !Run(env, run).crashed
    requires i < |Incoming(env, run)| == |Run(env, run).conns| && Run(env, run).conns[i].wire == []
    ensures InStateOf(env, run, i, left) && left <= 4 * Unanswered(env, run, i) + 1
  {
    FramedRunsStayAligned(env, run);
    left := Left(Incoming(env, run), LogOf(env, run), Run(env, run), i);
  }

  /** When the frames of a session have arrived, four turns for each that is not answered yet, and one
      more if an answer is being written, bring it to rest, whatever the other sessions do in between,
      unless the process crashes. It has then answered every frame. */
  lemma SessionSettles(env: Env, run: seq<Action>, more: seq<Action>, all: seq<Action>, i: nat)
    requires env.codec.Faithful() && FramedRun(env, run) && FramedRun(env, more) && NothingSentTo(more, i)
    requires i < |Incoming(env, run)| == |Run(env, run).conns| && Run(env, run).conns[i].wire == []
    requires Turns(more, i) >= 4 * Unanswered(env, run, i) + 1 && all == run + more
    ensures !Run(env, all).crashed ==> Settled(env, all, i)
  {
    CrashIsFinal(env, run, more, all);
    if !Run(env, all).crashed {
      var left := CountedAt(env, run, i);
      EveryTurnCounts(env, run, more, all, i, left);
      NoneLeftToCount(env, all, i, 0);
    }
  }

  lemma CrashStays(env: Env, run: seq<Action>, a: Action) returns (next: seq<Action>)
    requires Run(env, run).crashed
    ensures next == run + [a] && Run(env, next).crashed
  {
    RunGoesOn(env, run, a);
    next := run + [a];
  }

  lemma {:induction false} CrashIsFinal(env: Env, run: seq<Action>, more: seq<Action>, all: seq<Action>)
    requires all == run + more
    ensures Run(env, run).crashed ==> Run(env, all).crashed
    decreases |more|
  {
    if more == [] {
      assert all == run;
    } else if Run(env, run).crashed {
      var next := CrashStays(env, run, more[0]);
      assert all == next + more[1..];
      CrashIsFinal(env, next, more[1..], all);
    }
  }

  predicate CleanRun(run: seq<Action>) {
    forall k :: 0 <= k < |run| ==> Clean(run[k])
  }

  /** Of a server as it is: whatever a client has sent and however it was split, when it has arrived and
      the session has had its turns, the server has recovered exactly these requests, has no byte left
      over, and has written the answers of an ordered map at the requests' points in one global order. */
  lemma AllRequestsRecovered(env: Env, run: seq<Action>, more: seq<Action>, i: nat)
    requires env.codec == PROTOBUF && CleanRun(run) && CleanRun(more) && NothingSentTo(more, i)
    requires i < |Run(env, run).conns| && Run(env, run).conns[i].wire == []
    requires Turns(more, i) >= 4 * |Run(env, run).conns[i].sent| + 1
    ensures var w, log := Run(env, run + more), LogOf(env, run + more);
            !w.crashed ==>
              && i < |w.conns| && w.conns[i].inbox == [] && Requests(Of(log, i)) == w.conns[i].sent
              && w.conns[i].written == ResponseStream(PROTOBUF, Responses(Of(log, i)))
              && Accounts(env, log, w.tables)
  {
    ProtobufIsFaithful();
    CleanRunsSendRequests(env, run);
    SessionSettles(env, run, more, run + more, i);
    if !Run(env, run + more).crashed {
      EveryCleanRunIsExplained(env, run + more);
      WaitingMeansAllAnswered(env, Of(LogOf(env, run + more), i), Run(env, run + more).conns[i]);
    }
  }

  function Handlers(i: nat, o: Oracle, n: nat): (turns: seq<Action>)
    ensures |turns| == n && forall k :: 0 <= k < n ==> turns[k] == Succeed(i, 0, o)
  {
    seq(n, _ => Succeed(i, 0, o))
  }

  lemma {:induction false} HandlersAreTurns(i: nat, o: Oracle, n: nat)
    ensures Turns(Handlers(i, o, n), i) == n
  {
    if n > 0 {
      assert Handlers(i, o, n)[1..] == Handlers(i, o, n - 1);
      HandlersAreTurns(i, o, n - 1);
    }
  }

  lemma AllArrive(env: Env, w: World, i: nat, arrive: Action)
    requires !w.crashed && i < |w.conns| && arrive == Deliver(i, |w.conns[i].wire|)
    ensures !Next(env, w, arrive).crashed && |Next(env, w, arrive).conns| == |w.conns|
    ensures Next(env, w, arrive).conns[i].wire == []
  {
  }

  lemma AllArrived(env: Env, run: seq<Action>, i: nat, arrive: Action, all: seq<Action>)
    requires env.codec.Faithful() && FramedRun(env, run) && !Run(env, run).crashed && i < |Run(env, run).conns|
    requires arrive == Deliver(i, |Run(env, run).conns[i].wire|) && all == run + [arrive]
    ensures FramedRun(env, all)
    ensures i < |Incoming(env, all)| == |Run(env, all).conns| && Run(env, all).conns[i].wire == []
  {
    AllArrive(env, Run(env, run), i, arrive);
    RunGoesOn(env, run, arrive);
    FramedRunsStayAligned(env, all);
  }

  lemma ArrivedThenSettles(env: Env, run: seq<Action>, i: nat, o: Oracle, n: nat, all: seq<Action>)
    requires env.codec.Faithful() && FramedRun(env, run) && i < |Incoming(env, run)| == |Run(env, run).conns|
    requires Run(env, run).conns[i].wire == [] && n == 4 * |Incoming(env, run)[i]| + 1
    requires all == run + Handlers(i, o, n)
    ensures Run(env, all).crashed || (i < |Run(env, all).conns| && Waiting(env, Run(env, all).conns[i]))
  {
    HandlersAreTurns(i, o, n);
    SessionSettles(env, run, Handlers(i, o, n), all, i);
  }

  /** No session is ever stuck: when the rest of its bytes arrives, its own handlers, and nothing else, bring
      it to rest, or one of them makes the process crash. */
  lemma NoSessionIsStuck(env: Env, run: seq<Action>, i: nat, o: Oracle)
    returns (more: seq<Action>, turns: nat)
    requires env.codec.Faithful() && FramedRun(env, run) && !Run(env, run).crashed && i < |Run(env, run).conns|
    ensures more == [Deliver(i, |Run(env, run).conns[i].wire|)] + Handlers(i, o, turns)
    ensures var w := Run(env, run + more);
            w.crashed || (i < |w.conns| && Waiting(env, w.conns[i]))
  {
    var arrive := Deliver(i, |Run(env, run).conns[i].wire|);
    var arrived := run + [arrive];
    AllArrived(env, run, i, arrive, arrived);
    turns := 4 * |Incoming(env, arrived)[i]| + 1;
    more := [arrive] + Handlers(i, o, turns);
    assert run + more == arrived + Handlers(i, o, turns);
    ArrivedThenSettles(env, arrived, i, o, turns, run + more);
  }

  // ---------- One request to a session at rest ----------

  ghost predicate Idle(c: Conn) {
    c.pending == [ReadMeta] && c.inbox == [] && c.wire == []
  }

  /** A request is sent, arrives, and is served in four turns. */
  function Asking(env: Env, i: nat, r: Request, o: Oracle): seq<Action> {
    [Send(i, r), Deliver(i, |env.codec.RequestFrame(r)|)] + Handlers(i, o, 4)
  }

  lemma AskingIsClean(env: Env, run: seq<Action>, r: Request, o: Oracle)
    requires CleanRun(run)
    ensures CleanRun(run + Asking(env, 0, r, o))
  {
  }

  /** The session after the first handlers, where nothing but its own bytes has changed. */
  function Got(c: Conn, op: Op, inbox: Bytes): Conn {
    c.(pending := [op], inbox := inbox, wire := [])
  }

  lemma ActionOn(env: Env, run: seq<Action>, w: World, i: nat, c: Conn, a: Action)
    requires i < |w.conns| && Run(env, run) == World(w.tables, w.conns[i := c], false)
    requires !a.Accept? && a.conn == i
    ensures var e := Act(env, w.tables, c, a);
            Run(env, run + [a]) == World(e.tables, w.conns[i := e.conn], e.crashed)
  {
    RunGoesOn(env, run, a);
    assert w.conns[i := c][i] == c;
  }

  lemma RequestArrives(env: Env, run: seq<Action>, w: World, i: nat, r: Request)
    requires Run(env, run) == w && !w.crashed && i < |w.conns| && Idle(w.conns[i]) && env.codec.Sendable(r)
    ensures var c, frame := w.conns[i], env.codec.RequestFrame(r);
            var got := Got(c.(sent := c.sent + [r]), ReadMeta, frame);
            Run(env, run + [Send(i, r)] + [Deliver(i, |frame|)]) == World(w.tables, w.conns[i := got], false)
  {
    var c, frame := w.conns[i], env.codec.RequestFrame(r);
    assert w.conns[i := c] == w.conns;
    ActionOn(env, run, w, i, c, Send(i, r));
    var c1 := c.(sent := c.sent + [r], wire := [] + frame);
    assert Act(env, w.tables, c, Send(i, r)).conn == c1;
    ActionOn(env, run + [Send(i, r)], w, i, c1, Deliver(i, |frame|));
    assert Act(env, w.tables, c1, Deliver(i, |frame|)).conn == Got(c1, ReadMeta, frame);
  }

  lemma MetaHandled(env: Env, t: Tables, c: Conn, kind: RequestKind, header: Bytes, body: Bytes, o: Oracle)
    requires env.codec.Faithful() && |body| <= INT_MAX
    requires header == env.codec.header(kind, |body|)
    ensures Act(env, t, Got(c, ReadMeta, env.codec.Frame(kind, body)), Succeed(0, 0, o))
         == Effect(t, Got(c, ReadHeader(|header|), header + body), false)
  {
    var meta := env.codec.meta(kind, |body|);
    assert env.codec.ReadsPrefix(kind, |body|);
    assert env.codec.Frame(kind, body) == meta + (header + body);
    var got := Got(c, ReadMeta, meta + (header + body));
    TakeFront(got.inbox, [], meta, header + body);
    AfterFirstOp(got);
  }

  lemma HeaderHandled(env: Env, t: Tables, c: Conn, kind: RequestKind, header: Bytes, body: Bytes, o: Oracle)
    requires env.codec.Faithful() && |body| <= INT_MAX
    requires header == env.codec.header(kind, |body|)
    ensures Act(env, t, Got(c, ReadHeader(|header|), header + body), Succeed(0, 0, o))
         == Effect(t, Got(c, ReadBody(kind, |body|), body), false)
  {
    assert env.codec.ReadsPrefix(kind, |body|);
    var got := Got(c, ReadHeader(|header|), header + body);
    TakeFront(got.inbox, [], header, body);
    AfterFirstOp(got);
  }

  /** Act does not look at the number of the session. */
  lemma SameForAll(env: Env, t: Tables, c: Conn, i: nat, o: Oracle)
    ensures Act(env, t, c, Succeed(i, 0, o)) == Act(env, t, c, Succeed(0, 0, o))
  {
  }

  lemma PrefixHandled(env: Env, run: seq<Action>, w: World, i: nat, c: Conn, r: Request, o: Oracle)
    requires env.codec.Faithful() && env.codec.Sendable(r) && i < |w.conns|
    requires Run(env, run) == World(w.tables, w.conns[i := Got(c, ReadMeta, env.codec.RequestFrame(r))], false)
    ensures var body := env.codec.request(r);
            var got := Got(c, ReadBody(RequestType(r), |body|), body);
            Run(env, run + [Succeed(i, 0, o)] + [Succeed(i, 0, o)]) == World(w.tables, w.conns[i := got], false)
  {
    var kind, body, a := RequestType(r), env.codec.request(r), Succeed(i, 0, o);
    var header := env.codec.header(kind, |body|);
    var c1, c2 := Got(c, ReadMeta, env.codec.RequestFrame(r)), Got(c, ReadHeader(|header|), header + body);
    assert Act(env, w.tables, c1, a) == Effect(w.tables, c2, false) by {
      MetaHandled(env, w.tables, c, kind, header, body, o);
      SameForAll(env, w.tables, c1, i, o);
    }
    ActionOn(env, run, w, i, c1, a);
    assert Act(env, w.tables, c2, a) == Effect(w.tables, Got(c, ReadBody(kind, |body|), body), false) by {
      HeaderHandled(env, w.tables, c, kind, header, body, o);
      SameForAll(env, w.tables, c2, i, o);
    }
    ActionOn(env, run + [a], w, i, c2, a);
  }

  /** What becomes of a session at rest that has got one more request. */
  ghost function Replied(env: Env, c: Conn, r: Request, response: Response): Conn {
    c.(sent := c.sent + [r], written := c.written + env.codec.ResponseFrame(response))
  }

  lemma BodyServed(env: Env, t: Tables, c: Conn, i: nat, r: Request, body: Bytes, o: Oracle)
    requires env.codec.Faithful() && env.codec.Sendable(r) && body == env.codec.request(r)
    ensures Act(env, t, Got(c, ReadBody(RequestType(r), |body|), body), Succeed(i, 0, o))
         == BodyArrived(env, t, c.(pending := [], inbox := [], wire := []), r, o.now)
  {
    var got := Got(c, ReadBody(RequestType(r), |body|), body);
    TakeFront(got.inbox, [], body, []);
    SentIsRead(env, r, o);
    AfterFirstOp(got);
  }

  lemma AnswerWritten(env: Env, t: Tables, c: Conn, i: nat, frame: Bytes, o: Oracle)
    ensures Act(env, t, Got(c, Write(frame), []), Succeed(i, 0, o))
         == Effect(t, Got(c, ReadMeta, []).(written := c.written + frame), false)
  {
    AfterFirstOp(Got(c, Write(frame), []));
  }

  lemma BodyHandled(env: Env, run: seq<Action>, w: World, i: nat, c: Conn, r: Request, o: Oracle)
    requires env.codec.Faithful() && env.codec.Sendable(r) && i < |w.conns|
    requires var body := env.codec.request(r);
             Run(env, run) == World(w.tables, w.conns[i := Got(c, ReadBody(RequestType(r), |body|), body)], false)
    ensures var w' := Run(env, run + [Succeed(i, 0, o)] + [Succeed(i, 0, o)]);
            match Serve(env, w.tables, r, o.now).1
            case Answered(response) =>
              w' == World(Serve(env, w.tables, r, o.now).0,
                          w.conns[i := Got(c, ReadMeta, []).(written := c.written + env.codec.ResponseFrame(response))],
                          false)
            case Crash => w'.crashed && w'.tables == w.tables
  {
    var body, a := env.codec.request(r), Succeed(i, 0, o);
    BodyServed(env, w.tables, c, i, r, body, o);
    ActionOn(env, run, w, i, Got(c, ReadBody(RequestType(r), |body|), body), a);
    match Serve(env, w.tables, r, o.now).1
    case Answered(response) =>
      var t, frame := Serve(env, w.tables, r, o.now).0, env.codec.ResponseFrame(response);
      AnswerWritten(env, t, c, i, frame, o);
      assert [] + [Write(frame)] == [Write(frame)];
      ActionOn(env, run + [a], w.(tables := t), i, Got(c, Write(frame), []), a);
    case Crash =>
      RunGoesOn(env, run + [a], a);
  }

  /** The world after a request to a session at rest. */
  ghost predicate Answers(env: Env, w: World, i: nat, r: Request, now: I64, w': World)
    requires i < |w.conns|
  {
    var (t, served) := Serve(env, w.tables, r, now);
    match served
    case Answered(response) => w' == World(t, w.conns[i := Replied(env, w.conns[i], r, response)], false)
    case Crash => w'.crashed && w'.tables == w.tables
  }

  lemma AskingUnrolled(env: Env, run: seq<Action>, i: nat, r: Request, o: Oracle)
    ensures var a := Succeed(i, 0, o);
            run + Asking(env, i, r, o)
            == run + [Send(i, r)] + [Deliver(i, |env.codec.RequestFrame(r)|)] + [a] + [a] + [a] + [a]
  {
    var a := Succeed(i, 0, o);
    assert Handlers(i, o, 4) == [a] + [a] + [a] + [a];
  }

  /** A request to a session at rest is answered as it should, and the session is at rest again. */
  lemma OneExchange(env: Env, run: seq<Action>, i: nat, r: Request, o: Oracle)
    requires env.codec.Faithful() && env.codec.Sendable(r)
    requires !Run(env, run).crashed && i < |Run(env, run).conns| && Idle(Run(env, run).conns[i])
    ensures Answers(env, Run(env, run), i, r, o.now, Run(env, run + Asking(env, i, r, o)))
  {
    var w, frame, a := Run(env, run), env.codec.RequestFrame(r), Succeed(i, 0, o);
    var c := w.conns[i].(sent := w.conns[i].sent + [r]);
    var run2 := run + [Send(i, r)] + [Deliver(i, |frame|)];
    var run4 := run2 + [a] + [a];
    AskingUnrolled(env, run, i, r, o);
    RequestArrives(env, run, w, i, r);
    PrefixHandled(env, run2, w, i, c, r, o);
    BodyHandled(env, run4, w, i, c, r, o);
  }

  /** A new server and its first peer, which asks for the variables: the whole run, and the answer. */
  lemma FirstListOfVariables(env: Env, o: Oracle) returns (run: seq<Action>)
    requires env.codec == PROTOBUF
    ensures CleanRun(run) && Run(env, run) == FirstListAnswered(env)
    ensures Waiting(env, FirstListAnswered(env).conns[0])
    ensures Text("temp") == [0x74, 0x65, 0x6D, 0x70] && Text("color") == [0x63, 0x6F, 0x6C, 0x6F, 0x72]
  {
    var first := [Accept(true)];
    run := first + Asking(env, 0, GetVars, o);
    AskingIsClean(env, first, GetVars, o);
    FirstExchange(env, first, run, o);
    AnsweredWaits(env);
    TempAndColor();
  }

  lemma FirstExchange(env: Env, first: seq<Action>, run: seq<Action>, o: Oracle)
    requires env.codec == PROTOBUF && first == [Accept(true)] && run == first + Asking(env, 0, GetVars, o)
    ensures Run(env, run) == FirstListAnswered(env)
  {
    ProtobufIsFaithful();
    FirstPeer(env);
    OneExchange(env, first, 0, GetVars, o);
    InitialVariables();
    ListsOneVariable(env, InitialTables(), Text("temp"), Text("color"), o.now);
    FirstReply(env);
  }

  function FirstList(): Response { VariablesReply([SaveVariable(Text("temp"), Text("color"))]) }

  function FirstListAnswered(env: Env): World {
    World(InitialTables(), [NEW_CONN.(sent := [GetVars], written := env.codec.ResponseFrame(FirstList()))], false)
  }

  lemma NoZeroBytes(s: Bytes)
    requires 0 !in s
    ensures CStr(s) == s
  {
  }

  lemma InitialVariables()
    ensures InitialTables().variables == [VariableRow(1, Text("temp"), Text("color"))]
  {
    TempAndColor();
    var name, color := Text("temp"), Text("color");
    FirstVariable(CreateScheme(NO_TABLES).0, name, color);
  }

  lemma TempAndColor()
    ensures CStr(Text("temp")) == Text("temp") && CStr(Text("color")) == Text("color")
    ensures Text("temp") == [0x74, 0x65, 0x6D, 0x70] && Text("color") == [0x63, 0x6F, 0x6C, 0x6F, 0x72]
  {
    assert Text("temp") == [116, 101, 109, 112];
    NoZeroBytes(Text("temp"));
    assert Text("color") == [99, 111, 108, 111, 114];
    NoZeroBytes(Text("color"));
  }

  lemma FirstVariable(t: Tables, name: Bytes, color: Bytes)
    requires t.created && t.variables == [] && t.variableSeq == 0 && CStr(name) == name && CStr(color) == color
    ensures AddVariable(t, name, color).0.variables == [VariableRow(1, name, color)]
  {
  }

  lemma ListsOneVariable(env: Env, t: Tables, name: Bytes, color: Bytes, now: I64)
    requires t.created && t.variables == [VariableRow(1, name, color)]
    ensures Serve(env, t, GetVars, now) == (t, Answered(VariablesReply([SaveVariable(name, color)])))
  {
    assert FetchVariables(t).0 == [DataModel.Variable(name, color)];
    assert VariablesMessage(FetchVariables(t).0) == [SaveVariable(name, color)];
  }

  lemma FirstReply(env: Env)
    ensures [NEW_CONN][0 := Replied(env, NEW_CONN, GetVars, FirstList())] == FirstListAnswered(env).conns
  {
    assert NEW_CONN.sent + [GetVars] == [GetVars];
    assert NEW_CONN.written + env.codec.ResponseFrame(FirstList()) == env.codec.ResponseFrame(FirstList());
  }

  lemma AnsweredWaits(env: Env)
    requires env.codec == PROTOBUF
    ensures Waiting(env, FirstListAnswered(env).conns[0])
  {
    FramePrefix(RESPONSE_FAILURE, 0);
    assert NEW_CONN.pending == [ReadMeta];
  }

  lemma FirstPeer(env: Env)
    ensures Run(env, [Accept(true)]) == World(InitialTables(), [NEW_CONN], false)
    ensures Idle(NEW_CONN)
  {
    assert [Accept(true)][..0] == [];
    assert NEW_CONN.pending == [ReadMeta];
  }

  // ---------- The server does run into undefined behaviour ----------

  function SaveTemp(): Request { SaveVal(SaveValue(Text("temp"), 0)) }

  function GetTemp(): Request { GetVals(GetValues(Text("temp"), None, None)) }

  lemma NameIsShort(name: Bytes)
    requires |name| == 4
    ensures |WriteField(BytesField(1, name))| == 6
  {
    assert Varint(10) == [10] && Varint(4) == [4];
  }

  lemma NumberIsShort(value: U64)
    ensures |WriteField(Fixed64Field(2, value))| == 9
  {
    assert Varint(17) == [17];
  }

  lemma SaveIsShort(v: SaveValue)
    requires |v.variable| == 4
    ensures |EncodeSaveValue(v)| == 15
  {
    NameIsShort(v.variable);
    NumberIsShort(v.value);
    TwoFields(BytesField(1, v.variable), Fixed64Field(2, v.value));
  }

  lemma GetIsShort(q: GetValues)
    requires |q.variable| == 4 && q.start == None && q.end == None
    ensures |EncodeGetValues(q)| == 6
  {
    NameIsShort(q.variable);
    assert GetValuesFields(q) == [BytesField(1, q.variable)];
    TwoFields(BytesField(1, q.variable), Fixed64Field(2, 0));
  }

  lemma TempIsSendable()
    ensures PROTOBUF.Sendable(SaveTemp()) && PROTOBUF.Sendable(GetTemp())
  {
    SaveIsShort(SaveTemp().value);
    GetIsShort(GetTemp().query);
  }

  lemma TempIsThere(t: Tables)
    requires StoreInOrder(t)
    ensures IdOf(t, Text("temp")).Some?
  {
    var initial := InitialTables().variables;
    assert t.variables[0] == initial[0] && initial[0].name == CStr(Text("temp"));
    assert FindRow(t.variables, CStr(Text("temp"))) == 0;
  }

  lemma SavedTempIsFetched(env: Env, t: Tables, now: I64)
    requires StoreInOrder(t)
    ensures var (t', served) := Serve(env, t, SaveTemp(), now);
            && served.Answered? && |t'.values| == |t.values| + 1
            && |FetchValues(t', Text("temp"), Always).0| == |FetchValues(t, Text("temp"), Always).0| + 1
  {
    TempIsThere(t);
    var t' := Serve(env, t, SaveTemp(), now).0;
    assert t'.values[..|t.values|] == t.values;
  }

  /** A server with one peer at rest and n readings of "temp", and no others. */
  ghost predicate Filled(w: World, n: nat) {
    && !w.crashed && |w.conns| == 1 && Idle(w.conns[0])
    && |w.tables.values| == n == |FetchValues(w.tables, Text("temp"), Always).0|
  }

  lemma FillStep(env: Env, w: World, w': World, n: nat, now: I64)
    requires Filled(w, n) && StoreInOrder(w.tables) && Answers(env, w, 0, SaveTemp(), now, w')
    ensures Filled(w', n + 1)
  {
    SavedTempIsFetched(env, w.tables, now);
  }

  lemma CrashStep(env: Env, w: World, w': World, n: nat, now: I64)
    requires Filled(w, n) && StoreInOrder(w.tables) && Answers(env, w, 0, GetTemp(), now, w')
    requires n % 120 == 0 && n >= 14520
    ensures w'.crashed && w'.tables == w.tables
  {
    CrashesExactly(env, w.tables, GetTemp(), now);
  }

  lemma AskTemp(env: Env, run: seq<Action>, r: Request, o: Oracle, n: nat)
    requires env.codec == PROTOBUF && (r == SaveTemp() || r == GetTemp()) && Filled(Run(env, run), n)
    ensures StoreInOrder(Run(env, run).tables)
    ensures Answers(env, Run(env, run), 0, r, o.now, Run(env, run + Asking(env, 0, r, o)))
  {
    ProtobufIsFaithful();
    TempIsSendable();
    StoreAlwaysInOrder(env, run);
    OneExchange(env, run, 0, r, o);
  }

  lemma FillMore(env: Env, run: seq<Action>, o: Oracle, n: nat, more: seq<Action>)
    requires env.codec == PROTOBUF && Filled(Run(env, run), n) && more == run + Asking(env, 0, SaveTemp(), o)
    ensures Filled(Run(env, more), n + 1)
  {
    AskTemp(env, run, SaveTemp(), o, n);
    FillStep(env, Run(env, run), Run(env, more), n, o.now);
  }

  lemma FilledCrashes(env: Env, run: seq<Action>, o: Oracle, n: nat, more: seq<Action>)
    requires env.codec == PROTOBUF && Filled(Run(env, run), n) && more == run + Asking(env, 0, GetTemp(), o)
    requires n % 120 == 0 && n >= 14520
    ensures Run(env, more).crashed && |Run(env, more).tables.values| == n
  {
    AskTemp(env, run, GetTemp(), o, n);
    CrashStep(env, Run(env, run), Run(env, more), n, o.now);
  }

  lemma NothingFilled(env: Env, run: seq<Action>)
    requires run == [Accept(true)]
    ensures CleanRun(run) && Filled(Run(env, run), 0)
  {
    FirstPeer(env);
  }

  lemma {:induction false} CanBeFilled(env: Env, o: Oracle, n: nat) returns (run: seq<Action>)
    requires env.codec == PROTOBUF
    ensures CleanRun(run) && Filled(Run(env, run), n)
  {
    if n == 0 {
      run := [Accept(true)];
      NothingFilled(env, run);
    } else {
      var before := CanBeFilled(env, o, n - 1);
      run := before + Asking(env, 0, SaveTemp(), o);
      AskingIsClean(env, before, SaveTemp(), o);
      FillMore(env, before, o, n - 1, run);
    }
  }

  /** The failing lengths are reached by a server whose one peer just saves readings and asks for them,
      the first one with exactly 14520 readings stored. */
  lemma CrashIsReachable(env: Env, o: Oracle, n: nat) returns (run: seq<Action>, last: seq<Action>)
    requires env.codec == PROTOBUF && n % 120 == 0 && n >= 14520
    ensures last == Asking(env, 0, GetTemp(), o) && CleanRun(run + last)
    ensures Filled(Run(env, run), n)
    ensures Run(env, run + last).crashed && |Run(env, run + last).tables.values| == n
  {
    run := CanBeFilled(env, o, n);
    last := Asking(env, 0, GetTemp(), o);
    AskingIsClean(env, run, GetTemp(), o);
    FilledCrashes(env, run, o, n, run + last);
  }
}
