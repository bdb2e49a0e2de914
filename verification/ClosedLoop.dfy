// A session whose peer is the client with its mirror: replies make it send requests of its own.

module ClosedLoops {
  import opened Options
  import Wire
  import Messages
  import opened Protocol
  import DataModel
  import Store
  import opened Sessions
  import opened Linearization
  import opened Alignments
  import opened Progress
  import opened Clients
  import opened Mirrors

  // What happens around the client of session i.
  datatype Event =
    | Happens(action: Action)   // to the server or to another peer, or bytes and handlers of session i
    | Asks(request: Request)    // its user asks for something
    | Ready(call: Call)         // its socket is ready

  // The actions so far, the bytes of replies that have been taken, in how many calls, and the mirror.
  datatype Loop = Loop(run: seq<Action>, pos: nat, calls: nat, mirror: Mirror)

  function ConnOf(w: World, i: nat): Conn {
    if i < |w.conns| then w.conns[i] else NEW_CONN
  }

  /** The requests of the refresh rule. */
  function RefreshRequests(i: nat, signals: seq<Signal>): seq<Action> {
    if signals == [] then []
    else RefreshRequests(i, signals[..|signals| - 1])
         + if AsksForRefresh(signals[|signals| - 1]) then [Send(i, GetVars)] else []
  }

  /** A call of onReadyRead, when the session has written so much. */
  ghost function AfterCall(env: Env, i: nat, left: Leftovers, l: Loop, call: Call, written: Wire.Bytes): Loop {
    var got := ReadOne(env.codec, written, Received([], l.pos), call, left);
    Loop(l.run + RefreshRequests(i, got.signals), got.pos, l.calls + 1, ReactAll(l.mirror, got.signals))
  }

  ghost function Advance(env: Env, i: nat, left: Leftovers, l: Loop, e: Event): Loop {
    match e
    case Happens(a) => l.(run := l.run + [a])
    case Asks(r) => l.(run := l.run + [Send(i, r)])
    case Ready(call) => AfterCall(env, i, left, l, call, ConnOf(Run(env, l.run), i).written)
  }

  ghost function After(env: Env, i: nat, left: Leftovers, m: Mirror, events: seq<Event>): Loop {
    if events == [] then Loop([], 0, 0, m)
    else Advance(env, i, left, After(env, i, left, m, events[..|events| - 1]), events[|events| - 1])
  }

  /** The exchanges of the client. */
  ghost function Mine(env: Env, run: seq<Action>, i: nat): seq<Exchange> {
    Of(LogOf(env, run), i)
  }

  /** No failures, only the client sends on its connection, and it is called when a reply is there. */
  ghost predicate Orderly(env: Env, i: nat, l: Loop, e: Event) {
    match e
    case Happens(a) => Clean(a) && !SendsTo(a, i)
    case Asks(_) => true
    case Ready(call) =>
      && Timely(env.codec, Responses(Mine(env, l.run, i)), l.calls, call)
      && call.end <= |ConnOf(Run(env, l.run), i).written|
  }

  ghost predicate AllOrderly(env: Env, i: nat, left: Leftovers, m: Mirror, events: seq<Event>) {
    events != [] ==>
      var init := events[..|events| - 1];
      AllOrderly(env, i, left, m, init) && Orderly(env, i, After(env, i, left, m, init), events[|events| - 1])
  }

  // ---------- What every event keeps ----------

  /** The reply that triggers a refresh. */
  predicate Acknowledges(r: Response) {
    r.StatusReply? && r.failure.status == Messages.OK && r.failure.prevMsg == Some(Messages.REQUEST_ADD_VAR)
  }

  predicate RefreshedAfter(sent: seq<Request>, p: nat) {
    exists q :: p < q < |sent| && sent[q].GetVars?
  }

  /** Each acknowledgement that the client has received is followed by a refresh among its requests. */
  ghost predicate Refreshes(env: Env, i: nat, run: seq<Action>, calls: nat)
    requires calls <= |Mine(env, run, i)|
  {
    forall p: nat :: p < calls && Acknowledges(Mine(env, run, i)[p].response)
                     ==> RefreshedAfter(ConnOf(Run(env, run), i).sent, p)
  }

  ghost predicate HasReceived(env: Env, m: Mirror, l: Loop, rs: seq<Response>) {
    && l.calls <= |rs|
    && l.pos == ReceivedFirst(env.codec, rs, l.calls).pos
    && l.mirror == ReactAll(m, ReceivedFirst(env.codec, rs, l.calls).signals)
  }

  /** The client has received its first replies, its mirror has reacted to them, and its refreshes are
      on their way. */
  ghost predicate Kept(env: Env, i: nat, m: Mirror, l: Loop) {
    && CleanRun(l.run)
    && HasReceived(env, m, l, Responses(Mine(env, l.run, i)))
    && Refreshes(env, i, l.run, l.calls)
  }

  lemma ActSentGrows(env: Env, t: Store.Tables, c: Conn, a: Action)
    requires !a.Accept?
    ensures c.sent <= Act(env, t, c, a).conn.sent
  {
  }

  lemma OneMoreAction(env: Env, i: nat, run: seq<Action>, a: Action)
    ensures Mine(env, run, i) <= Mine(env, run + [a], i)
    ensures ConnOf(Run(env, run), i).sent <= ConnOf(Run(env, run + [a]), i).sent
  {
    RunGoesOn(env, run, a);
    var w, log, more := Run(env, run), LogOf(env, run), Exchanged(env, Run(env, run), a);
    if more == [] {
      assert log + more == log;
    } else {
      assert more == [more[0]];
      OfAppend(log, more[0], i);
    }
    if !a.Accept? && i < |w.conns| {
      ActSentGrows(env, w.tables, w.conns[i], a);
    }
  }

  lemma StillRefreshedAfter(sent: seq<Request>, more: seq<Request>, p: nat)
    requires sent <= more && RefreshedAfter(sent, p)
    ensures RefreshedAfter(more, p)
  {
    var q :| p < q < |sent| && sent[q].GetVars?;
    assert more[q].GetVars?;
  }

  lemma RefreshesGrow(env: Env, i: nat, run: seq<Action>, all: seq<Action>, calls: nat)
    requires calls <= |Mine(env, run, i)| && Refreshes(env, i, run, calls)
    requires Mine(env, run, i) <= Mine(env, all, i)
    requires ConnOf(Run(env, run), i).sent <= ConnOf(Run(env, all), i).sent
    ensures calls <= |Mine(env, all, i)| && Refreshes(env, i, all, calls)
  {
    forall p: nat | p < calls && Acknowledges(Mine(env, all, i)[p].response)
      ensures RefreshedAfter(ConnOf(Run(env, all), i).sent, p)
    {
      assert Mine(env, all, i)[p] == Mine(env, run, i)[p];
      StillRefreshedAfter(ConnOf(Run(env, run), i).sent, ConnOf(Run(env, all), i).sent, p);
    }
  }

  lemma ActionKeeps(env: Env, i: nat, m: Mirror, l: Loop, a: Action)
    requires Kept(env, i, m, l) && Clean(a)
    ensures Kept(env, i, m, l.(run := l.run + [a]))
  {
    var all := l.run + [a];
    OneMoreAction(env, i, l.run, a);
    RefreshesGrow(env, i, l.run, all, l.calls);
    assert Responses(Mine(env, all, i))[..l.calls] == Responses(Mine(env, l.run, i))[..l.calls];
  }

  /** What the session has written are replies of the log, all of them or all but the last. */
  lemma WrittenAreReplies(env: Env, run: seq<Action>, i: nat)
    requires env.codec.Faithful() && CleanRun(run) && !Run(env, run).crashed && i < |Run(env, run).conns|
    ensures Requests(Mine(env, run, i)) <= Run(env, run).conns[i].sent
    ensures Run(env, run).conns[i].written <= ResponseStream(env.codec, Responses(Mine(env, run, i)))
  {
    EveryCleanRunIsExplained(env, run);
    var c := Run(env, run).conns[i];
    assert InStep(env, Mine(env, run, i), c);
    if c.pending[0].Write? {
      assert c.written + c.pending[0].frame == ResponseStream(env.codec, Responses(Mine(env, run, i)));
    }
  }

  /** In every clean run, whatever the arrivals: what the client of a session emits in its first calls is
      what the first of its session's logged replies say. */
  lemma ClientEmitsLoggedReplies(env: Env, run: seq<Action>, i: nat, calls: seq<Call>, left: Leftovers)
    requires env.codec.Faithful() && CleanRun(run) && !Run(env, run).crashed && i < |Run(env, run).conns|
    requires forall k :: 0 <= k < |calls| ==>
               && Timely(env.codec, Responses(Mine(env, run, i)), k, calls[k])
               && calls[k].end <= |Run(env, run).conns[i].written|
    ensures var rs := Responses(Mine(env, run, i));
            && |calls| <= |rs|
            && TellsAll(rs[..|calls|], ReadAll(env.codec, Run(env, run).conns[i].written, calls, left).signals)
  {
    var rs := Responses(Mine(env, run, i));
    WrittenAreReplies(env, run, i);
    ResponsesAreReceived(env.codec, rs, Run(env, run).conns[i].written, calls, left);
    SignalsTellAll(rs[..|calls|]);
  }

  lemma SignalsOfReply(i: nat, r: Response)
    ensures RefreshRequests(i, SignalsOf(r)) == if Acknowledges(r) then [Send(i, GetVars)] else []
  {
    var signals := SignalsOf(r);
    if signals != [] {
      assert signals[..|signals| - 1] == [];
    }
  }

  /** The refresh that follows an acknowledgement. */
  lemma RefreshIsSent(env: Env, i: nat, run: seq<Action>, all: seq<Action>, n: nat)
    requires all == run + [Send(i, GetVars)] && !Run(env, run).crashed && i < |Run(env, run).conns|
    requires env.codec.Sendable(GetVars) && n < |Run(env, run).conns[i].sent|
    ensures RefreshedAfter(ConnOf(Run(env, all), i).sent, n)
  {
    RunGoesOn(env, run, Send(i, GetVars));
    var sent, sent' := Run(env, run).conns[i].sent, ConnOf(Run(env, all), i).sent;
    assert sent' == sent + [GetVars];
    assert sent'[|sent|].GetVars?;
  }

  /** One call, by its parts: `written` is what the session has written. */
  lemma CallReceives(env: Env, i: nat, left: Leftovers, m: Mirror, l: Loop, call: Call, rs: seq<Response>,
                     written: Wire.Bytes, next: Loop)
    requires env.codec.Faithful() && HasReceived(env, m, l, rs) && Timely(env.codec, rs, l.calls, call)
    requires written <= ResponseStream(env.codec, rs) && call.end <= |written|
    requires next == AfterCall(env, i, left, l, call, written)
    ensures next.run == l.run + (if Acknowledges(rs[l.calls]) then [Send(i, GetVars)] else [])
    ensures next.calls == l.calls + 1 && HasReceived(env, m, next, rs)
  {
    var n := l.calls;
    assert ReadOne(env.codec, written, Received([], l.pos), call, left)
        == Received(SignalsOf(rs[n]), ReceivedFirst(env.codec, rs, n + 1).pos) by {
      OneIsReceived(env.codec, rs, n, written, call, left);
    }
    SignalsOfReply(i, rs[n]);
    OneMoreReaction(m, rs, n);
  }

  lemma ReplyIsReceived(env: Env, i: nat, left: Leftovers, m: Mirror, l: Loop, call: Call, next: Loop)
    requires env.codec.Faithful() && Kept(env, i, m, l) && !Run(env, l.run).crashed && i < |Run(env, l.run).conns|
    requires Orderly(env, i, l, Ready(call)) && next == Advance(env, i, left, l, Ready(call))
    ensures l.calls < |Mine(env, l.run, i)| && next.calls == l.calls + 1
    ensures next.run == l.run
            + (if Acknowledges(Mine(env, l.run, i)[l.calls].response) then [Send(i, GetVars)] else [])
    ensures HasReceived(env, m, next, Responses(Mine(env, l.run, i)))
  {
    WrittenAreReplies(env, l.run, i);
    CallReceives(env, i, left, m, l, call, Responses(Mine(env, l.run, i)), Run(env, l.run).conns[i].written, next);
  }

  lemma OneMoreReaction(m: Mirror, rs: seq<Response>, n: nat)
    requires n < |rs|
    ensures ReactAll(m, AllSignals(rs[..n + 1])) == ReactAll(ReactAll(m, AllSignals(rs[..n])), SignalsOf(rs[n]))
  {
    assert rs[..n + 1] == rs[..n] + [rs[n]];
    SignalsAppend(m, rs[..n], rs[n]);
  }

  lemma RefreshesAfterReply(env: Env, i: nat, run: seq<Action>, all: seq<Action>, n: nat)
    requires env.codec.Faithful() && CleanRun(run)
    requires !Run(env, run).crashed && i < |Run(env, run).conns|
    requires n < |Mine(env, run, i)| && Refreshes(env, i, run, n)
    requires all == run + if Acknowledges(Mine(env, run, i)[n].response) then [Send(i, GetVars)] else []
    ensures Mine(env, run, i) <= Mine(env, all, i) && Refreshes(env, i, all, n + 1)
  {
    if Acknowledges(Mine(env, run, i)[n].response) {
      OneMoreAction(env, i, run, Send(i, GetVars));
      RefreshesGrow(env, i, run, all, n);
      WrittenAreReplies(env, run, i);
      RefreshIsSent(env, i, run, all, n);
    } else {
      assert all == run;
    }
  }

  lemma StillReceived(env: Env, m: Mirror, l: Loop, rs: seq<Response>, more: seq<Response>)
    requires HasReceived(env, m, l, rs) && rs <= more
    ensures HasReceived(env, m, l, more)
  {
    assert more[..l.calls] == rs[..l.calls];
  }

  lemma CleanRefresh(run: seq<Action>, i: nat, refreshes: bool)
    requires CleanRun(run)
    ensures CleanRun(run + if refreshes then [Send(i, GetVars)] else [])
  {
  }

  lemma ReadyKeeps(env: Env, i: nat, left: Leftovers, m: Mirror, l: Loop, call: Call, next: Loop)
    requires env.codec.Faithful() && Kept(env, i, m, l)
    requires !Run(env, l.run).crashed && i < |Run(env, l.run).conns|
    requires Orderly(env, i, l, Ready(call)) && next == Advance(env, i, left, l, Ready(call))
    ensures Kept(env, i, m, next)
  {
    ReplyIsReceived(env, i, left, m, l, call, next);
    ReceivedIsKept(env, i, m, l, next);
  }

  lemma ReceivedIsKept(env: Env, i: nat, m: Mirror, l: Loop, next: Loop)
    requires env.codec.Faithful() && CleanRun(l.run) && !Run(env, l.run).crashed && i < |Run(env, l.run).conns|
    requires l.calls < |Mine(env, l.run, i)| && Refreshes(env, i, l.run, l.calls) && next.calls == l.calls + 1
    requires next.run == l.run
             + (if Acknowledges(Mine(env, l.run, i)[l.calls].response) then [Send(i, GetVars)] else [])
    requires HasReceived(env, m, next, Responses(Mine(env, l.run, i)))
    ensures Kept(env, i, m, next)
  {
    CleanRefresh(l.run, i, Acknowledges(Mine(env, l.run, i)[l.calls].response));
    RefreshesAfterReply(env, i, l.run, next.run, l.calls);
    StillReceived(env, m, next, Responses(Mine(env, l.run, i)), Responses(Mine(env, next.run, i)));
  }

  lemma {:induction false} StrangerHasNoExchanges(env: Env, run: seq<Action>, i: nat)
    requires env.codec.Faithful() && CleanRun(run) && !Run(env, run).crashed && i >= |Run(env, run).conns|
    ensures Mine(env, run, i) == []
  {
    EveryCleanRunIsExplained(env, run);
    OfStranger(LogOf(env, run), i);
  }

  lemma EventKeeps(env: Env, i: nat, left: Leftovers, m: Mirror, l: Loop, e: Event)
    requires env.codec.Faithful() && Kept(env, i, m, l)
    requires !Run(env, l.run).crashed && Orderly(env, i, l, e)
    ensures Kept(env, i, m, Advance(env, i, left, l, e))
  {
    match e
    case Happens(a) => ActionKeeps(env, i, m, l, a);
    case Asks(r) => ActionKeeps(env, i, m, l, Send(i, r));
    case Ready(call) =>
      if i >= |Run(env, l.run).conns| {
        StrangerHasNoExchanges(env, l.run, i);
      }
      ReadyKeeps(env, i, left, m, l, call, Advance(env, i, left, l, e));
  }

  lemma RunBefore(env: Env, i: nat, left: Leftovers, l: Loop, e: Event)
    requires !Run(env, Advance(env, i, left, l, e).run).crashed
    ensures !Run(env, l.run).crashed
  {
    var all := Advance(env, i, left, l, e).run;
    var more := all[|l.run|..];
    assert all == l.run + more;
    CrashIsFinal(env, l.run, more, all);
  }

  /** At any time: the mirror has reacted to the first replies of its session, one per call, and each
      acknowledgement among them is followed by a refresh among the requests. */
  lemma {:induction false} LoopIsKept(env: Env, i: nat, left: Leftovers, m: Mirror, events: seq<Event>)
    requires env.codec.Faithful() && AllOrderly(env, i, left, m, events)
    requires !Run(env, After(env, i, left, m, events).run).crashed
    ensures Kept(env, i, m, After(env, i, left, m, events))
  {
    if events == [] {
      assert Responses([])[..0] == [];
      assert ResponseStream(env.codec, []) == [];
    } else {
      var init, last := events[..|events| - 1], events[|events| - 1];
      var l := After(env, i, left, m, init);
      RunBefore(env, i, left, l, last);
      LoopIsKept(env, i, left, m, init);
      EventKeeps(env, i, left, m, l, last);
    }
  }

  // ---------- The mirror at any time ----------

  /** The log up to the first n exchanges of session i. */
  lemma {:induction false} CutAfter(log: seq<Exchange>, i: nat, n: nat) returns (p: nat)
    requires n <= |Of(log, i)|
    ensures p <= |log| && Of(log[..p], i) == Of(log, i)[..n]
  {
    if n == |Of(log, i)| {
      p := |log|;
      assert log[..p] == log;
    } else {
      var init := log[..|log| - 1];
      p := CutAfter(init, i, n);
      assert log[..p] == init[..p];
    }
  }

  lemma {:induction false} AnsweredCut(env: Env, log: seq<Exchange>, p: nat)
    requires AnsweredInOrder(env, log) && p <= |log|
    ensures AnsweredInOrder(env, log[..p])
  {
    if p == |log| {
      assert log[..p] == log;
    } else {
      AnsweredPrefix(env, log);
      assert log[..|log| - 1][..p] == log[..p];
      AnsweredCut(env, log[..|log| - 1], p);
    }
  }

  /** From bytes to mirror, whether or not the session is at rest, and whatever the other sessions do:
      the mirror is the list of the store at the point in the global order where the last refresh of
      which the client has the reply was processed. */
  lemma MirrorAtAnyTime(env: Env, i: nat, left: Leftovers, m: Mirror, events: seq<Event>) returns (p: nat)
    requires env.codec.Faithful() && AllOrderly(env, i, left, m, events)
    requires !Run(env, After(env, i, left, m, events).run).crashed
    ensures var l := After(env, i, left, m, events);
            var log := LogOf(env, l.run);
            && p <= |log| && |Of(log[..p], i)| == l.calls
            && l.mirror == Expected(env, log[..p], i, m)
  {
    var l := After(env, i, left, m, events);
    var log := LogOf(env, l.run);
    LoopIsKept(env, i, left, m, events);
    p := CutAfter(log, i, l.calls);
    EveryRunIsLinearized(env, l.run);
    AnsweredCut(env, log, p);
    MirrorFollowsStore(env, log[..p], i, m);
    assert Responses(Of(log, i))[..l.calls] == Responses(Of(log[..p], i));
  }

  // ---------- The mirror shows what its client has added ----------

  /** The place of an exchange among those of its session. */
  lemma {:induction false} Rank(log: seq<Exchange>, i: nat, p: nat)
    requires p < |log| && log[p].conn == i
    ensures |Of(log[..p], i)| < |Of(log, i)| && Of(log, i)[|Of(log[..p], i)|] == log[p]
  {
    var init := log[..|log| - 1];
    if p < |init| {
      assert init[..p] == log[..p] && init[p] == log[p];
      Rank(init, i, p);
    }
  }

  lemma {:induction false} RankGrows(log: seq<Exchange>, i: nat, p: nat)
    requires p <= |log|
    ensures |Of(log[..p], i)| <= |Of(log, i)|
  {
    if p == |log| {
      assert log[..p] == log;
    } else {
      assert log[..|log| - 1][..p] == log[..p];
      RankGrows(log[..|log| - 1], i, p);
    }
  }

  /** The last refresh of the log is not before the refresh number q of the session. */
  lemma {:induction false} LastRefreshIsLate(log: seq<Exchange>, i: nat, q: nat)
    requires q < |Of(log, i)| && Of(log, i)[q].request.GetVars?
    ensures LastRefresh(log, i).Some? && q <= |Of(log[..LastRefresh(log, i).value], i)|
  {
    var last, init := |log| - 1, log[..|log| - 1];
    if log[last].conn != i || !log[last].request.GetVars? {
      LastRefreshIsLate(init, i, q);
      assert init[..LastRefresh(init, i).value] == log[..LastRefresh(init, i).value];
    }
  }

  lemma RefreshComesLater(log: seq<Exchange>, i: nat, p: nat, q: nat)
    requires p < |log| && log[p].conn == i
    requires |Of(log[..p], i)| < q < |Of(log, i)| && Of(log, i)[q].request.GetVars?
    ensures LastRefresh(log, i).Some? && p < LastRefresh(log, i).value
  {
    LastRefreshIsLate(log, i, q);
    var last := LastRefresh(log, i).value;
    if last <= p {
      assert log[..p][..last] == log[..last];
      RankGrows(log[..p], i, last);
    }
  }

  lemma AdditionIsAcknowledged(env: Env, log: seq<Exchange>, p: nat)
    requires AnsweredInOrder(env, log) && p < |log|
    requires AddsVariable(env, CatalogAfter(env, log[..p]), log[p].request)
    ensures Acknowledges(log[p].response)
  {
    assert AnsweredAt(env, log, p);
    CatalogGrows(env, log[..p], 0);
  }

  /** The session waits, and the client has taken all its replies. */
  ghost predicate AtRest(env: Env, i: nat, l: Loop) {
    var w := Run(env, l.run);
    i < |w.conns| && Waiting(env, w.conns[i]) && l.pos == |w.conns[i].written|
  }

  lemma StreamGrows(codec: Codec, rs: seq<Response>, n: nat)
    requires codec.Faithful() && n < |rs|
    ensures |ResponseStream(codec, rs[..n])| < |ResponseStream(codec, rs)|
  {
    var t, size := ResponseType(rs[n]), |codec.response(rs[n])|;
    assert codec.ReadsPrefix(t, size);
    FrameAt(codec, rs, n);
  }

  /** At rest, all requests have been answered, and the client has received all answers. */
  lemma RestMeansAllReceived(env: Env, i: nat, m: Mirror, l: Loop)
    requires env.codec.Faithful() && Kept(env, i, m, l) && !Run(env, l.run).crashed && AtRest(env, i, l)
    ensures l.calls == |Mine(env, l.run, i)| && Requests(Mine(env, l.run, i)) == Run(env, l.run).conns[i].sent
    ensures Explains(env, LogOf(env, l.run), Run(env, l.run))
  {
    EveryCleanRunIsExplained(env, l.run);
    var mine := Mine(env, l.run, i);
    WaitingMeansAllAnswered(env, mine, Run(env, l.run).conns[i]);
    if l.calls < |mine| {
      StreamGrows(env.codec, Responses(mine), l.calls);
    }
  }

  /** Exchange p of the log adds a variable for session i. */
  ghost predicate AddedBy(env: Env, log: seq<Exchange>, i: nat, p: nat) {
    p < |log| && log[p].conn == i && AddsVariable(env, CatalogAfter(env, log[..p]), log[p].request)
  }

  lemma AdditionIsRefreshed(env: Env, i: nat, m: Mirror, l: Loop, log: seq<Exchange>, p: nat)
    requires env.codec.Faithful() && Kept(env, i, m, l) && !Run(env, l.run).crashed && AtRest(env, i, l)
    requires log == LogOf(env, l.run) && AddedBy(env, log, i, p)
    ensures LastRefresh(log, i).Some? && p < LastRefresh(log, i).value
  {
    var mine := Mine(env, l.run, i);
    RestMeansAllReceived(env, i, m, l);
    Rank(log, i, p);
    var k := |Of(log[..p], i)|;
    AdditionIsAcknowledged(env, log, p);
    var sent := Run(env, l.run).conns[i].sent;
    assert Acknowledges(mine[k].response);
    assert RefreshedAfter(sent, k);
    var q :| k < q < |sent| && sent[q].GetVars?;
    assert mine[q].request == Requests(mine)[q] == sent[q];
    RefreshComesLater(log, i, p, q);
  }

  lemma MirrorAtRest(env: Env, i: nat, m: Mirror, l: Loop, log: seq<Exchange>)
    requires env.codec.Faithful() && Kept(env, i, m, l) && !Run(env, l.run).crashed && AtRest(env, i, l)
    requires log == LogOf(env, l.run)
    ensures AnsweredInOrder(env, log) && l.mirror == ReactAll(m, AllSignals(Responses(Of(log, i))))
  {
    RestMeansAllReceived(env, i, m, l);
    var rs := Responses(Of(log, i));
    assert rs[..l.calls] == rs;
  }

  /** The mirror is the store's list at the last refresh, which is behind addition p and shows it. */
  ghost predicate ShowsAddition(env: Env, log: seq<Exchange>, i: nat, m: Mirror, p: nat, mirror: Mirror) {
    && p < |log| && log[p].request.AddVar?
    && LastRefresh(log, i).Some? && p < LastRefresh(log, i).value
    && mirror == Expected(env, log, i, m)
    && var v := log[p].request.variable;
       DataModel.Variable(Store.CStr(v.name), Store.CStr(v.color)) in mirror.vars
  }

  lemma RestShowsAddition(env: Env, i: nat, m: Mirror, l: Loop, log: seq<Exchange>, p: nat)
    requires env.codec.Faithful() && Kept(env, i, m, l) && !Run(env, l.run).crashed && AtRest(env, i, l)
    requires log == LogOf(env, l.run) && AddedBy(env, log, i, p)
    ensures ShowsAddition(env, log, i, m, p, l.mirror)
  {
    AdditionIsRefreshed(env, i, m, l, log, p);
    MirrorAtRest(env, i, m, l, log);
    MirrorFollowsStore(env, log, i, m);
    ShownSinceAdded(env, log, i, m, p);
  }

  /** The refresh rule at work. Whatever the user and the other sessions do, and however bytes are split:
      whenever the session has come to rest and the client has taken all replies, a refresh has been
      processed behind every addition of the client, and the mirror, which is the store's list at the
      last one, shows the variable. */
  lemma MirrorShowsOwnAdditions(env: Env, i: nat, left: Leftovers, m: Mirror, events: seq<Event>, l: Loop, p: nat)
    requires env.codec.Faithful() && AllOrderly(env, i, left, m, events)
    requires l == After(env, i, left, m, events) && !Run(env, l.run).crashed && AtRest(env, i, l)
    requires AddedBy(env, LogOf(env, l.run), i, p)
    ensures ShowsAddition(env, LogOf(env, l.run), i, m, p, l.mirror)
  {
    LoopIsKept(env, i, left, m, events);
    RestShowsAddition(env, i, m, l, LogOf(env, l.run), p);
  }
}
