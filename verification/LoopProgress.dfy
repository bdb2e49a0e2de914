// The client, its mirror and its session come to rest when their user asks for nothing more.

module LoopProgress {
  import Wire
  import opened Protocol
  import Store
  import opened Sessions
  import opened Invariants
  import opened Linearization
  import opened Alignments
  import opened Progress
  import opened Clients
  import opened Mirrors
  import opened ClosedLoops

  ghost predicate Alive(env: Env, run: seq<Action>, i: nat) {
    !Run(env, run).crashed && i < |Run(env, run).conns|
  }

  // ---------- How far a client and its session are from rest ----------

  // What counts: the connection, its answered requests, and how many replies the client has taken.
  datatype View = View(c: Conn, mine: seq<Exchange>, calls: nat)

  ghost function ViewOf(env: Env, i: nat, l: Loop): View
    requires i < |Run(env, l.run).conns|
  {
    View(Run(env, l.run).conns[i], Mine(env, l.run, i), l.calls)
  }

  predicate Consistent(v: View) {
    |v.c.pending| == 1 && v.calls <= |v.mine| <= |v.c.sent|
  }

  /** The reply to request k, which the client has not received yet, may make it ask for a refresh. */
  predicate MayRefresh(sent: seq<Request>, mine: seq<Exchange>, k: nat)
    requires |mine| <= |sent| && k < |sent|
  {
    if k < |mine| then Acknowledges(mine[k].response) else sent[k].AddVar?
  }

  /** The cost of the refreshes that requests from number `from` on may still cause. */
  function Owed(cost: nat, sent: seq<Request>, mine: seq<Exchange>, from: nat): nat
    requires |mine| <= |sent|
    decreases |sent| - from
  {
    if from >= |sent| then 0
    else (if MayRefresh(sent, mine, from) then cost else 0) + Owed(cost, sent, mine, from + 1)
  }

  /** A refresh has to arrive, takes four turns, and is replied to. */
  function RefreshCost(codec: Codec): nat {
    |codec.RequestFrame(GetVars)| + 5
  }

  /** Bytes to arrive, turns to take, replies to receive, and all that for refreshes to come. */
  function Potential(codec: Codec, v: View): int
    requires Consistent(v)
  {
    |v.c.wire| + TurnsLeft(v.c, |v.c.sent| - |v.mine|) + (|v.c.sent| - v.calls)
    + Owed(RefreshCost(codec), v.c.sent, v.mine, v.calls)
  }

  /** The potential of a loop whose connection exists. */
  ghost function PotentialOf(env: Env, i: nat, l: Loop): nat {
    if i < |Run(env, l.run).conns| && Consistent(ViewOf(env, i, l)) && Potential(env.codec, ViewOf(env, i, l)) >= 0
    then Potential(env.codec, ViewOf(env, i, l)) else 0
  }

  lemma {:induction false} OwedAfterAnswer(cost: nat, sent: seq<Request>, mine: seq<Exchange>, x: Exchange, from: nat)
    requires |mine| < |sent| && (Acknowledges(x.response) ==> sent[|mine|].AddVar?)
    ensures Owed(cost, sent, mine + [x], from) <= Owed(cost, sent, mine, from)
    decreases |sent| - from
  {
    if from < |sent| {
      OwedAfterAnswer(cost, sent, mine, x, from + 1);
      assert from < |mine| ==> (mine + [x])[from] == mine[from];
    }
  }

  lemma {:induction false} OwedAfterRefresh(cost: nat, sent: seq<Request>, mine: seq<Exchange>, from: nat)
    requires |mine| <= |sent| && from <= |sent|
    ensures Owed(cost, sent + [GetVars], mine, from) == Owed(cost, sent, mine, from)
    decreases |sent| - from
  {
    var more := sent + [GetVars];
    if from < |sent| {
      OwedAfterRefresh(cost, sent, mine, from + 1);
      assert more[from] == sent[from];
    } else {
      assert more[from] == GetVars;
      assert Owed(cost, more, mine, from + 1) == 0;
    }
  }

  /** What a turn does to the answered requests. */
  ghost predicate TurnTakes(v: View, v': View) {
    && v'.calls == v.calls && v'.c.sent == v.c.sent && v'.c.wire == v.c.wire
    && |v.c.pending| == |v'.c.pending| == 1
    && if v.c.pending[0].ReadBody?
       then exists x :: AnswersNext(v, x) && v'.mine == v.mine + [x]
       else v'.mine == v.mine
  }

  /** x answers the next request. */
  predicate AnswersNext(v: View, x: Exchange) {
    && |v.mine| < |v.c.sent| && x.request == v.c.sent[|v.mine|]
    && (Acknowledges(x.response) ==> x.request.AddVar?)
  }

  lemma TurnLowers(codec: Codec, v: View, v': View)
    requires Consistent(v) && TurnTakes(v, v')
    requires TurnsLeft(v'.c, |v'.c.sent| - |v'.mine|) == TurnsLeft(v.c, |v.c.sent| - |v.mine|) - 1
    ensures Consistent(v') && Potential(codec, v') <= Potential(codec, v) - 1
  {
    if v.c.pending[0].ReadBody? {
      var x :| AnswersNext(v, x) && v'.mine == v.mine + [x];
      OwedAfterAnswer(RefreshCost(codec), v.c.sent, v.mine, x, v.calls);
    }
  }

  /** The client receives a reply, and asks for a refresh if it is an acknowledgement. */
  ghost predicate Receives(codec: Codec, v: View, v': View)
    requires v.calls < |v.mine|
  {
    && v'.calls == v.calls + 1 && v'.mine == v.mine
    && if Acknowledges(v.mine[v.calls].response)
       then v'.c == v.c.(sent := v.c.sent + [GetVars], wire := v.c.wire + codec.RequestFrame(GetVars))
       else v'.c == v.c
  }

  lemma ReceivingLowers(codec: Codec, v: View, v': View)
    requires Consistent(v) && v.calls < |v.mine| && Receives(codec, v, v')
    ensures Consistent(v') && Potential(codec, v') == Potential(codec, v) - 1
  {
    if Acknowledges(v.mine[v.calls].response) {
      OwedAfterRefresh(RefreshCost(codec), v.c.sent, v.mine, v.calls + 1);
    }
  }

  // ---------- Rest is where nothing is left to do ----------

  lemma InStepNow(env: Env, i: nat, m: Mirror, l: Loop)
    requires env.codec.Faithful() && Kept(env, i, m, l) && Alive(env, l.run, i)
    ensures InStep(env, Mine(env, l.run, i), Run(env, l.run).conns[i]) && Consistent(ViewOf(env, i, l))
  {
    EveryCleanRunIsExplained(env, l.run);
  }

  lemma NoTurnsMeansEmptyRest(env: Env, packets: seq<Packet>, mine: seq<Exchange>, c: Conn)
    requires Aligned(env, packets, mine, c)
    ensures TurnsLeft(c, |packets| - |mine|) >= 0
    ensures TurnsLeft(c, |packets| - |mine|) == 0 ==> c.pending == [ReadMeta] && |packets| == |mine|
  {
    assert packets[|mine|..] == [] <==> |packets| == |mine|;
  }

  lemma AllTaken(env: Env, m: Mirror, l: Loop, rs: seq<Response>, written: Wire.Bytes)
    requires HasReceived(env, m, l, rs) && l.calls == |rs| && written == ResponseStream(env.codec, rs)
    ensures l.pos == |written|
  {
    assert rs[..l.calls] == rs;
  }

  /** The potential is never negative, and 0 exactly at rest. */
  lemma RestIsZero(env: Env, i: nat, m: Mirror, l: Loop)
    requires env.codec.Faithful() && Kept(env, i, m, l) && Alive(env, l.run, i)
    ensures Consistent(ViewOf(env, i, l)) && Potential(env.codec, ViewOf(env, i, l)) == PotentialOf(env, i, l)
    ensures PotentialOf(env, i, l) == 0 <==> AtRest(env, i, l)
  {
    InStepNow(env, i, m, l);
    var v := ViewOf(env, i, l);
    var packets := Packets(env.codec, v.c.sent);
    NoTurnsMeansEmptyRest(env, packets, v.mine, v.c);
    if v.c.wire == [] {
      TurnOrRest(env, packets, v.mine, v.c);
    }
    if Potential(env.codec, v) == 0 {
      WaitingMeansAllServed(env, packets, v.mine, v.c);
      AllTaken(env, m, l, Responses(v.mine), v.c.written);
    }
    if AtRest(env, i, l) {
      RestMeansAllReceived(env, i, m, l);
    }
  }

  // ---------- Every event counts ----------

  /** Bytes arrive at the session, or its handler runs. */
  predicate Acts(env: Env, i: nat, c: Conn, a: Action) {
    (a.Deliver? && a.conn == i && 0 < a.size <= |c.wire|) || (IsTurn(a, i) && Arrived(env, c, 0))
  }

  /** That, or the client receives a reply. */
  ghost predicate Effective(env: Env, i: nat, l: Loop, e: Event) {
    match e
    case Happens(a) => Acts(env, i, ConnOf(Run(env, l.run), i), a)
    case Asks(_) => false
    case Ready(_) => true
  }

  lemma TurnOnConn(env: Env, t: Store.Tables, v: View, o: Oracle)
    requires env.codec.Faithful() && InStep(env, v.mine, v.c) && Consistent(v) && Arrived(env, v.c, 0)
    requires !Complete(env, t, v.c, 0, o).crashed
    ensures var e, unanswered := Complete(env, t, v.c, 0, o), |v.c.sent| - |v.mine|;
            && e.conn.sent == v.c.sent && e.conn.wire == v.c.wire && |e.conn.pending| == 1
            && TurnsLeft(e.conn, if v.c.pending[0].ReadBody? then unanswered - 1 else unanswered)
            == TurnsLeft(v.c, unanswered) - 1
  {
    TurnTaken(env, t, Packets(env.codec, v.c.sent), v.mine, v.c, o);
  }

  lemma OnlyAdditionsAreAcknowledged(env: Env, t: Store.Tables, r: Request, now: Wire.I64)
    requires Serve(env, t, r, now).1.Answered? && Acknowledges(Serve(env, t, r, now).1.response)
    ensures r.AddVar?
  {
  }

  /** A body that is served is the next request, and it is added to the log. */
  lemma BodyAnswersNext(env: Env, i: nat, log: seq<Exchange>, w: World, a: Action, v: View) returns (x: Exchange)
    requires env.codec.Faithful() && i < |w.conns| && v.c == w.conns[i] && v.mine == Of(log, i)
    requires InStep(env, v.mine, v.c) && Consistent(v) && v.c.pending[0].ReadBody?
    requires IsTurn(a, i) && Arrived(env, v.c, 0) && !w.crashed && !Next(env, w, a).crashed
    ensures AnswersNext(v, x) && Of(log + Exchanged(env, w, a), i) == v.mine + [x]
  {
    NextIsCompletion(env, w, a);
    BodyIsNextRequest(env, v.mine, v.c, a.oracle);
    x := Exchanged(env, w, a)[0];
    assert Exchanged(env, w, a) == [x];
    OfAppend(log, x, i);
    if Acknowledges(x.response) {
      OnlyAdditionsAreAcknowledged(env, w.tables, x.request, x.now);
    }
  }

  lemma OtherTurnsAnswerNothing(env: Env, i: nat, log: seq<Exchange>, w: World, a: Action)
    requires i < |w.conns| && |w.conns[i].pending| == 1 && IsTurn(a, i) && !w.conns[i].pending[0].ReadBody?
    ensures Of(log + Exchanged(env, w, a), i) == Of(log, i)
  {
    assert log + [] == log;
  }

  lemma TurnOfSession(env: Env, i: nat, log: seq<Exchange>, w: World, a: Action, v: View, v': View)
    requires env.codec.Faithful() && i < |w.conns| && v.c == w.conns[i] && v.mine == Of(log, i)
    requires InStep(env, v.mine, v.c) && Consistent(v) && IsTurn(a, i) && Arrived(env, v.c, 0)
    requires !w.crashed && !Next(env, w, a).crashed
    requires v'.c == Next(env, w, a).conns[i] && v'.mine == Of(log + Exchanged(env, w, a), i) && v'.calls == v.calls
    ensures Consistent(v') && Potential(env.codec, v') <= Potential(env.codec, v) - 1
  {
    NextIsCompletion(env, w, a);
    TurnOnConn(env, w.tables, v, a.oracle);
    if v.c.pending[0].ReadBody? {
      var x := BodyAnswersNext(env, i, log, w, a, v);
    } else {
      OtherTurnsAnswerNothing(env, i, log, w, a);
    }
    TurnLowers(env.codec, v, v');
  }

  /** Anything else leaves the session as it is, except that bytes of its own may arrive. */
  lemma OtherAction(env: Env, i: nat, log: seq<Exchange>, w: World, a: Action)
    requires !w.crashed && i < |w.conns| && |w.conns[i].pending| == 1 && Clean(a) && !SendsTo(a, i)
    requires !(IsTurn(a, i) && Arrived(env, w.conns[i], 0))
    ensures i < |Next(env, w, a).conns| && Of(log + Exchanged(env, w, a), i) == Of(log, i)
    ensures var c, c' := w.conns[i], Next(env, w, a).conns[i];
            && c'.sent == c.sent && c'.pending == c.pending
            && |c'.wire| == |c.wire| - if a.Deliver? && a.conn == i && a.size <= |c.wire| then a.size else 0
  {
    OthersDoNotAnswer(env, log, w, a, i);
  }

  lemma OtherActionLowers(codec: Codec, v: View, v': View, size: nat)
    requires Consistent(v) && v'.mine == v.mine && v'.calls == v.calls
    requires v'.c.sent == v.c.sent && v'.c.pending == v.c.pending && |v'.c.wire| == |v.c.wire| - size
    ensures Consistent(v') && Potential(codec, v') == Potential(codec, v) - size
  {
  }

  lemma StepLowers(env: Env, i: nat, log: seq<Exchange>, w: World, a: Action, v: View, v': View)
    requires env.codec.Faithful() && i < |w.conns| && v.c == w.conns[i] && v.mine == Of(log, i)
    requires InStep(env, v.mine, v.c) && Consistent(v) && Clean(a) && !SendsTo(a, i)
    requires !w.crashed && !Next(env, w, a).crashed && i < |Next(env, w, a).conns|
    requires v'.c == Next(env, w, a).conns[i] && v'.mine == Of(log + Exchanged(env, w, a), i) && v'.calls == v.calls
    ensures Consistent(v')
    ensures Potential(env.codec, v') <= Potential(env.codec, v) - if Acts(env, i, v.c, a) then 1 else 0
  {
    if IsTurn(a, i) && Arrived(env, v.c, 0) {
      TurnOfSession(env, i, log, w, a, v, v');
    } else {
      OtherAction(env, i, log, w, a);
      OtherActionLowers(env.codec, v, v', if a.Deliver? && a.conn == i && a.size <= |v.c.wire| then a.size else 0);
    }
  }

  lemma ActionLowers(env: Env, i: nat, m: Mirror, l: Loop, a: Action, next: Loop)
    requires env.codec.Faithful() && Kept(env, i, m, l) && Alive(env, l.run, i)
    requires Clean(a) && !SendsTo(a, i) && next == l.(run := l.run + [a]) && !Run(env, next.run).crashed
    ensures Lowers(env, i, l, Happens(a), next)
  {
    InStepNow(env, i, m, l);
    RunGoesOn(env, l.run, a);
    NextKeepsConns(env, Run(env, l.run), a);
    StepLowers(env, i, LogOf(env, l.run), Run(env, l.run), a, ViewOf(env, i, l), ViewOf(env, i, next));
  }

  /** The event lowers the potential if it is effective, and does not raise it if it is not. */
  ghost predicate Lowers(env: Env, i: nat, l: Loop, e: Event, next: Loop) {
    && Alive(env, l.run, i) && Consistent(ViewOf(env, i, l))
    && Alive(env, next.run, i) && Consistent(ViewOf(env, i, next))
    && Potential(env.codec, ViewOf(env, i, next))
       <= Potential(env.codec, ViewOf(env, i, l)) - if Effective(env, i, l, e) then 1 else 0
  }

  lemma RefreshGoesOut(env: Env, i: nat, run: seq<Action>, all: seq<Action>)
    requires env.codec.Faithful() && Alive(env, run, i) && all == run + [Send(i, GetVars)]
    ensures Alive(env, all, i) && Mine(env, all, i) == Mine(env, run, i)
    ensures var c, c' := Run(env, run).conns[i], Run(env, all).conns[i];
            c' == c.(sent := c.sent + [GetVars], wire := c.wire + env.codec.RequestFrame(GetVars))
  {
    RunGoesOn(env, run, Send(i, GetVars));
    assert LogOf(env, run) + [] == LogOf(env, run);
  }

  lemma ReplyLowers(env: Env, i: nat, m: Mirror, l: Loop, call: Call, next: Loop)
    requires env.codec.Faithful() && Kept(env, i, m, l) && Alive(env, l.run, i) && l.calls < |Mine(env, l.run, i)|
    requires next.calls == l.calls + 1
    requires next.run == l.run
             + if Acknowledges(Mine(env, l.run, i)[l.calls].response) then [Send(i, GetVars)] else []
    ensures Lowers(env, i, l, Ready(call), next)
  {
    InStepNow(env, i, m, l);
    if Acknowledges(Mine(env, l.run, i)[l.calls].response) {
      RefreshGoesOut(env, i, l.run, next.run);
    } else {
      assert next.run == l.run;
    }
    ReceivingLowers(env.codec, ViewOf(env, i, l), ViewOf(env, i, next));
  }

  lemma EventLowers(env: Env, i: nat, left: Leftovers, m: Mirror, l: Loop, e: Event, next: Loop)
    requires env.codec.Faithful() && Kept(env, i, m, l) && Alive(env, l.run, i) && !e.Asks?
    requires Orderly(env, i, l, e) && next == Advance(env, i, left, l, e) && !Run(env, next.run).crashed
    ensures Lowers(env, i, l, e, next)
  {
    match e
    case Happens(a) => ActionLowers(env, i, m, l, a, next);
    case Ready(call) =>
      ReplyIsReceived(env, i, left, m, l, call, next);
      ReplyLowers(env, i, m, l, call, next);
  }

  // ---------- Any continuation ----------

  /** More events, but none of them a request of the user. */
  predicate Continues(events: seq<Event>, all: seq<Event>) {
    events <= all && forall k :: |events| <= k < |all| ==> !all[k].Asks?
  }

  /** The number of effective events behind the first `from` ones. */
  ghost function Effects(env: Env, i: nat, left: Leftovers, m: Mirror, all: seq<Event>, from: nat): nat {
    if |all| <= from then 0
    else
      var init := all[..|all| - 1];
      Effects(env, i, left, m, init, from)
      + if Effective(env, i, After(env, i, left, m, init), all[|all| - 1]) then 1 else 0
  }

  /** The potential has been lowered by each of n effective events. */
  ghost predicate RunDown(env: Env, i: nat, l: Loop, l': Loop, n: nat) {
    && Alive(env, l.run, i) && Alive(env, l'.run, i)
    && PotentialOf(env, i, l') + n <= PotentialOf(env, i, l)
  }

  lemma NoneRunDown(env: Env, i: nat, m: Mirror, l: Loop)
    requires env.codec.Faithful() && Kept(env, i, m, l) && Alive(env, l.run, i)
    ensures RunDown(env, i, l, l, 0)
  {
  }

  lemma OneRunDown(env: Env, i: nat, left: Leftovers, m: Mirror, l: Loop, before: Loop, e: Event, next: Loop, n: nat)
    requires env.codec.Faithful() && Kept(env, i, m, before) && RunDown(env, i, l, before, n)
    requires Orderly(env, i, before, e) && !e.Asks? && next == Advance(env, i, left, before, e)
    requires !Run(env, next.run).crashed
    ensures RunDown(env, i, l, next, n + if Effective(env, i, before, e) then 1 else 0)
  {
    EventLowers(env, i, left, m, before, e, next);
    EventKeeps(env, i, left, m, before, e);
    RestIsZero(env, i, m, before);
    RestIsZero(env, i, m, next);
  }

  lemma LastEvent(env: Env, i: nat, left: Leftovers, m: Mirror, events: seq<Event>, all: seq<Event>)
    returns (init: seq<Event>, e: Event)
    requires Continues(events, all) && |events| < |all| && AllOrderly(env, i, left, m, all)
    ensures Continues(events, init) && |init| == |all| - 1 && AllOrderly(env, i, left, m, init)
    ensures !e.Asks? && Orderly(env, i, After(env, i, left, m, init), e)
    ensures After(env, i, left, m, all) == Advance(env, i, left, After(env, i, left, m, init), e)
    ensures Effects(env, i, left, m, all, |events|)
         == Effects(env, i, left, m, init, |events|)
            + if Effective(env, i, After(env, i, left, m, init), e) then 1 else 0
  {
    init, e := all[..|all| - 1], all[|all| - 1];
  }

  /** Whatever happens, as long as the user asks for nothing and the process does not crash: each
      effective event lowers the potential, and nothing raises it. */
  lemma {:induction false} PotentialRunsDown(env: Env, i: nat, left: Leftovers, m: Mirror,
                                             events: seq<Event>, l: Loop, all: seq<Event>, l': Loop)
    requires env.codec.Faithful() && AllOrderly(env, i, left, m, all) && Continues(events, all)
    requires l == After(env, i, left, m, events) && l' == After(env, i, left, m, all)
    requires Alive(env, l.run, i) && !Run(env, l'.run).crashed
    ensures RunDown(env, i, l, l', Effects(env, i, left, m, all, |events|))
    decreases |all|
  {
    if |all| == |events| {
      assert all == events;
      LoopIsKept(env, i, left, m, all);
      NoneRunDown(env, i, m, l);
    } else {
      var init, e := LastEvent(env, i, left, m, events, all);
      var before := After(env, i, left, m, init);
      RunBefore(env, i, left, before, e);
      LoopIsKept(env, i, left, m, init);
      PotentialRunsDown(env, i, left, m, events, l, init, before);
      OneRunDown(env, i, left, m, l, before, e, l', Effects(env, i, left, m, init, |events|));
    }
  }

  /** In every such continuation there are no more effective events than the potential says, so that the
      client's refreshes come to an end; and once at rest, client and session stay there. */
  lemma RefreshesEnd(env: Env, i: nat, left: Leftovers, m: Mirror,
                     events: seq<Event>, l: Loop, all: seq<Event>, l': Loop)
    requires env.codec.Faithful() && AllOrderly(env, i, left, m, all) && Continues(events, all)
    requires l == After(env, i, left, m, events) && l' == After(env, i, left, m, all)
    requires Alive(env, l.run, i) && !Run(env, l'.run).crashed
    ensures Effects(env, i, left, m, all, |events|) <= PotentialOf(env, i, l)
    ensures AtRest(env, i, l) ==> AtRest(env, i, l')
  {
    PotentialRunsDown(env, i, left, m, events, l, all, l');
    StartIsOrderly(env, i, left, m, events, all);
    LoopIsKept(env, i, left, m, events);
    LoopIsKept(env, i, left, m, all);
    RestStays(env, i, m, l, l', Effects(env, i, left, m, all, |events|));
  }

  lemma {:induction false} StartIsOrderly(env: Env, i: nat, left: Leftovers, m: Mirror,
                                          events: seq<Event>, all: seq<Event>)
    requires AllOrderly(env, i, left, m, all) && Continues(events, all)
    ensures AllOrderly(env, i, left, m, events)
    decreases |all|
  {
    if |all| == |events| {
      assert all == events;
    } else {
      var init, _ := LastEvent(env, i, left, m, events, all);
      StartIsOrderly(env, i, left, m, events, init);
    }
  }

  lemma RestStays(env: Env, i: nat, m: Mirror, l: Loop, l': Loop, n: nat)
    requires env.codec.Faithful() && Kept(env, i, m, l) && Kept(env, i, m, l') && RunDown(env, i, l, l', n)
    ensures AtRest(env, i, l) ==> AtRest(env, i, l')
  {
    RestIsZero(env, i, m, l);
    RestIsZero(env, i, m, l');
  }

  lemma ZeroIsRest(env: Env, i: nat, m: Mirror, l: Loop)
    requires env.codec.Faithful() && Kept(env, i, m, l) && Alive(env, l.run, i) && PotentialOf(env, i, l) == 0
    ensures AtRest(env, i, l) && Requests(Mine(env, l.run, i)) == Run(env, l.run).conns[i].sent
  {
    RestIsZero(env, i, m, l);
    RestMeansAllReceived(env, i, m, l);
  }

  // ---------- Continuations in which something keeps happening ----------

  /** The history goes on from `before` without a request of the user, and it has at least one more
      effective event, unless `before` has ended at rest. Anything else may happen as well: any number of
      bytes may arrive at once, and other sessions may do what they like. */
  ghost predicate GoesOn(env: Env, i: nat, left: Leftovers, m: Mirror, before: seq<Event>, events: seq<Event>) {
    && Continues(before, events)
    && (AtRest(env, i, After(env, i, left, m, before)) || Effects(env, i, left, m, events, |before|) >= 1)
  }

  ghost predicate Possible(env: Env, i: nat, left: Leftovers, m: Mirror, events: seq<Event>) {
    AllOrderly(env, i, left, m, events) && !Run(env, After(env, i, left, m, events).run).crashed
  }

  /** A history in stages, each of which goes on from the one before. */
  ghost predicate KeepsGoing(env: Env, i: nat, left: Leftovers, m: Mirror, stages: seq<seq<Event>>) {
    && stages != [] && Possible(env, i, left, m, stages[|stages| - 1])
    && (|stages| > 1 ==>
          && KeepsGoing(env, i, left, m, stages[..|stages| - 1])
          && GoesOn(env, i, left, m, stages[|stages| - 2], stages[|stages| - 1]))
  }

  lemma LastStage(env: Env, i: nat, left: Leftovers, m: Mirror, stages: seq<seq<Event>>)
    returns (init: seq<seq<Event>>, before: seq<Event>)
    requires KeepsGoing(env, i, left, m, stages) && |stages| > 1
    ensures KeepsGoing(env, i, left, m, init) && |init| == |stages| - 1 && init[0] == stages[0]
    ensures before == init[|init| - 1] && Possible(env, i, left, m, before)
    ensures Possible(env, i, left, m, stages[|stages| - 1])
    ensures GoesOn(env, i, left, m, before, stages[|stages| - 1])
  {
    init, before := stages[..|stages| - 1], stages[|stages| - 2];
  }

  /** One stage, by its loops. */
  lemma StageRunsDown(env: Env, i: nat, m: Mirror, before: Loop, l: Loop, n: nat)
    requires env.codec.Faithful() && Kept(env, i, m, before) && RunDown(env, i, before, l, n)
    requires AtRest(env, i, before) || n >= 1
    ensures PotentialOf(env, i, l) == 0 || PotentialOf(env, i, l) + 1 <= PotentialOf(env, i, before)
  {
    RestIsZero(env, i, m, before);
  }

  lemma StageLowers(env: Env, i: nat, left: Leftovers, m: Mirror,
                    events: seq<Event>, before: Loop, all: seq<Event>, l: Loop)
    requires env.codec.Faithful() && Possible(env, i, left, m, events) && Possible(env, i, left, m, all)
    requires GoesOn(env, i, left, m, events, all) && Alive(env, before.run, i)
    requires before == After(env, i, left, m, events) && l == After(env, i, left, m, all)
    ensures Alive(env, l.run, i)
    ensures PotentialOf(env, i, l) == 0 || PotentialOf(env, i, l) + 1 <= PotentialOf(env, i, before)
  {
    LoopIsKept(env, i, left, m, events);
    PotentialRunsDown(env, i, left, m, events, before, all, l);
    StageRunsDown(env, i, m, before, l, Effects(env, i, left, m, all, |events|));
  }

  lemma {:induction false} StagesLower(env: Env, i: nat, left: Leftovers, m: Mirror,
                                       stages: seq<seq<Event>>, l: Loop, l': Loop)
    requires env.codec.Faithful() && KeepsGoing(env, i, left, m, stages)
    requires l == After(env, i, left, m, stages[0]) && Alive(env, l.run, i)
    requires l' == After(env, i, left, m, stages[|stages| - 1])
    ensures Alive(env, l'.run, i)
    ensures PotentialOf(env, i, l') == 0 || PotentialOf(env, i, l') + |stages| - 1 <= PotentialOf(env, i, l)
    decreases |stages|
  {
    if |stages| > 1 {
      var init, events := LastStage(env, i, left, m, stages);
      var before := After(env, i, left, m, events);
      StagesLower(env, i, left, m, init, l, before);
      StageLowers(env, i, left, m, events, before, stages[|stages| - 1], l');
    }
  }

  /** When the user asks for nothing more and something of the session keeps happening, client and
      session come to rest: in a history of more stages than the potential at its start, whatever the
      sizes of deliveries, whatever additions are refused, and whatever other sessions do, up to a crash
      of the process. All requests are then answered. */
  lemma LoopComesToRest(env: Env, i: nat, left: Leftovers, m: Mirror, stages: seq<seq<Event>>, l: Loop, l': Loop)
    requires env.codec.Faithful() && KeepsGoing(env, i, left, m, stages)
    requires l == After(env, i, left, m, stages[0]) && Alive(env, l.run, i)
    requires l' == After(env, i, left, m, stages[|stages| - 1])
    requires |stages| > PotentialOf(env, i, l)
    ensures AtRest(env, i, l') && Requests(Mine(env, l'.run, i)) == Run(env, l'.run).conns[i].sent
  {
    StagesLower(env, i, left, m, stages, l, l');
    LoopIsKept(env, i, left, m, stages[|stages| - 1]);
    ZeroIsRest(env, i, m, l');
  }

  /** So the mirror comes to show every variable that its client has added. */
  lemma EveryAdditionComesToBeShown(env: Env, i: nat, left: Leftovers, m: Mirror,
                                    stages: seq<seq<Event>>, l: Loop, l': Loop, p: nat)
    requires env.codec.Faithful() && KeepsGoing(env, i, left, m, stages)
    requires l == After(env, i, left, m, stages[0]) && Alive(env, l.run, i)
    requires l' == After(env, i, left, m, stages[|stages| - 1])
    requires |stages| > PotentialOf(env, i, l) && AddedBy(env, LogOf(env, l'.run), i, p)
    ensures ShowsAddition(env, LogOf(env, l'.run), i, m, p, l'.mirror)
  {
    LoopComesToRest(env, i, left, m, stages, l, l');
    MirrorShowsOwnAdditions(env, i, left, m, stages[|stages| - 1], l', p);
  }

  // ---------- There is always an effective event until rest ----------

  /** A reply that is too large for the client to parse. */
  ghost predicate Oversized(env: Env, run: seq<Action>, i: nat) {
    exists k :: 0 <= k < |Mine(env, run, i)| && |env.codec.response(Mine(env, run, i)[k].response)| > INT_MAX
  }

  /** The session's own bytes arrive, its own handler runs, or its client is called. */
  predicate Own(e: Event, i: nat, o: Oracle) {
    e == Happens(Deliver(i, 1)) || e == Happens(Succeed(i, 0, o)) || e.Ready?
  }

  lemma NextReply(env: Env, i: nat, m: Mirror, l: Loop, call: Call)
    requires env.codec.Faithful() && Kept(env, i, m, l) && Alive(env, l.run, i) && !Oversized(env, l.run, i)
    requires Waiting(env, Run(env, l.run).conns[i]) && l.calls < |Mine(env, l.run, i)|
    requires call == Call(|Run(env, l.run).conns[i].written|, |Run(env, l.run).conns[i].written|)
    ensures Orderly(env, i, l, Ready(call))
  {
    var rs, n := Responses(Mine(env, l.run, i)), l.calls;
    InStepNow(env, i, m, l);
    WaitingMeansAllAnswered(env, Mine(env, l.run, i), Run(env, l.run).conns[i]);
    FrameAt(env.codec, rs, n);
    assert env.codec.ReadsPrefix(ResponseType(rs[n]), |env.codec.response(rs[n])|);
  }

  lemma RepliesAreLeft(env: Env, i: nat, m: Mirror, l: Loop)
    requires env.codec.Faithful() && Kept(env, i, m, l) && Alive(env, l.run, i)
    requires Waiting(env, Run(env, l.run).conns[i]) && !AtRest(env, i, l)
    ensures l.calls < |Mine(env, l.run, i)|
  {
    InStepNow(env, i, m, l);
    var mine, c := Mine(env, l.run, i), Run(env, l.run).conns[i];
    WaitingMeansAllAnswered(env, mine, c);
    if l.calls == |mine| {
      AllTaken(env, m, l, Responses(mine), c.written);
    }
  }

  /** Short of rest, one of the session's own events is possible and effective. */
  lemma NeverStuck(env: Env, i: nat, m: Mirror, l: Loop, o: Oracle) returns (e: Event)
    requires env.codec.Faithful() && Kept(env, i, m, l) && Alive(env, l.run, i)
    requires !AtRest(env, i, l) && !Oversized(env, l.run, i)
    ensures Own(e, i, o) && Orderly(env, i, l, e) && Effective(env, i, l, e)
  {
    InStepNow(env, i, m, l);
    var v := ViewOf(env, i, l);
    if v.c.wire != [] {
      e := Happens(Deliver(i, 1));
    } else {
      TurnOrRest(env, Packets(env.codec, v.c.sent), v.mine, v.c);
      if Arrived(env, v.c, 0) {
        e := Happens(Succeed(i, 0, o));
      } else {
        RepliesAreLeft(env, i, m, l);
        var call := Call(|v.c.written|, |v.c.written|);
        NextReply(env, i, m, l, call);
        e := Ready(call);
      }
    }
  }

  /** So wherever none of them is left, client and session are at rest, and every addition is shown. */
  lemma NothingLeftMeansRest(env: Env, i: nat, left: Leftovers, m: Mirror, events: seq<Event>, l: Loop, o: Oracle)
    requires env.codec.Faithful() && AllOrderly(env, i, left, m, events) && l == After(env, i, left, m, events)
    requires Alive(env, l.run, i) && !Oversized(env, l.run, i)
    requires forall e :: Own(e, i, o) && Orderly(env, i, l, e) ==> !Effective(env, i, l, e)
    ensures AtRest(env, i, l) && Requests(Mine(env, l.run, i)) == Run(env, l.run).conns[i].sent
    ensures forall p: nat :: AddedBy(env, LogOf(env, l.run), i, p)
                             ==> ShowsAddition(env, LogOf(env, l.run), i, m, p, l.mirror)
  {
    LoopIsKept(env, i, left, m, events);
    if !AtRest(env, i, l) {
      var e := NeverStuck(env, i, m, l, o);
      assert false;
    }
    RestMeansAllReceived(env, i, m, l);
    forall p: nat | AddedBy(env, LogOf(env, l.run), i, p)
      ensures ShowsAddition(env, LogOf(env, l.run), i, m, p, l.mirror)
    {
      MirrorShowsOwnAdditions(env, i, left, m, events, l, p);
    }
  }

  // ---------- Only its own request for values can crash the process ----------

  predicate AsksForValues(v: View) {
    exists k :: |v.mine| <= k < |v.c.sent| && v.c.sent[k].GetVals?
  }

  lemma ActSendsNothing(env: Env, t: Store.Tables, c: Conn, a: Action)
    requires !a.Accept? && !a.Send?
    ensures Act(env, t, c, a).conn.sent == c.sent
  {
  }

  lemma TurnCrashes(env: Env, i: nat, m: Mirror, l: Loop, o: Oracle)
    requires env.codec.Faithful() && Kept(env, i, m, l) && Alive(env, l.run, i)
    requires Next(env, Run(env, l.run), Succeed(i, 0, o)).crashed
    ensures AsksForValues(ViewOf(env, i, l))
  {
    InStepNow(env, i, m, l);
    StoreAlwaysInOrder(env, l.run);
    var w, v := Run(env, l.run), ViewOf(env, i, l);
    OnlyServingTouchesStore(env, w.tables, v.c, Succeed(i, 0, o));
    BodyIsNextRequest(env, v.mine, v.c, o);
    CrashesExactly(env, w.tables, v.c.sent[|v.mine|], o.now);
  }

  lemma OwnActionCrashes(env: Env, i: nat, m: Mirror, l: Loop, e: Event, next: Loop, o: Oracle)
    requires env.codec.Faithful() && Kept(env, i, m, l) && Alive(env, l.run, i)
    requires Own(e, i, o) && e.Happens? && next == l.(run := l.run + [e.action])
    ensures Run(env, next.run).crashed ==> AsksForValues(ViewOf(env, i, l))
    ensures !Run(env, next.run).crashed ==>
              Alive(env, next.run, i) && (AsksForValues(ViewOf(env, i, next)) ==> AsksForValues(ViewOf(env, i, l)))
  {
    var w, a := Run(env, l.run), e.action;
    RunGoesOn(env, l.run, a);
    OneMoreAction(env, i, l.run, a);
    ActSendsNothing(env, w.tables, w.conns[i], a);
    if Run(env, next.run).crashed {
      TurnCrashes(env, i, m, l, o);
    }
  }

  lemma ReplyDoesNotCrash(env: Env, i: nat, l: Loop, next: Loop)
    requires env.codec.Faithful() && Alive(env, l.run, i)
    requires next.run == l.run || next.run == l.run + [Send(i, GetVars)]
    ensures Alive(env, next.run, i)
    ensures AsksForValues(ViewOf(env, i, next)) ==> AsksForValues(ViewOf(env, i, l))
  {
    if next.run != l.run {
      RefreshGoesOut(env, i, l.run, next.run);
    }
  }

  lemma OwnEventCrashes(env: Env, i: nat, left: Leftovers, m: Mirror, l: Loop, e: Event, next: Loop, o: Oracle)
    requires env.codec.Faithful() && Kept(env, i, m, l) && Alive(env, l.run, i)
    requires Own(e, i, o) && Orderly(env, i, l, e) && next == Advance(env, i, left, l, e)
    ensures Run(env, next.run).crashed ==> AsksForValues(ViewOf(env, i, l))
    ensures !Run(env, next.run).crashed ==>
              Alive(env, next.run, i) && (AsksForValues(ViewOf(env, i, next)) ==> AsksForValues(ViewOf(env, i, l)))
  {
    match e
    case Happens(_) => OwnActionCrashes(env, i, m, l, e, next, o);
    case Ready(call) =>
      ReplyIsReceived(env, i, left, m, l, call, next);
      assert l.run + [] == l.run;
      ReplyDoesNotCrash(env, i, l, next);
  }

  // ---------- A way to rest ----------

  /** Nothing but the session's own events. */
  predicate ContinuesAlone(events: seq<Event>, all: seq<Event>, i: nat, o: Oracle) {
    events <= all && forall k :: |events| <= k < |all| ==> Own(all[k], i, o)
  }

  lemma OneMoreEvent(env: Env, i: nat, left: Leftovers, m: Mirror, events: seq<Event>, l: Loop, e: Event, o: Oracle)
    returns (all: seq<Event>, next: Loop)
    requires AllOrderly(env, i, left, m, events) && l == After(env, i, left, m, events)
    requires Own(e, i, o) && Orderly(env, i, l, e)
    ensures ContinuesAlone(events, all, i, o) && |all| == |events| + 1 && all[|events|] == e
    ensures AllOrderly(env, i, left, m, all) && next == After(env, i, left, m, all)
    ensures next == Advance(env, i, left, l, e)
  {
    all, next := events + [e], Advance(env, i, left, l, e);
    assert all[..|events|] == events;
  }

  lemma ContinuesFurther(events: seq<Event>, more: seq<Event>, all: seq<Event>, i: nat, o: Oracle)
    requires ContinuesAlone(events, more, i, o) && ContinuesAlone(more, all, i, o)
    ensures ContinuesAlone(events, all, i, o)
  {
  }

  /** From any point, with the other sessions in any state, the session's own events lead to rest, in no
      more than as many as the potential says, unless a reply is too large to be parsed, or the client
      itself has asked for values and that makes the process crash. */
  lemma {:induction false} RestCanBeReached(env: Env, i: nat, left: Leftovers, m: Mirror, events: seq<Event>, l: Loop,
                                            o: Oracle)
    returns (all: seq<Event>, l': Loop)
    requires env.codec.Faithful() && AllOrderly(env, i, left, m, events) && l == After(env, i, left, m, events)
    requires Alive(env, l.run, i)
    ensures ContinuesAlone(events, all, i, o)
    ensures AllOrderly(env, i, left, m, all) && l' == After(env, i, left, m, all)
    ensures |all| <= |events| + PotentialOf(env, i, l)
    ensures Run(env, l'.run).crashed ==> AsksForValues(ViewOf(env, i, l))
    ensures Run(env, l'.run).crashed || Oversized(env, l'.run, i) || AtRest(env, i, l')
    decreases PotentialOf(env, i, l)
  {
    LoopIsKept(env, i, left, m, events);
    RestIsZero(env, i, m, l);
    if AtRest(env, i, l) || Oversized(env, l.run, i) {
      all, l' := events, l;
    } else {
      var e := NeverStuck(env, i, m, l, o);
      var more, next := OneMoreEvent(env, i, left, m, events, l, e, o);
      OwnEventCrashes(env, i, left, m, l, e, next, o);
      if Run(env, next.run).crashed {
        all, l' := more, next;
      } else {
        NoneRunDown(env, i, m, l);
        OneRunDown(env, i, left, m, l, l, e, next, 0);
        all, l' := RestCanBeReached(env, i, left, m, more, next, o);
        ContinuesFurther(events, more, all, i, o);
      }
    }
  }

  // ---------- Such continuations exist, of any length ----------

  lemma OneMoreStage(env: Env, i: nat, left: Leftovers, m: Mirror, stages: seq<seq<Event>>, events: seq<Event>)
    returns (more: seq<seq<Event>>)
    requires KeepsGoing(env, i, left, m, stages) && Possible(env, i, left, m, events)
    requires GoesOn(env, i, left, m, stages[|stages| - 1], events)
    ensures KeepsGoing(env, i, left, m, more)
    ensures |more| == |stages| + 1 && more[0] == stages[0] && more[|stages|] == events
  {
    more := stages + [events];
    assert more[..|more| - 1] == stages;
  }

  lemma OneEffect(env: Env, i: nat, left: Leftovers, m: Mirror, events: seq<Event>, l: Loop, all: seq<Event>)
    requires l == After(env, i, left, m, events) && events <= all && |all| == |events| + 1
    requires !all[|events|].Asks? && Effective(env, i, l, all[|events|])
    ensures GoesOn(env, i, left, m, events, all)
  {
    assert all[..|all| - 1] == events;
  }

  /** A crash is the fault of a request for values of the session's own, and no such request is added. */
  ghost predicate CrashesByValues(env: Env, i: nat, l: Loop, next: Loop)
    requires Alive(env, l.run, i)
  {
    && (Run(env, next.run).crashed ==> AsksForValues(ViewOf(env, i, l)))
    && (!Run(env, next.run).crashed ==>
          && Alive(env, next.run, i)
          && (AsksForValues(ViewOf(env, i, next)) ==> AsksForValues(ViewOf(env, i, l))))
  }

  /** The next stage, of one event of the session. */
  lemma NextStage(env: Env, i: nat, left: Leftovers, m: Mirror, events: seq<Event>, l: Loop, o: Oracle)
    returns (all: seq<Event>, next: Loop)
    requires env.codec.Faithful() && AllOrderly(env, i, left, m, events) && l == After(env, i, left, m, events)
    requires Kept(env, i, m, l) && Alive(env, l.run, i) && !Oversized(env, l.run, i) && !AtRest(env, i, l)
    ensures AllOrderly(env, i, left, m, all) && next == After(env, i, left, m, all)
    ensures GoesOn(env, i, left, m, events, all) && CrashesByValues(env, i, l, next)
  {
    var e := NeverStuck(env, i, m, l, o);
    all, next := OneMoreEvent(env, i, left, m, events, l, e, o);
    OwnEventCrashes(env, i, left, m, l, e, next, o);
    OneEffect(env, i, left, m, events, l, all);
  }

  /** A history that keeps going and ends in the loop l, which exists. */
  ghost predicate Ends(env: Env, i: nat, left: Leftovers, m: Mirror, stages: seq<seq<Event>>, l: Loop) {
    KeepsGoing(env, i, left, m, stages) && l == After(env, i, left, m, stages[|stages| - 1]) && Alive(env, l.run, i)
  }

  lemma EndOf(env: Env, i: nat, left: Leftovers, m: Mirror, stages: seq<seq<Event>>, l: Loop)
    returns (events: seq<Event>)
    requires env.codec.Faithful() && Ends(env, i, left, m, stages, l)
    ensures stages != [] && events == stages[|stages| - 1] && Possible(env, i, left, m, events)
    ensures l == After(env, i, left, m, events) && Alive(env, l.run, i) && Kept(env, i, m, l)
  {
    events := stages[|stages| - 1];
    LoopIsKept(env, i, left, m, events);
  }

  lemma OneMoreEnds(env: Env, i: nat, left: Leftovers, m: Mirror, stages: seq<seq<Event>>, l: Loop,
                    events: seq<Event>, next: Loop)
    returns (more: seq<seq<Event>>)
    requires Ends(env, i, left, m, stages, l) && Possible(env, i, left, m, events)
    requires next == After(env, i, left, m, events) && Alive(env, next.run, i)
    requires GoesOn(env, i, left, m, stages[|stages| - 1], events)
    ensures Ends(env, i, left, m, more, next) && |more| == |stages| + 1 && more[0] == stages[0]
  {
    more := OneMoreStage(env, i, left, m, stages, events);
  }

  lemma RestGoesOn(env: Env, i: nat, left: Leftovers, m: Mirror, events: seq<Event>)
    requires AtRest(env, i, After(env, i, left, m, events))
    ensures GoesOn(env, i, left, m, events, events)
  {
  }

  /** A history goes on, or its next event is the crash by a request for values of the session's own. */
  lemma OneStageMore(env: Env, i: nat, left: Leftovers, m: Mirror, stages: seq<seq<Event>>, l: Loop, o: Oracle)
    returns (more: seq<seq<Event>>, next: Loop)
    requires env.codec.Faithful() && Ends(env, i, left, m, stages, l) && !Oversized(env, l.run, i)
    ensures Ends(env, i, left, m, more, next) && more[0] == stages[0]
    ensures |more| == |stages| + 1 || (|more| == |stages| && AsksForValues(ViewOf(env, i, l)))
    ensures AsksForValues(ViewOf(env, i, next)) ==> AsksForValues(ViewOf(env, i, l))
  {
    var events := EndOf(env, i, left, m, stages, l);
    more, next := stages, l;
    if AtRest(env, i, l) {
      RestGoesOn(env, i, left, m, events);
      more := OneMoreEnds(env, i, left, m, stages, l, events, l);
    } else {
      var all, after := NextStage(env, i, left, m, events, l, o);
      if !Run(env, after.run).crashed {
        next := after;
        more := OneMoreEnds(env, i, left, m, stages, l, all, after);
      }
    }
  }

  lemma FirstStage(env: Env, i: nat, left: Leftovers, m: Mirror, events: seq<Event>, l: Loop)
    requires Possible(env, i, left, m, events) && l == After(env, i, left, m, events) && Alive(env, l.run, i)
    ensures Ends(env, i, left, m, [events], l)
  {
  }

  /** From any point there is a history that keeps going for n more stages, unless a reply is too large to
      be parsed, or the client itself has asked for values. */
  lemma {:induction false} HistoriesKeepGoing(env: Env, i: nat, left: Leftovers, m: Mirror,
                                              events: seq<Event>, l: Loop, o: Oracle, n: nat)
    returns (stages: seq<seq<Event>>, l': Loop)
    requires env.codec.Faithful() && Possible(env, i, left, m, events) && l == After(env, i, left, m, events)
    requires Alive(env, l.run, i)
    ensures Ends(env, i, left, m, stages, l') && stages[0] == events && |stages| <= n + 1
    ensures AsksForValues(ViewOf(env, i, l')) ==> AsksForValues(ViewOf(env, i, l))
    ensures |stages| == n + 1 || Oversized(env, l'.run, i) || AsksForValues(ViewOf(env, i, l))
  {
    if n == 0 {
      stages, l' := [events], l;
      FirstStage(env, i, left, m, events, l);
    } else {
      stages, l' := HistoriesKeepGoing(env, i, left, m, events, l, o, n - 1);
      if |stages| == n && !Oversized(env, l'.run, i) {
        stages, l' := OneStageMore(env, i, left, m, stages, l', o);
      }
    }
  }
}
