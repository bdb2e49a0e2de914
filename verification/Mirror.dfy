// VarsModel: the client's mirror of the list of variables.

module Mirrors {
  import opened Options
  import opened Wire
  import opened Messages
  import opened Protocol
  import opened DataModel
  import opened Store
  import opened Catalogs
  import opened Sessions
  import Invariants
  import opened Linearization
  import opened Clients

  /** The mirrored list, and how often a refresh has been asked for. */
  datatype Mirror = Mirror(vars: seq<Variable>, refreshes: nat)

  /** Names reach the list as C strings. */
  function Shown(variables: seq<Variable>): (r: seq<Variable>)
    ensures |r| == |variables|
    ensures forall i :: 0 <= i < |r| ==> r[i] == Variable(CStr(variables[i].name), variables[i].color)
  {
    seq(|variables|, i requires 0 <= i < |variables| => Variable(CStr(variables[i].name), variables[i].color))
  }

  predicate AsksForRefresh(s: Signal) {
    s.ResponseReceived? && s.status == OK && s.prevMsg == Some(REQUEST_ADD_VAR)
  }

  function React(m: Mirror, s: Signal): Mirror {
    if s.VariablesReceived? then m.(vars := Shown(s.variables))
    else if AsksForRefresh(s) then m.(refreshes := m.refreshes + 1)
    else m
  }

  function ReactAll(m: Mirror, signals: seq<Signal>): Mirror {
    if signals == [] then m else React(ReactAll(m, signals[..|signals| - 1]), signals[|signals| - 1])
  }

  class VarsModel {
    var vars: seq<Variable>
    const client: Client

    constructor (client: Client, vars: seq<Variable>)
      ensures this.client == client && this.vars == vars
    {
      this.client, this.vars := client, vars;
    }

    /** Adds a variable on the server; the mirror only changes with the next refresh. */
    method AddVar(v: Variable)
      requires client.Valid()
      modifies client, client.socket`out
      ensures client.Valid() && vars == old(vars)
      ensures client.requests == old(client.requests) + [Request.AddVar(SaveVariable(v.name, v.color))]
    {
      client.SendVar(v);
    }

    /** The handlers of `variablesReceived` and `responseReceived`. */
    method Receive(s: Signal)
      requires client.Valid()
      modifies this, client, client.socket`out
      ensures client.Valid()
      ensures Mirror(vars, |client.requests|) == React(Mirror(old(vars), |old(client.requests)|), s)
      ensures client.requests == old(client.requests) + if AsksForRefresh(s) then [GetVars] else []
    {
      match s
      case VariablesReceived(variables) =>
        vars := [];
        for i := 0 to |variables|
          invariant client.Valid() && client.requests == old(client.requests)
          invariant |vars| == i && forall k :: 0 <= k < i ==> vars[k] == Shown(variables)[k]
        {
          vars := vars + [Variable(CStr(variables[i].name), variables[i].color)];
        }
        assert vars == Shown(variables);
      case ResponseReceived(prevMsg, status, _) =>
        if status == OK {
          if prevMsg == Some(REQUEST_ADD_VAR) {
            client.RequestVars();
          }
        }
      case _ =>
    }
  }

  // ---------- Everything that was written is received ----------

  // onReadyRead is called when the bytes before `ready` have arrived, and those before `end` arrive
  // while it runs.
  datatype Call = Call(ready: nat, end: nat)

  // What has been received from a stream, and how many of its bytes have been taken.
  datatype Received = Received(signals: seq<Signal>, pos: nat)

  function ReadOne(codec: Codec, stream: Bytes, before: Received, call: Call, left: Leftovers): Received {
    if before.pos <= call.ready <= call.end <= |stream| then
      var taken := TakeFrame(codec, stream[before.pos..call.ready], stream[call.ready..call.end], left);
      Received(before.signals + taken.signals, call.end - |taken.rest|)
    else before
  }

  function ReadAll(codec: Codec, stream: Bytes, calls: seq<Call>, left: Leftovers): Received {
    if calls == [] then Received([], 0)
    else ReadOne(codec, stream, ReadAll(codec, stream, calls[..|calls| - 1], left), calls[|calls| - 1], left)
  }

  function AllSignals(rs: seq<Response>): seq<Signal> {
    if rs == [] then [] else AllSignals(rs[..|rs| - 1]) + SignalsOf(rs[|rs| - 1])
  }

  /** A call for response n comes when as much of its frame as the client needs has arrived, and the
      whole frame arrives in time. Any part of what follows may have arrived as well. */
  predicate Timely(codec: Codec, rs: seq<Response>, n: nat, call: Call) {
    && n < |rs| && |codec.response(rs[n])| <= INT_MAX
    && var start := |ResponseStream(codec, rs[..n])|;
       && start + Required(codec, rs[n]) <= call.ready <= call.end
       && start + |codec.ResponseFrame(rs[n])| <= call.end
  }

  lemma {:induction false} StreamConcat(codec: Codec, rs: seq<Response>, more: seq<Response>)
    ensures ResponseStream(codec, rs + more) == ResponseStream(codec, rs) + ResponseStream(codec, more)
  {
    if more == [] {
      assert rs + more == rs && ResponseStream(codec, []) == [];
    } else {
      var init, last := more[..|more| - 1], more[|more| - 1];
      assert rs + more == (rs + init) + [last] && more == init + [last];
      StreamConcat(codec, rs, init);
      ResponseStreamAppend(codec, rs + init, last);
      ResponseStreamAppend(codec, init, last);
    }
  }

  lemma FrameAt(codec: Codec, rs: seq<Response>, n: nat)
    requires n < |rs|
    ensures ResponseStream(codec, rs[..n + 1]) == ResponseStream(codec, rs[..n]) + codec.ResponseFrame(rs[n])
    ensures ResponseStream(codec, rs[..n + 1]) <= ResponseStream(codec, rs)
  {
    assert rs[..n + 1] == rs[..n] + [rs[n]] && rs == rs[..n + 1] + rs[n + 1..];
    ResponseStreamAppend(codec, rs[..n], rs[n]);
    StreamConcat(codec, rs[..n + 1], rs[n + 1..]);
  }

  ghost function ReceivedFirst(codec: Codec, rs: seq<Response>, n: nat): Received
    requires n <= |rs|
  {
    Received(AllSignals(rs[..n]), |ResponseStream(codec, rs[..n])|)
  }

  /** Two pieces of a stream that starts with a frame. */
  lemma Cut(stream: Bytes, start: nat, ready: nat, end: nat, frame: Bytes)
    requires start <= ready <= end <= |stream| && start + |frame| <= end
    requires stream[start..start + |frame|] == frame
    ensures stream[start..ready] + stream[ready..end] == frame + stream[start + |frame|..end]
  {
    assert stream[start..ready] + stream[ready..end] == stream[start..end];
    assert stream[start..end] == stream[start..start + |frame|] + stream[start + |frame|..end];
  }

  lemma OneIsReceived(codec: Codec, rs: seq<Response>, n: nat, stream: Bytes, call: Call, left: Leftovers)
    requires codec.Faithful() && Timely(codec, rs, n, call)
    requires stream <= ResponseStream(codec, rs) && call.end <= |stream|
    ensures ReadOne(codec, stream, ReceivedFirst(codec, rs, n), call, left) == ReceivedFirst(codec, rs, n + 1)
    ensures ReadOne(codec, stream, Received([], ReceivedFirst(codec, rs, n).pos), call, left)
         == Received(SignalsOf(rs[n]), ReceivedFirst(codec, rs, n + 1).pos)
  {
    var start, frame := |ResponseStream(codec, rs[..n])|, codec.ResponseFrame(rs[n]);
    FrameAt(codec, rs, n);
    assert stream[start..start + |frame|] == frame by {
      assert stream[start..start + |frame|] == ResponseStream(codec, rs)[start..start + |frame|];
      assert ResponseStream(codec, rs)[..start + |frame|] == ResponseStream(codec, rs[..n + 1]);
    }
    Cut(stream, start, call.ready, call.end, frame);
    var back := stream[start + |frame|..call.end];
    FrameIsTaken(codec, rs[n], back, stream[start..call.ready], stream[call.ready..call.end], left);
    assert AllSignals(rs[..n + 1]) == AllSignals(rs[..n]) + SignalsOf(rs[n]) by {
      assert rs[..n + 1][..n] == rs[..n];
    }
  }

  /** Whenever the pieces arrive, as long as each call is timely: as many calls as there are receive
      exactly the signals of that many first responses, in order, and take exactly their bytes. */
  lemma {:induction false} ResponsesAreReceived(codec: Codec, rs: seq<Response>, stream: Bytes,
                                                calls: seq<Call>, left: Leftovers)
    requires codec.Faithful() && stream <= ResponseStream(codec, rs)
    requires forall k :: 0 <= k < |calls| ==> Timely(codec, rs, k, calls[k]) && calls[k].end <= |stream|
    ensures |calls| <= |rs| && ReadAll(codec, stream, calls, left) == ReceivedFirst(codec, rs, |calls|)
  {
    if calls == [] {
      assert rs[..0] == [];
      assert ResponseStream(codec, []) == [];
    } else {
      var n := |calls| - 1;
      ResponsesAreReceived(codec, rs, stream, calls[..n], left);
      OneIsReceived(codec, rs, n, stream, calls[n], left);
    }
  }

  /** The signal tells what the response says. */
  predicate Tells(r: Response, s: Signal) {
    match r
    case StatusReply(f) =>
      s == ResponseReceived(f.prevMsg, f.status, match f.msg case None => [] case Some(msg) => CStr(msg))
    case ValuesReply(vs) => s == ValuesReceived(vs)
    case VariablesReply(vs) =>
      && s.VariablesReceived? && |s.variables| == |vs|
      && forall k :: 0 <= k < |vs| ==> s.variables[k] == Variable(vs[k].name, vs[k].color)
  }

  /** One signal for each response that is not an empty list, in their order. */
  predicate TellsAll(rs: seq<Response>, signals: seq<Signal>) {
    if rs == [] then signals == []
    else
      var init, last := rs[..|rs| - 1], rs[|rs| - 1];
      if last == ValuesReply([]) || last == VariablesReply([]) then TellsAll(init, signals)
      else signals != [] && Tells(last, signals[|signals| - 1]) && TellsAll(init, signals[..|signals| - 1])
  }

  lemma OneMoreTold(rs: seq<Response>, signals: seq<Signal>, r: Response, told: seq<Signal>)
    requires TellsAll(rs, signals) && told == SignalsOf(r)
    ensures TellsAll(rs + [r], signals + told)
  {
    assert (rs + [r])[..|rs|] == rs;
    if told == [] {
      assert signals + told == signals;
    } else {
      assert (signals + told)[..|signals|] == signals;
    }
  }

  lemma {:induction false} SignalsTellAll(rs: seq<Response>)
    ensures TellsAll(rs, AllSignals(rs))
  {
    if rs != [] {
      var init, last := rs[..|rs| - 1], rs[|rs| - 1];
      SignalsTellAll(init);
      OneMoreTold(init, AllSignals(init), last, SignalsOf(last));
      assert rs == init + [last];
    }
  }

  // ---------- The mirror follows the store ----------

  lemma {:induction false} CStrTwice(s: Bytes)
    ensures CStr(CStr(s)) == CStr(s)
  {
    if s != [] && s[0] != 0 {
      assert CStr(s)[1..] == CStr(s[1..]);
      CStrTwice(s[1..]);
    }
  }

  /** The map of a running server: never empty, and its names are C strings. */
  ghost predicate Populated(c: Catalog) {
    c.created && c.order != [] && forall k :: 0 <= k < |c.order| ==> CStr(c.order[k]) == c.order[k]
  }

  /** Variables are only ever added at the end, and keep their colors. */
  ghost predicate Grows(c: Catalog, c': Catalog) {
    && c.order <= c'.order
    && forall name :: name in c.entries ==> name in c'.entries && c'.entries[name].color == c.entries[name].color
  }

  lemma PromiseGrows(env: Env, c: Catalog, r: Request, now: I64)
    requires WellFormed(c) && Populated(c)
    ensures Populated(Promise(env, c, r, now).0) && Grows(c, Promise(env, c, r, now).0)
  {
    if r.AddVar? {
      CStrTwice(r.variable.name);
    }
  }

  lemma InitialCatalogPopulated()
    ensures Populated(InitialCatalog())
  {
    Invariants.InitialStoreInOrder();
    var t := InitialTables();
    assert InitialCatalog().order == [t.variables[0].name];
    CStrTwice(Text("temp"));
  }

  lemma {:induction false} CatalogGrows(env: Env, log: seq<Exchange>, p: nat)
    requires p <= |log|
    ensures Populated(CatalogAfter(env, log)) && Grows(CatalogAfter(env, log[..p]), CatalogAfter(env, log))
  {
    if log == [] {
      InitialCatalogPopulated();
    } else {
      var init, last := log[..|log| - 1], log[|log| - 1];
      if p == |log| {
        assert log[..p] == log;
        CatalogGrows(env, init, p - 1);
      } else {
        assert log[..p] == init[..p];
        CatalogGrows(env, init, p);
      }
      PromiseGrows(env, CatalogAfter(env, init), last.request, last.now);
    }
  }

  ghost predicate AddsVariable(env: Env, c: Catalog, r: Request) {
    r.AddVar? && CStr(r.variable.name) !in c.entries
  }

  /** Signal by signal: what the client makes of the answer to one request. */
  lemma ReactionToAnswer(env: Env, c: Catalog, r: Request, now: I64, response: Response, m: Mirror)
    requires WellFormed(c) && Populated(c) && Promise(env, c, r, now).1 == Answered(response)
    ensures ReactAll(m, SignalsOf(response))
         == if r.GetVars? then m.(vars := List(c).0)
            else if AddsVariable(env, c, r) then m.(refreshes := m.refreshes + 1)
            else m
  {
    if r.GetVars? {
      ListIsShown(c);
    }
    ReactOnce(m, response);
  }

  lemma ListIsShown(c: Catalog)
    requires WellFormed(c) && Populated(c)
    ensures var list := List(c).0;
            list != [] && Shown(AsVariables(VariablesMessage(list))) == list
  {
    var list := List(c).0;
    var shown := Shown(AsVariables(VariablesMessage(list)));
    forall i | 0 <= i < |list|
      ensures shown[i] == list[i]
    {
      assert CStr(c.order[i]) == c.order[i];
    }
    assert shown == list;
  }

  lemma ReactOnce(m: Mirror, r: Response)
    ensures ReactAll(m, SignalsOf(r)) == if SignalsOf(r) == [] then m else React(m, SignalOf(r))
  {
    var signals := SignalsOf(r);
    if signals != [] {
      assert signals[..|signals| - 1] == [];
    }
  }

  lemma {:induction false} ReactConcat(m: Mirror, a: seq<Signal>, b: seq<Signal>)
    ensures ReactAll(m, a + b) == ReactAll(ReactAll(m, a), b)
  {
    if b == [] {
      assert a + b == a;
    } else {
      assert (a + b)[..|a + b| - 1] == a + b[..|b| - 1];
      ReactConcat(m, a, b[..|b| - 1]);
    }
  }

  /** The last refresh of session i in the log. */
  function LastRefresh(log: seq<Exchange>, i: nat): (p: Option<nat>)
    ensures p.Some? ==> p.value < |log| && log[p.value].conn == i && log[p.value].request.GetVars?
  {
    if log == [] then None
    else
      var last := |log| - 1;
      if log[last].conn == i && log[last].request.GetVars? then Some(last) else LastRefresh(log[..last], i)
  }

  /** How many variables session i has added. */
  ghost function Added(env: Env, log: seq<Exchange>, i: nat): nat {
    if log == [] then 0
    else
      var init, last := log[..|log| - 1], log[|log| - 1];
      Added(env, init, i) + if last.conn == i && AddsVariable(env, CatalogAfter(env, init), last.request) then 1 else 0
  }

  /** What the mirror of session i should be: the list at the processing point of its last refresh. */
  ghost function Expected(env: Env, log: seq<Exchange>, i: nat, m: Mirror): Mirror {
    Mirror(match LastRefresh(log, i)
           case None => m.vars
           case Some(p) => List(CatalogAfter(env, log[..p])).0,
           m.refreshes + Added(env, log, i))
  }

  lemma RefreshOfLast(log: seq<Exchange>, init: seq<Exchange>, x: Exchange, i: nat)
    requires log != [] && init == log[..|log| - 1] && x == log[|log| - 1]
    ensures LastRefresh(log, i) == if x.conn == i && x.request.GetVars? then Some(|init|) else LastRefresh(init, i)
  {
  }

  lemma AddedOfLast(env: Env, log: seq<Exchange>, init: seq<Exchange>, x: Exchange, i: nat)
    requires log != [] && init == log[..|log| - 1] && x == log[|log| - 1]
    ensures Added(env, log, i)
         == Added(env, init, i) + if x.conn == i && AddsVariable(env, CatalogAfter(env, init), x.request) then 1 else 0
  {
  }

  lemma ExpectedOfLast(env: Env, log: seq<Exchange>, init: seq<Exchange>, x: Exchange, i: nat, m: Mirror)
    requires log != [] && init == log[..|log| - 1] && x == log[|log| - 1]
    ensures Expected(env, log, i, m)
         == if x.conn == i then AfterAnswer(env, CatalogAfter(env, init), x.request, Expected(env, init, i, m))
            else Expected(env, init, i, m)
  {
    RefreshOfLast(log, init, x, i);
    AddedOfLast(env, log, init, x, i);
    if !(x.conn == i && x.request.GetVars?) && LastRefresh(init, i).Some? {
      assert log[..LastRefresh(init, i).value] == init[..LastRefresh(init, i).value];
    }
  }

  lemma SignalsAppend(m: Mirror, before: seq<Response>, r: Response)
    ensures ReactAll(m, AllSignals(before + [r])) == ReactAll(ReactAll(m, AllSignals(before)), SignalsOf(r))
  {
    assert (before + [r])[..|before|] == before;
    ReactConcat(m, AllSignals(before), SignalsOf(r));
  }

  /** What the client makes of one more answer. */
  ghost function AfterAnswer(env: Env, c: Catalog, r: Request, e: Mirror): Mirror
    requires WellFormed(c)
  {
    if r.GetVars? then e.(vars := List(c).0)
    else if AddsVariable(env, c, r) then e.(refreshes := e.refreshes + 1)
    else e
  }

  lemma OwnAnswer(env: Env, c: Catalog, x: Exchange, m: Mirror, before: seq<Response>)
    requires WellFormed(c) && Populated(c) && Promise(env, c, x.request, x.now).1 == Answered(x.response)
    ensures ReactAll(m, AllSignals(before + [x.response]))
         == AfterAnswer(env, c, x.request, ReactAll(m, AllSignals(before)))
  {
    SignalsAppend(m, before, x.response);
    ReactionToAnswer(env, c, x.request, x.now, x.response, ReactAll(m, AllSignals(before)));
  }

  lemma ResponsesOfLast(log: seq<Exchange>, init: seq<Exchange>, x: Exchange, i: nat)
    requires log != [] && init == log[..|log| - 1] && x == log[|log| - 1]
    ensures Responses(Of(log, i)) == Responses(Of(init, i)) + if x.conn == i then [x.response] else []
  {
    var before, after := Of(init, i), Of(log, i);
    assert after == before + if x.conn == i then [x] else [];
  }

  /** The mirror after the answers of the log is what it should be. */
  ghost predicate Mirrored(env: Env, log: seq<Exchange>, i: nat, m: Mirror) {
    ReactAll(m, AllSignals(Responses(Of(log, i)))) == Expected(env, log, i, m)
  }

  lemma MirrorStep(env: Env, log: seq<Exchange>, init: seq<Exchange>, x: Exchange, i: nat, m: Mirror)
    requires log != [] && init == log[..|log| - 1] && x == log[|log| - 1]
    requires Promise(env, CatalogAfter(env, init), x.request, x.now).1 == Answered(x.response)
    requires Mirrored(env, init, i, m)
    ensures Mirrored(env, log, i, m)
  {
    ResponsesOfLast(log, init, x, i);
    ExpectedOfLast(env, log, init, x, i, m);
    if x.conn == i {
      CatalogGrows(env, init, 0);
      OwnAnswer(env, CatalogAfter(env, init), x, m, Responses(Of(init, i)));
    } else {
      assert Responses(Of(log, i)) == Responses(Of(init, i));
    }
  }

  /** Whatever other sessions do in between, the mirror shows exactly what the store held when its
      last refresh was processed, and one refresh is asked for per variable it has added. */
  lemma {:induction false} MirrorFollowsStore(env: Env, log: seq<Exchange>, i: nat, m: Mirror)
    requires AnsweredInOrder(env, log)
    ensures Mirrored(env, log, i, m)
  {
    if log == [] {
      assert Responses(Of(log, i)) == [];
    } else {
      AnsweredPrefix(env, log);
      MirrorFollowsStore(env, log[..|log| - 1], i, m);
      MirrorStep(env, log, log[..|log| - 1], log[|log| - 1], i, m);
    }
  }

  lemma AnsweredPrefix(env: Env, log: seq<Exchange>)
    requires log != [] && AnsweredInOrder(env, log)
    ensures AnsweredInOrder(env, log[..|log| - 1])
    ensures var x := log[|log| - 1];
            Promise(env, CatalogAfter(env, log[..|log| - 1]), x.request, x.now).1 == Answered(x.response)
  {
    var init := log[..|log| - 1];
    assert AnsweredAt(env, log, |log| - 1);
    forall k: nat | k < |init|
      ensures AnsweredAt(env, init, k)
    {
      assert init[..k] == log[..k];
      assert AnsweredAt(env, log, k);
    }
  }

  /** A variable that was added at point p is in the list that any refresh after p brings. */
  lemma AddedVariableIsListed(env: Env, log: seq<Exchange>, p: nat)
    requires p < |log| && AddsVariable(env, CatalogAfter(env, log[..p]), log[p].request)
    ensures var v := log[p].request.variable;
            Variable(CStr(v.name), CStr(v.color)) in List(CatalogAfter(env, log)).0
  {
    var v := log[p].request.variable;
    AddedAtEnd(env, log[..p], log[p]);
    assert log[..p + 1] == log[..p] + [log[p]];
    CatalogGrows(env, log, p + 1);
    ListedWhenGrown(CatalogAfter(env, log[..p + 1]), CatalogAfter(env, log), CStr(v.name), CStr(v.color));
  }

  lemma ListedWhenGrown(c: Catalog, c': Catalog, name: Bytes, color: Bytes)
    requires WellFormed(c) && WellFormed(c') && Grows(c, c') && Populated(c')
    requires name in c.entries && c.entries[name].color == color
    ensures Variable(name, color) in List(c').0
  {
    var k :| 0 <= k < |c.order| && c.order[k] == name;
    assert c'.order[k] == name;
    assert List(c').0[k] == Variable(name, color);
  }

  lemma AddedAtEnd(env: Env, log: seq<Exchange>, x: Exchange)
    requires AddsVariable(env, CatalogAfter(env, log), x.request)
    ensures CStr(x.request.variable.name) in CatalogAfter(env, log + [x]).entries
    ensures CatalogAfter(env, log + [x]).entries[CStr(x.request.variable.name)].color == CStr(x.request.variable.color)
  {
    assert (log + [x])[..|log|] == log;
    CatalogGrows(env, log, 0);
  }

  /** So the mirror shows every variable that its client has added before its last refresh. */
  lemma ShownSinceAdded(env: Env, log: seq<Exchange>, i: nat, m: Mirror, p: nat)
    requires AnsweredInOrder(env, log) && p < |log|
    requires log[p].conn == i && AddsVariable(env, CatalogAfter(env, log[..p]), log[p].request)
    requires LastRefresh(log, i).Some? && p < LastRefresh(log, i).value
    ensures var v := log[p].request.variable;
            Variable(CStr(v.name), CStr(v.color)) in ReactAll(m, AllSignals(Responses(Of(log, i)))).vars
  {
    var q := LastRefresh(log, i).value;
    assert log[..q][..p] == log[..p];
    AddedVariableIsListed(env, log[..q], p);
    MirrorFollowsStore(env, log, i, m);
  }
}
