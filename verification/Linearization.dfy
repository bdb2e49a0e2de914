// In every run the server answers as an ordered map would that serves one request at a time.

module Linearization {
  import opened Options
  import opened Wire
  import opened Messages
  import opened Protocol
  import opened Times
  import opened Store
  import opened Catalogs
  import opened DataModel
  import opened Compression
  import opened DataAccesses
  import opened Sessions
  import opened Invariants

  // ---------- What a request should do ----------

  /** The effect and the answer of a request on an ordered map. */
  ghost function Promise(env: Env, c: Catalog, r: Request, now: I64): (Catalog, Served)
    requires WellFormed(c)
  {
    match r
    case AddVar(v) =>
      var (c', err) := Add(c, v.name, v.color);
      (c', Answered(AddReply(err)))
    case SaveVal(v) =>
      var (c', err) := Record(c, v.variable, env.fp.stored(v.value), now);
      (c', Answered(SaveReply(err)))
    case GetVals(q) =>
      var (vals, err) := Lookup(c, q.variable, RangeOf(q));
      (c, FetchReply(env.fp, if err == Failed then Refused else Limited(vals, MAX_VALUES)))
    case GetVars =>
      var (variables, err) := List(c);
      (c, Answered(VariablesReplyOf(variables, err)))
  }

  /** A change is answered by a status that says OK exactly when the map has changed, and that names
      its request exactly when a variable was added; a query changes nothing. */
  lemma AnswersTellTheOutcome(env: Env, c: Catalog, r: Request, now: I64)
    requires WellFormed(c) && c.created
    ensures var (c', served) := Promise(env, c, r, now);
            && (r.AddVar? || r.SaveVal? ==>
                  && served.Answered? && served.response.StatusReply?
                  && (served.response.failure.status == OK <==> c' != c)
                  && (served.response.failure.prevMsg == Some(REQUEST_ADD_VAR) <==> c'.order != c.order)
                  && (served.response.failure.prevMsg.Some? ==> r.AddVar?))
            && (r.GetVals? || r.GetVars? ==> c' == c && (served.Answered? ==> !served.response.StatusReply?))
  {
    var (c', _) := Promise(env, c, r, now);
    if r.AddVar? && c' != c {
      assert |c'.order| > |c.order|;
    }
    if r.SaveVal? && CStr(r.value.variable) in c.entries {
      var name := CStr(r.value.variable);
      assert |c'.entries[name].readings| > |c.entries[name].readings|;
    }
  }

  /** A values reply never has more than 120 readings, has them all if there are no more, and does
      not say which variable they belong to. */
  lemma ValuesReplyIsShort(env: Env, c: Catalog, r: Request, now: I64)
    requires WellFormed(c) && c.created && r.GetVals? && Promise(env, c, r, now).1.Answered?
    ensures var all, reply := Lookup(c, r.query.variable, RangeOf(r.query)).0, Promise(env, c, r, now).1.response;
            && reply.ValuesReply?
            && |reply.values| == (if |all| <= MAX_VALUES then |all| else MAX_VALUES) <= 120
            && (forall k :: 0 <= k < |reply.values| ==> reply.values[k].name == [])
  {
    var all := Lookup(c, r.query.variable, RangeOf(r.query)).0;
    LimitedLength(all, MAX_VALUES);
    LimitedNames(all, MAX_VALUES);
  }

  /** What a values reply shows: with up to 120 readings each of them, with its value and timestamp; of
      more, in place k the average of chunk k of the even cut into 120, with its middle timestamp. */
  lemma ValuesReplyShows(env: Env, c: Catalog, r: Request, now: I64, k: nat)
    requires WellFormed(c) && c.created && r.GetVals? && Promise(env, c, r, now).1.Answered?
    requires Promise(env, c, r, now).1.response.ValuesReply?
    requires k < |Promise(env, c, r, now).1.response.values|
    ensures var all, x := Lookup(c, r.query.variable, RangeOf(r.query)).0, Promise(env, c, r, now).1.response.values[k];
            && (|all| <= 120 ==> k < |all| && x == VarValue([], env.fp.sent(all[k].val), all[k].timestamp))
            && (|all| > 120 ==>
                  var s := Even(|all|, 120);
                  && Bound(s, k) < Bound(s, k + 1) <= |all|
                  && var chunk := all[Bound(s, k)..Bound(s, k + 1)];
                     x == VarValue([], env.fp.sent(Sum(chunk) / |chunk| as real), chunk[|chunk| / 2].timestamp))
  {
    var all := Lookup(c, r.query.variable, RangeOf(r.query)).0;
    LimitedLength(all, MAX_VALUES);
    LimitedNames(all, MAX_VALUES);
    if |all| > 120 {
      LimitedIsAverage(all, MAX_VALUES, k);
    }
  }

  /** The statuses in full: an addition is refused when its name is taken, a value when its name is not
      known, and both with the same text. Without a schema everything is refused. */
  lemma StatusesInFull(env: Env, c: Catalog, r: Request, now: I64)
    requires WellFormed(c)
    ensures r.AddVar? ==>
              Promise(env, c, r, now).1 == Answered(StatusReply(
                if c.created && CStr(r.variable.name) !in c.entries
                then Failure(OK, Some(Text("Ok")), Some(REQUEST_ADD_VAR))
                else Failure(FAILED, Some(Text("Failed to save value")), None)))
    ensures r.SaveVal? ==>
              Promise(env, c, r, now).1 == Answered(StatusReply(
                if c.created && CStr(r.value.variable) in c.entries
                then Failure(OK, Some(Text("Ok")), None)
                else Failure(FAILED, Some(Text("Failed to save value")), None)))
    ensures r.GetVals? && !c.created ==>
              Promise(env, c, r, now).1
              == Answered(StatusReply(Failure(FAILED, Some(Text("Failed to get values")), None)))
    ensures r.GetVars? && !c.created ==>
              Promise(env, c, r, now).1
              == Answered(StatusReply(Failure(FAILED, Some(Text("Failed to get variables")), None)))
  {
  }

  /** The readings of a name grow by one that is saved. */
  lemma LookupAfterSave(env: Env, c: Catalog, v: SaveValue, now: I64)
    requires WellFormed(c) && c.created && CStr(v.variable) in c.entries
    ensures Lookup(Promise(env, c, SaveVal(v), now).0, v.variable, Always).0
         == Lookup(c, v.variable, Always).0
            + [Reading([], env.fp.stored(v.value), if now < 0 then now + TWO_TO_64 else now)]
  {
    var x, rows := Stored(env.fp.stored(v.value), now), c.entries[CStr(v.variable)].readings;
    WithinConcat(rows, [x], Always);
    WithinOne(x, Always);
    ReadMore(Within(rows, Always), x);
  }

  /** From request to request: a value that is saved is the last one of the next values reply, with the
      time at which it was saved, behind the values of the reply before, as long as there are not more
      than 120. */
  lemma SavedValueIsReplied(env: Env, c: Catalog, v: SaveValue, now: I64, later: I64)
    requires WellFormed(c) && c.created && CStr(v.variable) in c.entries
    requires |Lookup(c, v.variable, Always).0| < 120
    ensures var c', get := Promise(env, c, SaveVal(v), now).0, GetVals(GetValues(v.variable, None, None));
            && WellFormed(c')
            && var before, after := Promise(env, c, get, later).1, Promise(env, c', get, later).1;
               && before.Answered? && before.response.ValuesReply?
               && after == Answered(ValuesReply(
                    before.response.values
                    + [VarValue([], env.fp.sent(env.fp.stored(v.value)), if now < 0 then now + TWO_TO_64 else now)]))
  {
    PromiseKeepsWellFormed(env, c, SaveVal(v), now);
    LookupAfterSave(env, c, v, now);
    var c' := Promise(env, c, SaveVal(v), now).0;
    var all, all' := Lookup(c, v.variable, Always).0, Lookup(c', v.variable, Always).0;
    RepliesAll(env, c, v.variable, later, all);
    RepliesAll(env, c', v.variable, later, all');
    MessageOfMore(env.fp, all, Reading([], env.fp.stored(v.value), if now < 0 then now + TWO_TO_64 else now));
  }

  lemma RepliesAll(env: Env, c: Catalog, name: Bytes, now: I64, all: seq<Reading>)
    requires WellFormed(c) && c.created && all == Lookup(c, name, Always).0 && |all| <= 120
    ensures Promise(env, c, GetVals(GetValues(name, None, None)), now).1
         == Answered(ValuesReply(ValuesMessage(env.fp, all)))
  {
  }

  lemma MessageOfMore(fp: Doubles, vals: seq<Reading>, x: Reading)
    ensures ValuesMessage(fp, vals + [x])
         == ValuesMessage(fp, vals) + [VarValue(x.name, fp.sent(x.val), x.timestamp)]
  {
  }

  /** A request asks for a range only with both bounds, and gets the milliseconds that it names. */
  lemma RequestedRange(q: GetValues, timestamp: I64)
    requires q.start.Some? ==> -FARTHEST_MILLI <= q.start.value <= FARTHEST_MILLI
    requires q.end.Some? ==> -FARTHEST_MILLI <= q.end.value <= FARTHEST_MILLI
    ensures InRange(RangeOf(q), timestamp)
       <==> q.start.None? || q.end.None? || q.start.value <= timestamp <= q.end.value
  {
    if q.start.Some? && q.end.Some? {
      MillisSurvive(q.start.value);
      MillisSurvive(q.end.value);
    }
  }

  lemma PromiseKeepsWellFormed(env: Env, c: Catalog, r: Request, now: I64)
    requires WellFormed(c)
    ensures WellFormed(Promise(env, c, r, now).0)
  {
    match r
    case AddVar(v) => SpecifyKeepsWellFormed(c, InsertVariable(v.name, v.color));
    case SaveVal(v) => SpecifyKeepsWellFormed(c, InsertValue(v.variable, env.fp.stored(v.value), now));
    case _ =>
  }

  /** What the handlers do with two tables is what they should do with the map. */
  lemma ServeRefines(env: Env, t: Tables, r: Request, now: I64)
    requires Valid(t)
    ensures WellFormed(Abstract(t))
    ensures Abstract(Serve(env, t, r, now).0) == Promise(env, Abstract(t), r, now).0
    ensures Serve(env, t, r, now).1 == Promise(env, Abstract(t), r, now).1
  {
    AbstractIsWellFormed(t);
    match r
    case AddVar(v) => AddVariableRefines(t, v.name, v.color);
    case SaveVal(v) => AddValueRefines(t, v.variable, env.fp.stored(v.value), now);
    case GetVals(q) => FetchValuesRefines(t, q.variable, RangeOf(q));
    case GetVars => FetchVariablesRefines(t);
  }

  // ---------- A global order of requests ----------

  datatype Exchange = Exchange(conn: nat, request: Request, now: I64, response: Response)

  ghost function InitialCatalog(): Catalog {
    Abstract(InitialTables())
  }

  /** The map after the requests of the log, one after the other. */
  ghost function CatalogAfter(env: Env, log: seq<Exchange>): (c: Catalog)
    ensures WellFormed(c)
  {
    if log == [] then
      InitialStoreInOrder();
      AbstractIsWellFormed(InitialTables());
      InitialCatalog()
    else
      var before, last := CatalogAfter(env, log[..|log| - 1]), log[|log| - 1];
      PromiseKeepsWellFormed(env, before, last.request, last.now);
      Promise(env, before, last.request, last.now).0
  }

  /** Response k is the answer of the map after the k exchanges before it. */
  ghost predicate AnsweredAt(env: Env, log: seq<Exchange>, k: nat)
    requires k < |log|
  {
    Promise(env, CatalogAfter(env, log[..k]), log[k].request, log[k].now).1 == Answered(log[k].response)
  }

  /** Every response in the log is the answer of the map at its point in the order. */
  ghost predicate AnsweredInOrder(env: Env, log: seq<Exchange>) {
    forall k: nat :: k < |log| ==> AnsweredAt(env, log, k)
  }

  /** The exchanges of one session. */
  function Of(log: seq<Exchange>, i: nat): seq<Exchange> {
    if log == [] then []
    else
      var last := log[|log| - 1];
      Of(log[..|log| - 1], i) + if last.conn == i then [last] else []
  }

  function Requests(log: seq<Exchange>): (rs: seq<Request>)
    ensures |rs| == |log|
    ensures forall k :: 0 <= k < |log| ==> rs[k] == log[k].request
  {
    seq(|log|, k requires 0 <= k < |log| => log[k].request)
  }

  function Responses(log: seq<Exchange>): (rs: seq<Response>)
    ensures |rs| == |log|
    ensures forall k :: 0 <= k < |log| ==> rs[k] == log[k].response
  {
    seq(|log|, k requires 0 <= k < |log| => log[k].response)
  }

  lemma OfAppend(log: seq<Exchange>, x: Exchange, i: nat)
    ensures Of(log + [x], i) == if x.conn == i then Of(log, i) + [x] else Of(log, i)
  {
    assert (log + [x])[..|log|] == log;
  }

  // ---------- Runs ----------

  /** The handler of a body that has arrived runs in this step. */
  ghost predicate ServesBody(env: Env, w: World, a: Action) {
    !w.crashed && !a.Accept? && a.conn < |w.conns| && Serves(env, w.conns[a.conn], a)
  }

  /** What a step adds to the log: a request that is answered. */
  ghost function Exchanged(env: Env, w: World, a: Action): seq<Exchange> {
    if ServesBody(env, w, a) then AnswerTo(env, w, a, RequestServed(env, w.conns[a.conn], a)) else []
  }

  ghost function AnswerTo(env: Env, w: World, a: Action, r: Request): seq<Exchange>
    requires a.Succeed?
  {
    match Serve(env, w.tables, r, a.oracle.now).1
    case Answered(response) => [Exchange(a.conn, r, a.oracle.now, response)]
    case Crash => []
  }

  /** The requests that the server has answered in a run, in the order in which it handled them. */
  ghost function LogOf(env: Env, run: seq<Action>): seq<Exchange> {
    if run == [] then []
    else LogOf(env, run[..|run| - 1]) + Exchanged(env, Run(env, run[..|run| - 1]), run[|run| - 1])
  }

  /** The map that serves the log's requests in order ends as the tables and gives all its answers. */
  ghost predicate Accounts(env: Env, log: seq<Exchange>, t: Tables) {
    Abstract(t) == CatalogAfter(env, log) && AnsweredInOrder(env, log)
  }

  lemma AnsweredAppend(env: Env, log: seq<Exchange>, x: Exchange)
    requires AnsweredInOrder(env, log)
    requires Promise(env, CatalogAfter(env, log), x.request, x.now).1 == Answered(x.response)
    ensures AnsweredInOrder(env, log + [x])
    ensures CatalogAfter(env, log + [x]) == Promise(env, CatalogAfter(env, log), x.request, x.now).0
  {
    var all := log + [x];
    forall k: nat | k < |all|
      ensures AnsweredAt(env, all, k)
    {
      assert all[..k] == log[..k];
      if k == |log| {
        assert log[..k] == log;
      } else {
        assert AnsweredAt(env, log, k);
      }
    }
    assert all[..|log|] == log;
  }

  lemma ServeAccounted(env: Env, log: seq<Exchange>, t: Tables, x: Exchange)
    requires Valid(t) && Accounts(env, log, t) && Serve(env, t, x.request, x.now).1 == Answered(x.response)
    ensures Accounts(env, log + [x], Serve(env, t, x.request, x.now).0)
  {
    ServeRefines(env, t, x.request, x.now);
    AnsweredAppend(env, log, x);
  }

  lemma StepAccounted(env: Env, log: seq<Exchange>, w: World, a: Action, next: World)
    requires StoreInOrder(w.tables) && Accounts(env, log, w.tables) && next == Next(env, w, a)
    ensures Accounts(env, log + Exchanged(env, w, a), next.tables)
  {
    var more := Exchanged(env, w, a);
    TablesServed(env, w, a, next);
    if more == [] {
      assert log + more == log;
    } else {
      ServeAccounted(env, log, w.tables, more[0]);
    }
  }

  /** The tables change as by serving the request that the step adds to the log, if any. */
  lemma TablesServed(env: Env, w: World, a: Action, next: World)
    requires next == Next(env, w, a)
    ensures var more := Exchanged(env, w, a);
            if more == [] then next.tables == w.tables
            else
              && more == [more[0]]
              && next.tables == Serve(env, w.tables, more[0].request, more[0].now).0
              && Serve(env, w.tables, more[0].request, more[0].now).1 == Answered(more[0].response)
  {
    if !w.crashed && !a.Accept? && a.conn < |w.conns| {
      OnlyServingTouchesStore(env, w.tables, w.conns[a.conn], a);
    }
  }

  /** In every run, with any bytes, any failures and also up to a crash: the log gives one global order
      of the answered requests in which an ordered map, serving one request at a time, ends as the
      store and gives every answer. */
  lemma {:induction false} EveryRunIsLinearized(env: Env, run: seq<Action>)
    ensures Accounts(env, LogOf(env, run), Run(env, run).tables)
  {
    if run == [] {
      assert LogOf(env, run) == [];
    } else {
      var init := run[..|run| - 1];
      EveryRunIsLinearized(env, init);
      StoreAlwaysInOrder(env, init);
      StepAccounted(env, LogOf(env, init), Run(env, init), run[|run| - 1], Run(env, run));
    }
  }

  // ---------- Time ----------

  ghost predicate StampsInOrder(vs: seq<VarValue>) {
    forall i, j :: 0 <= i < j < |vs| ==> vs[i].timestamp <= vs[j].timestamp
  }

  lemma ServedInTimeOrder(env: Env, t: Tables, r: Request, now: I64)
    requires RowsInTimeOrder(t.values) && Serve(env, t, r, now).1.Answered?
    ensures var response := Serve(env, t, r, now).1.response;
            response.ValuesReply? ==> StampsInOrder(response.values)
  {
    if r.GetVals? && FetchLimited(t, r.query.variable, RangeOf(r.query), MAX_VALUES).Readings? {
      LimitedFetchOrder(t, r.query.variable, RangeOf(r.query), MAX_VALUES);
    }
  }

  /** As long as the clock does not go back, every values reply, of averages or not, is in time order. */
  lemma {:induction false} AnswersAreInTimeOrder(env: Env, run: seq<Action>, k: nat)
    requires ClockRuns(run) && k < |LogOf(env, run)| && LogOf(env, run)[k].response.ValuesReply?
    ensures StampsInOrder(LogOf(env, run)[k].response.values)
  {
    var init, a := run[..|run| - 1], run[|run| - 1];
    if k < |LogOf(env, init)| {
      AnswersAreInTimeOrder(env, init, k);
    } else {
      var w := Run(env, init);
      RowsAlwaysFollowClock(env, init);
      ServedInTimeOrder(env, w.tables, RequestServed(env, w.conns[a.conn], a), a.oracle.now);
    }
  }
}
