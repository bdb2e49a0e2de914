// What holds in every run of the server: any number of sessions, any bytes, any failures.

module Invariants {
  import opened Options
  import opened Wire
  import Messages
  import opened Protocol
  import opened Store
  import opened Catalogs
  import DataAccesses
  import opened Sessions

  // ---------- One operation per session ----------

  ghost predicate SingleOperation(w: World) {
    forall i :: 0 <= i < |w.conns| ==> |w.conns[i].pending| <= 1
  }

  /** The order of operations: meta header, header, body if the type has one, answer, and again. */
  predicate Follows(op: Op, next: Op) {
    match op
    case ReadMeta => next.ReadHeader?
    case ReadHeader(_) => next.ReadBody? || next.Write?
    case ReadBody(_, _) => next.Write?
    case Write(_) => next.ReadMeta?
  }

  /** After a success the operation that follows is under way, unless the process has crashed. */
  lemma SuccessStartsOne(env: Env, t: Tables, c: Conn, j: nat, o: Oracle)
    requires |c.pending| == 1 && j == 0 && Need(env, c.pending[0]) <= |c.inbox|
    ensures var e := Complete(env, t, c, j, o);
            if e.crashed then e.conn.pending == [] && c.pending[0].ReadBody?
            else |e.conn.pending| == 1 && Follows(c.pending[0], e.conn.pending[0])
  {
    assert c.pending[..0] + c.pending[1..] == [];
  }

  /** The write of a status that reports a failure and names no request. */
  ghost predicate ReportsFailure(env: Env, op: Op) {
    exists f: Messages.Failure ::
      f.status == Messages.FAILED && f.prevMsg == None && op == Write(env.codec.ResponseFrame(StatusReply(f)))
  }

  /** After a failure a failure report is being written, unless a body was being read. */
  lemma FailureStartsOne(env: Env, c: Conn, j: nat, k: nat)
    requires |c.pending| == 1 && j == 0
    ensures var after := Break(env, c, j, k).pending;
            if c.pending[0].ReadBody? then after == [] else |after| == 1 && ReportsFailure(env, after[0])
  {
    assert c.pending[..0] + c.pending[1..] == [];
  }

  /** A failed operation has taken or written the first of its bytes, at most as many as it reports, and
      nothing else changes; what its failure report says. */
  lemma FailedOperation(env: Env, c: Conn, j: nat, k: nat) returns (taken: Bytes)
    requires |c.pending| == 1 && j == 0
    ensures var c', op := Break(env, c, j, k), c.pending[0];
            && c'.sent == c.sent && c'.wire == c.wire && c.inbox == taken + c'.inbox
            && |taken| <= k && |taken| <= Need(env, op)
            && (!op.Write? ==> c'.written == c.written)
            && (op.Write? ==> taken == [] && c'.written == c.written + op.frame[..Min(k, |op.frame|)])
            && (!op.ReadBody? ==>
                  var text := if op.ReadMeta? then "reading mh_buff"
                              else if op.ReadHeader? then "reading h_buff" else "writing response";
                  c'.pending == [Write(env.codec.ResponseFrame(StatusReply(
                                   Messages.Failure(Messages.FAILED, Some(Text(text)), None))))])
  {
    assert c.pending[..0] + c.pending[1..] == [];
    var op := c.pending[0];
    taken := c.inbox[..Min(k, Min(Need(env, op), |c.inbox|))];
  }

  /** A type that is not a request is refused. */
  lemma UnknownTypeIsRefused(env: Env, c: Conn, h: Messages.Header)
    requires !IsRequestType(h.msgType)
    ensures BodyOf(env, c, h)
         == c.(pending := c.pending + [Write(env.codec.ResponseFrame(StatusReply(
                                         Messages.Failure(Messages.FAILED, Some(Text("unknow error")), None))))])
  {
  }

  /** One action leaves a session without any operation exactly when it had none before, or when it
      is the failure of its body read. */
  lemma ActKeepsSingleOperation(env: Env, t: Tables, c: Conn, a: Action)
    requires |c.pending| <= 1 && !a.Accept?
    ensures |Act(env, t, c, a).conn.pending| <= 1
    ensures !Act(env, t, c, a).crashed ==>
              (Act(env, t, c, a).conn.pending == [] <==> c.pending == [] || FailsBodyRead(c, a))
  {
    if c.pending != [] {
      match a
      case Succeed(_, j, o) =>
        if Arrived(env, c, j) {
          SuccessStartsOne(env, t, c, j, o);
        }
      case Fail(_, j, k) =>
        if j < |c.pending| {
          FailureStartsOne(env, c, j, k);
        }
      case _ =>
    }
  }

  ghost predicate FailsBodyRead(c: Conn, a: Action) {
    a.Fail? && a.op < |c.pending| && c.pending[a.op].ReadBody?
  }

  lemma StepKeepsSingleOperation(env: Env, w: World, a: Action)
    requires SingleOperation(w)
    ensures SingleOperation(Next(env, w, a))
  {
    if !w.crashed && !a.Accept? && a.conn < |w.conns| {
      ActKeepsSingleOperation(env, w.tables, w.conns[a.conn], a);
    }
  }

  /** A session never has two operations under way, say a read together with a write. */
  lemma {:induction false} AtMostOneOperation(env: Env, run: seq<Action>)
    ensures SingleOperation(Run(env, run))
  {
    if run != [] {
      AtMostOneOperation(env, run[..|run| - 1]);
      StepKeepsSingleOperation(env, Run(env, run[..|run| - 1]), run[|run| - 1]);
    }
  }

  /** In every run: an action leaves a session's operation as it is, or it is followed by the next one of
      the protocol after a success, and by the write of a failure report after a failure. Only the
      failure of a body read is followed by nothing. */
  lemma EachStepStartsOne(env: Env, run: seq<Action>, a: Action, i: nat)
    requires !Next(env, Run(env, run), a).crashed && i < |Run(env, run).conns|
    requires Run(env, run).conns[i].pending != []
    ensures var w := Run(env, run);
            var op, next := w.conns[i].pending[0], Next(env, w, a).conns[i].pending;
            || next == [op]
            || (a.Succeed? && a.conn == i && |next| == 1 && Follows(op, next[0]))
            || (a.Fail? && a.conn == i && !op.ReadBody? && |next| == 1 && ReportsFailure(env, next[0]))
            || (a.Fail? && a.conn == i && op.ReadBody? && next == [])
  {
    AtMostOneOperation(env, run);
    var w := Run(env, run);
    if !w.crashed && !a.Accept? && a.conn == i {
      ActStartsOne(env, w.tables, w.conns[i], a);
    }
  }

  lemma ActStartsOne(env: Env, t: Tables, c: Conn, a: Action)
    requires |c.pending| == 1 && !a.Accept? && !Act(env, t, c, a).crashed
    ensures var op, next := c.pending[0], Act(env, t, c, a).conn.pending;
            || next == [op]
            || (a.Succeed? && |next| == 1 && Follows(op, next[0]))
            || (a.Fail? && !op.ReadBody? && |next| == 1 && ReportsFailure(env, next[0]))
            || (a.Fail? && op.ReadBody? && next == [])
  {
    match a
    case Succeed(_, j, o) =>
      if Arrived(env, c, j) {
        SuccessStartsOne(env, t, c, j, o);
      }
    case Fail(_, j, k) =>
      if j < |c.pending| {
        FailureStartsOne(env, c, j, k);
      }
    case _ =>
  }

  ghost predicate StopsSession(w: World, a: Action, i: nat) {
    !w.crashed && i < |w.conns| && a.Fail? && a.conn == i && FailsBodyRead(w.conns[i], a)
  }

  lemma StepStops(env: Env, w: World, a: Action, i: nat)
    requires SingleOperation(w) && i < |Next(env, w, a).conns| && !Next(env, w, a).crashed
    ensures Next(env, w, a).conns[i].pending == []
       <==> (i < |w.conns| && w.conns[i].pending == []) || StopsSession(w, a, i)
  {
    if !a.Accept? && a.conn < |w.conns| {
      ActKeepsSingleOperation(env, w.tables, w.conns[a.conn], a);
    }
  }

  /** Some action of the run is the failure of a body read of session i. */
  ghost predicate BodyReadHasFailed(env: Env, run: seq<Action>, i: nat) {
    run != [] &&
    var init := run[..|run| - 1];
    BodyReadHasFailed(env, init, i) || StopsSession(Run(env, init), run[|run| - 1], i)
  }

  lemma NextKeepsConns(env: Env, w: World, a: Action)
    ensures |w.conns| <= |Next(env, w, a).conns|
  {
  }

  lemma {:induction false} StrangersDoNotFail(env: Env, run: seq<Action>, i: nat)
    requires i >= |Run(env, run).conns|
    ensures !BodyReadHasFailed(env, run, i)
  {
    if run != [] {
      NextKeepsConns(env, Run(env, run[..|run| - 1]), run[|run| - 1]);
      StrangersDoNotFail(env, run[..|run| - 1], i);
    }
  }

  /** A session is left without any operation exactly when one of its body reads has failed: failed
      reads of a header, and failed writes, always lead to another write. */
  lemma {:induction false} StopsExactlyOnFailedBodyRead(env: Env, run: seq<Action>, i: nat)
    requires i < |Run(env, run).conns| && !Run(env, run).crashed
    ensures Run(env, run).conns[i].pending == [] <==> BodyReadHasFailed(env, run, i)
  {
    if run != [] {
      var init := run[..|run| - 1];
      var w := Run(env, init);
      AtMostOneOperation(env, init);
      StepStops(env, w, run[|run| - 1], i);
      if i < |w.conns| {
        StopsExactlyOnFailedBodyRead(env, init, i);
      } else {
        StrangersDoNotFail(env, init, i);
      }
    }
  }

  // ---------- The store ----------

  /** The store is sound, has its schema, and still starts with the rows of a new one. */
  ghost predicate StoreInOrder(t: Tables) {
    Valid(t) && t.created && Extends(InitialTables(), t)
  }

  lemma InitialStoreInOrder()
    ensures StoreInOrder(InitialTables())
  {
    ExecuteKeepsValid(NO_TABLES, Create);
    ExecuteKeepsValid(CreateScheme(NO_TABLES).0, InsertVariable(Text("temp"), Text("color")));
  }

  lemma ServeKeepsStore(env: Env, t: Tables, r: Request, now: I64)
    requires StoreInOrder(t)
    ensures StoreInOrder(Serve(env, t, r, now).0) && Extends(t, Serve(env, t, r, now).0)
  {
    match r
    case AddVar(v) => AddVariableKeepsValid(t, v.name, v.color);
    case SaveVal(v) => AddValueKeepsValid(t, v.variable, env.fp.stored(v.value), now);
    case _ =>
  }

  /** The handler of a body that has arrived runs in this action. */
  ghost predicate Serves(env: Env, c: Conn, a: Action) {
    a.Succeed? && Arrived(env, c, a.op) && c.pending[a.op].ReadBody?
  }

  ghost function RequestServed(env: Env, c: Conn, a: Action): Request
    requires Serves(env, c, a)
  {
    RequestIn(env, c.pending[a.op].kind, c.inbox[..c.pending[a.op].size], a.oracle)
  }

  /** Only the handler of a body touches the store, and only it can crash. */
  lemma OnlyServingTouchesStore(env: Env, t: Tables, c: Conn, a: Action)
    requires !a.Accept?
    ensures !Serves(env, c, a) ==> Act(env, t, c, a).tables == t && !Act(env, t, c, a).crashed
    ensures Serves(env, c, a) ==>
              && Act(env, t, c, a).tables == Serve(env, t, RequestServed(env, c, a), a.oracle.now).0
              && (Act(env, t, c, a).crashed <==> Serve(env, t, RequestServed(env, c, a), a.oracle.now).1 == Crash)
  {
  }

  lemma {:induction false} StoreAlwaysInOrder(env: Env, run: seq<Action>)
    ensures StoreInOrder(Run(env, run).tables)
  {
    if run == [] {
      InitialStoreInOrder();
    } else {
      var w, a := Run(env, run[..|run| - 1]), run[|run| - 1];
      StoreAlwaysInOrder(env, run[..|run| - 1]);
      if !w.crashed && !a.Accept? && a.conn < |w.conns| {
        var c := w.conns[a.conn];
        OnlyServingTouchesStore(env, w.tables, c, a);
        if Serves(env, c, a) {
          ServeKeepsStore(env, w.tables, RequestServed(env, c, a), a.oracle.now);
        }
      }
    }
  }

  // ---------- The only way to crash ----------

  lemma OverlongFor120(n: nat)
    ensures DataAccesses.Overlong(n, MAX_VALUES) <==> n % 120 == 0 && n >= 14520
  {
    assert n == 120 * (n / 120) + n % 120;
  }

  /** Serving a request crashes exactly when it asks for a number of readings that is a multiple of
      120 and at least 14520. */
  lemma CrashesExactly(env: Env, t: Tables, r: Request, now: I64)
    requires t.created
    ensures Serve(env, t, r, now).1 == Crash
       <==> r.GetVals? && var n := |FetchValues(t, r.query.variable, RangeOf(r.query)).0|; n % 120 == 0 && n >= 14520
  {
    if r.GetVals? {
      DataAccesses.LimitedFetchLength(t, r.query.variable, RangeOf(r.query), MAX_VALUES);
      OverlongFor120(|FetchValues(t, r.query.variable, RangeOf(r.query)).0|);
    }
  }

  lemma {:induction false} SelectedAreFew(rows: seq<ValueRow>, id: Option<nat>, range: Range)
    ensures |Select(rows, id, range)| <= |rows|
  {
    if rows != [] {
      SelectedAreFew(rows[..|rows| - 1], id, range);
    }
  }

  /** No run crashes the server before 14520 readings are stored, whatever bytes arrive. */
  lemma {:induction false} NoCrashBefore14520Readings(env: Env, run: seq<Action>)
    ensures Run(env, run).crashed ==> |Run(env, run).tables.values| >= 14520
  {
    if run != [] {
      var w, a := Run(env, run[..|run| - 1]), run[|run| - 1];
      NoCrashBefore14520Readings(env, run[..|run| - 1]);
      StoreAlwaysInOrder(env, run[..|run| - 1]);
      if !w.crashed && !a.Accept? && a.conn < |w.conns| {
        var c := w.conns[a.conn];
        OnlyServingTouchesStore(env, w.tables, c, a);
        if Serves(env, c, a) {
          var r := RequestServed(env, c, a);
          CrashesExactly(env, w.tables, r, a.oracle.now);
          if r.GetVals? {
            SelectedAreFew(w.tables.values, IdOf(w.tables, r.query.variable), RangeOf(r.query));
          }
        }
      }
    }
  }

  // ---------- Time ----------

  /** The clock of the run never goes back, and shows no time before the epoch. */
  ghost predicate ClockRuns(run: seq<Action>) {
    && (forall i :: 0 <= i < |run| && run[i].Succeed? ==> 0 <= run[i].oracle.now)
    && (forall i, j :: 0 <= i < j < |run| && run[i].Succeed? && run[j].Succeed?
                       ==> run[i].oracle.now <= run[j].oracle.now)
  }

  ghost predicate StampedBy(run: seq<Action>, timestamp: I64) {
    exists k :: 0 <= k < |run| && run[k].Succeed? && run[k].oracle.now == timestamp
  }

  ghost predicate RowsFollowClock(run: seq<Action>, rows: seq<ValueRow>) {
    DataAccesses.RowsInTimeOrder(rows) && forall i :: 0 <= i < |rows| ==> StampedBy(run, rows[i].timestamp)
  }

  lemma ServeAppendsRow(env: Env, t: Tables, r: Request, now: I64)
    ensures var rows := Serve(env, t, r, now).0.values;
            rows == t.values || (|rows| == |t.values| + 1 && t.values <= rows && rows[|t.values|].timestamp == now)
  {
  }

  lemma AnotherRow(run: seq<Action>, a: Action, rows: seq<ValueRow>, rows': seq<ValueRow>)
    requires ClockRuns(run + [a]) && RowsFollowClock(run, rows)
    requires rows' == rows || (a.Succeed? && |rows'| == |rows| + 1 && rows <= rows'
                               && rows'[|rows|].timestamp == a.oracle.now)
    ensures RowsFollowClock(run + [a], rows')
  {
    var all := run + [a];
    forall i | 0 <= i < |rows'|
      ensures StampedBy(all, rows'[i].timestamp) && 0 <= rows'[i].timestamp
      ensures a.Succeed? && |rows'| == |rows| + 1 ==> rows'[i].timestamp <= a.oracle.now
    {
      if i < |rows| {
        assert rows'[i] == rows[i] && StampedBy(run, rows[i].timestamp);
        var k :| 0 <= k < |run| && run[k].Succeed? && run[k].oracle.now == rows[i].timestamp;
        assert all[k] == run[k] && all[|run|] == a;
      } else {
        assert all[|run|] == a;
      }
    }
  }

  lemma {:induction false} RowsAlwaysFollowClock(env: Env, run: seq<Action>)
    requires ClockRuns(run)
    ensures RowsFollowClock(run, Run(env, run).tables.values)
  {
    if run == [] {
      assert Run(env, run).tables.values == [];
    } else {
      var init, a := run[..|run| - 1], run[|run| - 1];
      var w := Run(env, init);
      assert run == init + [a];
      RowsAlwaysFollowClock(env, init);
      if !w.crashed && !a.Accept? && a.conn < |w.conns| {
        var c := w.conns[a.conn];
        OnlyServingTouchesStore(env, w.tables, c, a);
        if Serves(env, c, a) {
          ServeAppendsRow(env, w.tables, RequestServed(env, c, a), a.oracle.now);
        }
      }
      AnotherRow(init, a, w.tables.values, Run(env, run).tables.values);
    }
  }
}
