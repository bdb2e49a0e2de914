// DataAccess: the store's answers, shortened to the length that the caller can take.

module DataAccesses {
  import opened Options
  import opened Wire
  import opened DataModel
  import opened Store
  import opened Compression
  import opened CompressionLaws

  /** The result of a fetch; Fault stands for the undefined behaviour of compress. */
  datatype Fetched = Readings(vals: seq<Reading>) | Refused | Faulted

  /** A limit of 0 is std::numeric_limits<size_t>::infinity(), and so means no limit. */
  ghost function Limited(vals: seq<Reading>, maxLen: nat): Fetched {
    if maxLen != 0 && |vals| > maxLen then
      match Compressed(vals, maxLen)
      case Done(out) => Readings(out)
      case InvalidArgument => Readings([])
      case Fault => Faulted
    else Readings(vals)
  }

  ghost function FetchLimited(t: Tables, name: Bytes, range: Range, maxLen: nat): Fetched {
    var (vals, err) := FetchValues(t, name, range);
    if err == Failed then Refused else Limited(vals, maxLen)
  }

  class DataAccess {
    const source: SQLiteWrapper

    constructor (source: SQLiteWrapper)
      ensures this.source == source
    {
      this.source := source;
    }

    method FetchAllVariables() returns (variables: seq<Variable>, err: Err)
      ensures (variables, err) == FetchVariables(source.Contents())
    {
      var calls, failed := source.SelectVariables();
      if failed != Ok {
        return [], Failed;
      }
      variables := [];
      for i := 0 to |calls|
        invariant |variables| == i
        invariant forall k :: 0 <= k < i ==> variables[k] == calls[k].0
      {
        variables := variables + [calls[i].0];
      }
      assert variables == FetchVariables(source.Contents()).0;
      err := Ok;
    }

    method FetchVariableValues(name: Bytes, range: Range, maxLen: nat) returns (r: Fetched)
      ensures r == FetchLimited(source.Contents(), name, range, maxLen)
    {
      var calls, failed := source.SelectValues(name, range);
      if failed != Ok {
        return Refused;
      }
      var values := [];
      for i := 0 to |calls|
        invariant |values| == i
        invariant forall k :: 0 <= k < i ==> values[k] == calls[k].0
      {
        values := values + [calls[i].0];
      }
      assert values == FetchValues(source.Contents(), name, range).0;
      if maxLen != 0 && |values| > maxLen {
        var outcome := Compress(values, maxLen);
        match outcome
        case Done(out) => r := Readings(out);
        case InvalidArgument => r := Readings([]);
        case Fault => r := Faulted;
      } else {
        r := Readings(values);
      }
    }
  }

  // ---------- What a limited fetch gives ----------

  /** Row i of the table is behind the reading `r` of a query. */
  ghost predicate Behind(rows: seq<ValueRow>, id: Option<nat>, range: Range, i: nat, r: Reading) {
    i < |rows| && Matches(rows[i], id, range) && r.timestamp == ToUnsigned(rows[i].timestamp)
  }

  /** Rows in the order of the clock, which never shows a time before the epoch. */
  ghost predicate RowsInTimeOrder(rows: seq<ValueRow>) {
    && (forall i :: 0 <= i < |rows| ==> 0 <= rows[i].timestamp)
    && (forall i, j :: 0 <= i < j < |rows| ==> rows[i].timestamp <= rows[j].timestamp)
  }

  lemma {:induction false} SelectKeepsTimeOrder(rows: seq<ValueRow>, id: Option<nat>, range: Range)
    requires RowsInTimeOrder(rows)
    ensures InTimeOrder(AsReadings(Select(rows, id, range)))
  {
    if rows != [] {
      var init, last := rows[..|rows| - 1], rows[|rows| - 1];
      SelectKeepsTimeOrder(init, id, range);
      var before, all := AsReadings(Select(init, id, range)), AsReadings(Select(rows, id, range));
      forall k | 0 <= k < |before|
        ensures all[k] == before[k] && before[k].timestamp <= ToUnsigned(last.timestamp)
      {
        var i := SelectedRow(init, id, range, k);
        assert init[i] == rows[i];
      }
    }
  }

  lemma QuotientAgainstSquare(n: nat, m: nat)
    requires m > 0
    ensures n % m == 0 ==> (n / m > m <==> n > m * m)
  {
    var q := n / m;
    assert n == m * q + n % m;
    if q > m {
      ProductsGrow(m, m + 1, q);
      assert m * (m + 1) == m * m + m;
    } else {
      ProductsGrow(m, q, m);
    }
  }

  /** The one case in which a limited fetch has no defined result: the number of readings is a
      multiple of the limit and exceeds its square. */
  ghost predicate Overlong(n: nat, maxLen: nat) {
    0 < maxLen < n && maxLen <= VECTOR_MAX && n % maxLen == 0 && n > maxLen * maxLen
  }

  lemma LimitedLength(vals: seq<Reading>, maxLen: nat)
    ensures maxLen == 0 || |vals| <= maxLen ==> Limited(vals, maxLen) == Readings(vals)
    ensures Limited(vals, maxLen) == Faulted <==> Overlong(|vals|, maxLen)
    ensures 0 < maxLen < |vals| && maxLen <= VECTOR_MAX && !Overlong(|vals|, maxLen)
            ==> Limited(vals, maxLen).Readings? && |Limited(vals, maxLen).vals| == maxLen
    ensures 0 < maxLen < |vals| && maxLen > VECTOR_MAX ==> Limited(vals, maxLen) == Readings([])
  {
    if 0 < maxLen < |vals| {
      FaultsExactlyOffSound(vals, maxLen);
      QuotientAgainstSquare(|vals|, maxLen);
      if Compressed(vals, maxLen).Done? {
        TotalIsConserved(vals, maxLen);
      }
    }
  }

  /** A fetch gives every matching reading if they are few enough, and exactly as many averages as
      were asked for otherwise, unless it is overlong. A limit that no vector can reserve gives an
      empty list. */
  lemma LimitedFetchLength(t: Tables, name: Bytes, range: Range, maxLen: nat)
    requires t.created
    ensures var all, r := FetchValues(t, name, range).0, FetchLimited(t, name, range, maxLen);
            && (maxLen == 0 || |all| <= maxLen ==> r == Readings(all))
            && (r == Faulted <==> Overlong(|all|, maxLen))
            && (0 < maxLen < |all| && maxLen <= VECTOR_MAX && !Overlong(|all|, maxLen)
                ==> r.Readings? && |r.vals| == maxLen)
            && (0 < maxLen < |all| && maxLen > VECTOR_MAX ==> r == Readings([]))
  {
    LimitedLength(FetchValues(t, name, range).0, maxLen);
  }

  /** Readings that come without a name leave without one. */
  lemma LimitedNames(vals: seq<Reading>, maxLen: nat)
    requires Limited(vals, maxLen).Readings? && forall k :: 0 <= k < |vals| ==> vals[k].name == []
    ensures forall k :: 0 <= k < |Limited(vals, maxLen).vals| ==> Limited(vals, maxLen).vals[k].name == []
  {
    if maxLen != 0 && |vals| > maxLen && Compressed(vals, maxLen).Done? {
      TotalIsConserved(vals, maxLen);
      forall k: nat | k < maxLen
        ensures Limited(vals, maxLen).vals[k].name == []
      {
        EvenDivides(|vals|, maxLen);
        SummaryAt(vals, Even(|vals|, maxLen), maxLen, k);
      }
    }
  }

  lemma LimitedStamp(vals: seq<Reading>, maxLen: nat, k: nat) returns (i: nat)
    requires Limited(vals, maxLen).Readings? && k < |Limited(vals, maxLen).vals|
    ensures i < |vals| && Limited(vals, maxLen).vals[k].timestamp == vals[i].timestamp
  {
    i := k;
    if maxLen != 0 && |vals| > maxLen {
      TotalIsConserved(vals, maxLen);
      var _, _, mid := OutputStandsForItsChunk(vals, maxLen, k);
      i := mid;
    }
  }

  lemma LimitedOrder(vals: seq<Reading>, maxLen: nat)
    requires Limited(vals, maxLen).Readings? && InTimeOrder(vals)
    ensures InTimeOrder(Limited(vals, maxLen).vals)
  {
    if maxLen != 0 && |vals| > maxLen && Compressed(vals, maxLen).Done? {
      CompressKeepsTimeOrder(vals, maxLen);
    }
  }

  /** Each reading of a fetch carries the timestamp of a stored reading of that variable in that
      range. */
  lemma LimitedFetchStamp(t: Tables, name: Bytes, range: Range, maxLen: nat, k: nat) returns (i: nat)
    requires FetchLimited(t, name, range, maxLen).Readings?
    requires k < |FetchLimited(t, name, range, maxLen).vals|
    ensures Behind(t.values, IdOf(t, name), range, i, FetchLimited(t, name, range, maxLen).vals[k])
  {
    var rows := Select(t.values, IdOf(t, name), range);
    var mid := LimitedStamp(AsReadings(rows), maxLen, k);
    i := SelectedRow(t.values, IdOf(t, name), range, mid);
  }

  /** Timestamps come out in order if the rows were stored in order. */
  lemma LimitedFetchOrder(t: Tables, name: Bytes, range: Range, maxLen: nat)
    requires FetchLimited(t, name, range, maxLen).Readings? && RowsInTimeOrder(t.values)
    ensures InTimeOrder(FetchLimited(t, name, range, maxLen).vals)
  {
    SelectKeepsTimeOrder(t.values, IdOf(t, name), range);
    LimitedOrder(FetchValues(t, name, range).0, maxLen);
  }

  /** A fetch that shortens its readings gives averages: weighted by the sizes of the chunks of the even
      cut, they add up to the sum of all matching readings. */
  lemma LimitedFetchConserves(t: Tables, name: Bytes, range: Range, maxLen: nat)
    requires FetchLimited(t, name, range, maxLen).Readings?
    requires 0 < maxLen < |FetchValues(t, name, range).0| && maxLen <= VECTOR_MAX
    ensures var all, out := FetchValues(t, name, range).0, FetchLimited(t, name, range, maxLen).vals;
            |out| == maxLen && WeightedTotal(out, Even(|all|, maxLen)) == Sum(all)
  {
    TotalIsConserved(FetchValues(t, name, range).0, maxLen);
  }

  /** Its reading k lies between two readings of chunk k, and has the timestamp of the chunk's middle one. */
  lemma LimitedFetchAverages(t: Tables, name: Bytes, range: Range, maxLen: nat, k: nat)
    returns (low: nat, high: nat, mid: nat)
    requires FetchLimited(t, name, range, maxLen).Readings? && k < maxLen
    requires 0 < maxLen < |FetchValues(t, name, range).0| && maxLen <= VECTOR_MAX
    ensures |FetchLimited(t, name, range, maxLen).vals| == maxLen
    ensures var all, x := FetchValues(t, name, range).0, FetchLimited(t, name, range, maxLen).vals[k];
            var s := Even(|all|, maxLen);
            && low < |all| && high < |all| && mid < |all|
            && InChunk(s, k, low) && InChunk(s, k, high) && mid == Bound(s, k) + ChunkSize(s, k) / 2
            && all[low].val <= x.val <= all[high].val && x.timestamp == all[mid].timestamp
  {
    low, high, mid := OutputStandsForItsChunk(FetchValues(t, name, range).0, maxLen, k);
  }

  /** Exactly: the total of chunk k, divided by its size. */
  lemma LimitedIsAverage(vals: seq<Reading>, maxLen: nat, k: nat)
    requires Limited(vals, maxLen).Readings? && k < maxLen < |vals| && maxLen <= VECTOR_MAX
    ensures var s := Even(|vals|, maxLen);
            && Bound(s, k) < Bound(s, k + 1) <= |vals| && |Limited(vals, maxLen).vals| == maxLen
            && var chunk := vals[Bound(s, k)..Bound(s, k + 1)];
               Limited(vals, maxLen).vals[k] == Reading([], Sum(chunk) / |chunk| as real, chunk[|chunk| / 2].timestamp)
  {
    var s := Even(|vals|, maxLen);
    EvenDivides(|vals|, maxLen);
    SummaryAt(vals, s, maxLen, k);
    TotalIsConserved(vals, maxLen);
    AverageIsQuotient(Sum(Chunk(vals, s, k)), ChunkSize(s, k));
  }
}
