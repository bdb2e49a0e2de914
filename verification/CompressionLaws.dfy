// What compress promises about its averages, for every input and every length.

module CompressionLaws {
  import opened DataModel
  import opened Compression

  // ---------- The safe lengths ----------

  /** An element that a pass reads: one it sums, or the middle of a chunk. */
  ghost predicate PassReads(size: nat, offset: nat, amount: nat, chunk: nat, index: nat) {
    && chunk < amount
    && (|| Start(offset, size, chunk) <= index < Start(offset, size, chunk) + size
        || index == Start(offset, size, chunk) + size / 2)
  }

  ghost predicate PassReadsInside(n: nat, size: nat, offset: nat, amount: nat) {
    forall chunk: nat, index: nat :: PassReads(size, offset, amount, chunk, index) ==> index < n
  }

  lemma PassInBoundsIsExact(n: nat, size: nat, offset: nat, amount: nat)
    ensures PassInBounds(n, size, offset, amount) <==> PassReadsInside(n, size, offset, amount)
  {
    if PassInBounds(n, size, offset, amount) {
      forall chunk: nat, index: nat | PassReads(size, offset, amount, chunk, index)
        ensures index < n
      {
        StartsGrow(offset, size, chunk + 1, amount);
        StartsGrow(offset, size, chunk, amount - 1);
      }
    } else {
      var start := Start(offset, size, amount - 1);
      assert PassReads(size, offset, amount, amount - 1, start + size / 2);
      if size > 0 {
        assert PassReads(size, offset, amount, amount - 1, start + size - 1);
      }
    }
  }

  /** No element outside the input is read, in either pass, exactly when n is at least m and,
      if m divides n, the quotient is at most m. */
  lemma ReadsStayInsideExactlyWhenSound(n: nat, m: nat, s: Split)
    requires m > 0 && s == Even(n, m)
    ensures Sound(n, m)
       <==> && CeilAmount(s) <= m
            && PassReadsInside(n, CeilSize(s), 0, CeilAmount(s))
            && PassReadsInside(n, s.size, CeilSize(s) * CeilAmount(s), m - CeilAmount(s))
  {
    EvenDivides(n, m);
    EvenIsDivision(n, m);
    SafeIsExact(n, m);
    StartIsProduct(0, CeilSize(s), CeilAmount(s));
    PassInBoundsIsExact(n, CeilSize(s), 0, CeilAmount(s));
    if CeilAmount(s) <= m {
      PassInBoundsIsExact(n, s.size, CeilSize(s) * CeilAmount(s), m - CeilAmount(s));
    }
  }

  /** The code does not always deliver the length that it is asked for: 100 readings into 5, or 14520
      into the 120 that the server asks for, read past the end of the input. */
  lemma FaultExamples(vals: seq<Reading>)
    ensures |vals| == 100 ==> Compressed(vals, 5) == Fault
    ensures |vals| == 14520 ==> Compressed(vals, 120) == Fault
  {
    FaultsExactlyOffSound(vals, 5);
    FaultsExactlyOffSound(vals, 120);
  }

  /** With 120 averages, the unsafe lengths above 120 are the multiples of 120 from 14520 on. */
  lemma UnsafeLengthsOf120(n: nat)
    requires n > 120
    ensures !Sound(n, 120) <==> n % 120 == 0 && n >= 14520
  {
    assert n == 120 * (n / 120) + n % 120;
  }

  // ---------- The cut ----------

  ghost predicate InChunk(s: Split, k: nat, i: nat) {
    Bound(s, k) <= i < Bound(s, k + 1)
  }

  /** Every reading falls in exactly one chunk. */
  lemma ChunksCoverInput(s: Split, n: nat, i: nat)
    requires Divides(s, n) && i < n
    ensures exists k: nat :: k < s.count && InChunk(s, k, i)
                          && forall j: nat :: j < s.count && InChunk(s, j, i) ==> j == k
  {
    var k := ChunkOf(s, i, s.count);
    forall j: nat | j < s.count && InChunk(s, j, i)
      ensures j == k
    {
      if j < k {
        BoundsGrow(s, j + 1, k);
      } else if k < j {
        BoundsGrow(s, k + 1, j);
      }
    }
  }

  lemma {:induction false} ChunkOf(s: Split, i: nat, above: nat) returns (k: nat)
    requires i < Bound(s, above)
    ensures k < above && InChunk(s, k, i)
    decreases above
  {
    if Bound(s, above - 1) <= i {
      k := above - 1;
    } else {
      k := ChunkOf(s, i, above - 1);
    }
  }

  function CutSize(cuts: seq<nat>, k: nat): int
    requires k + 1 < |cuts|
  {
    cuts[k + 1] as int - cuts[k] as int
  }

  /** A cut of 0..n-1 into m consecutive chunks, larger ones first, differing by at most one. */
  ghost predicate EvenCut(cuts: seq<nat>, n: nat, m: nat)
    requires m > 0
  {
    && |cuts| == m + 1 && cuts[0] == 0 && cuts[m] == n
    && (forall j: nat, k: nat :: j <= k < m ==> CutSize(cuts, k) <= CutSize(cuts, j) <= CutSize(cuts, k) + 1)
    && CutSize(cuts, m - 1) >= 0
  }

  /** There is exactly one such cut, the one that compress makes. */
  lemma EvenCutIsUnique(cuts: seq<nat>, n: nat, m: nat)
    requires 0 < m && |cuts| == m + 1
    ensures EvenCut(cuts, n, m) <==> forall k: nat :: k <= m ==> cuts[k] == Bound(Even(n, m), k)
  {
    if EvenCut(cuts, n, m) {
      OnlyEvenCut(cuts, n, m);
    } else if forall k: nat :: k <= m ==> cuts[k] == Bound(Even(n, m), k) {
      SplitIsEvenCut(cuts, n, m);
    }
  }

  lemma SplitIsEvenCut(cuts: seq<nat>, n: nat, m: nat)
    requires 0 < m && |cuts| == m + 1 && forall k: nat :: k <= m ==> cuts[k] == Bound(Even(n, m), k)
    ensures EvenCut(cuts, n, m)
  {
    EvenDivides(n, m);
    forall k: nat | k < m
      ensures CutSize(cuts, k) == ChunkSize(Even(n, m), k)
    {
      assert cuts[k] == Bound(Even(n, m), k) && cuts[k + 1] == Bound(Even(n, m), k + 1);
    }
  }

  lemma OnlyEvenCut(cuts: seq<nat>, n: nat, m: nat)
    requires 0 < m && EvenCut(cuts, n, m)
    ensures forall k: nat :: k <= m ==> cuts[k] == Bound(Even(n, m), k)
  {
    var small := CutSize(cuts, m - 1);
    var big := LargeChunks(cuts, n, m, small, m);
    BoundIsProduct(Split(small, big, m), m);
    assert n == m * small + big;
    DivideUnique(n, m, small, big);
    EvenIsDivision(n, m);
  }

  lemma {:induction false} LargeChunks(cuts: seq<nat>, n: nat, m: nat, small: nat, k: nat) returns (big: nat)
    requires 0 < m && EvenCut(cuts, n, m) && small == CutSize(cuts, m - 1) && k <= m
    ensures big <= k && (big < k ==> CutSize(cuts, big) == small)
    ensures k == m ==> big < m
    ensures forall j: nat {:trigger cuts[j]} :: j <= k ==> cuts[j] == Bound(Split(small, big, m), j)
  {
    if k == 0 {
      big := 0;
    } else {
      var before := LargeChunks(cuts, n, m, small, k - 1);
      assert small <= CutSize(cuts, k - 1) <= small + 1;
      assert before < k - 1 ==> CutSize(cuts, k - 1) <= CutSize(cuts, before);
      big := if CutSize(cuts, k - 1) == small + 1 then k else before;
      forall j: nat | j < k
        ensures cuts[j] == Bound(Split(small, big, m), j)
      {
        SameStart(small, before, big, m, j);
      }
    }
  }

  lemma {:induction false} SameStart(size: nat, extra: nat, extra': nat, count: nat, j: nat)
    requires extra == extra' || j <= extra <= extra'
    ensures Bound(Split(size, extra, count), j) == Bound(Split(size, extra', count), j)
  {
    if j > 0 {
      SameStart(size, extra, extra', count, j - 1);
    }
  }

  // ---------- Conservation ----------

  /** The total of the outputs, each counted as often as its chunk has elements. */
  ghost function WeightedTotal(out: seq<Reading>, s: Split): real {
    if out == [] then 0.0
    else
      var last := |out| - 1;
      WeightedTotal(out[..last], s) + Repeated(ChunkSize(s, last), out[last].val)
  }

  lemma {:induction false} SumOfConcat(a: seq<Reading>, b: seq<Reading>)
    ensures Sum(a + b) == Sum(a) + Sum(b)
  {
    if b == [] {
      assert a + b == a;
    } else {
      assert (a + b)[..|a + b| - 1] == a + b[..|b| - 1];
      SumOfConcat(a, b[..|b| - 1]);
    }
  }

  /** The sums of the first k chunks, added up. */
  ghost function ChunkSums(vals: seq<Reading>, s: Split, k: nat): real
    requires Bound(s, k) <= |vals|
  {
    if k == 0 then 0.0 else ChunkSums(vals, s, k - 1) + Sum(Chunk(vals, s, k - 1))
  }

  lemma {:induction false} ChunkSumsAreSum(vals: seq<Reading>, s: Split, k: nat)
    requires Bound(s, k) <= |vals|
    ensures ChunkSums(vals, s, k) == Sum(vals[..Bound(s, k)])
  {
    if k == 0 {
      assert vals[..0] == [];
    } else {
      var before, chunk := vals[..Bound(s, k - 1)], Chunk(vals, s, k - 1);
      ChunkSumsAreSum(vals, s, k - 1);
      assert vals[..Bound(s, k)] == before + chunk;
      SumOfConcat(before, chunk);
    }
  }

  lemma WeightOfSummary(chunk: seq<Reading>, n: nat)
    requires |chunk| == n > 0
    ensures Repeated(n, Summary(chunk).val) == Sum(chunk)
  {
  }

  /** What output k weighs. */
  ghost predicate Weighs(vals: seq<Reading>, s: Split, k: nat, x: Reading) {
    Bound(s, k + 1) <= |vals| && Repeated(ChunkSize(s, k), x.val) == Sum(Chunk(vals, s, k))
  }

  lemma SummaryWeighs(vals: seq<Reading>, s: Split, count: nat, k: nat)
    requires s.size > 0 && Bound(s, count) <= |vals| && k < count
    ensures Weighs(vals, s, k, Summaries(vals, s, count)[k])
  {
    SummaryAt(vals, s, count, k);
    WeightOfSummary(Chunk(vals, s, k), ChunkSize(s, k));
  }

  lemma NextWeight(vals: seq<Reading>, s: Split, out: seq<Reading>, before: seq<Reading>)
    requires out != [] && before == out[..|out| - 1] && Bound(s, |out|) <= |vals|
    requires Weighs(vals, s, |before|, out[|before|]) && WeightedTotal(before, s) == ChunkSums(vals, s, |before|)
    ensures WeightedTotal(out, s) == ChunkSums(vals, s, |out|)
  {
  }

  lemma {:induction false} WeightedTotalOf(vals: seq<Reading>, s: Split, out: seq<Reading>)
    requires Bound(s, |out|) <= |vals|
    requires forall k: nat {:trigger Weighs(vals, s, k, out[k])} :: k < |out| ==> Weighs(vals, s, k, out[k])
    ensures WeightedTotal(out, s) == ChunkSums(vals, s, |out|)
    decreases |out|
  {
    if out != [] {
      var before := out[..|out| - 1];
      forall k: nat {:trigger Weighs(vals, s, k, before[k])} | k < |before|
        ensures Weighs(vals, s, k, before[k])
      {
        assert Weighs(vals, s, k, out[k]);
      }
      assert Weighs(vals, s, |before|, out[|before|]);
      WeightedTotalOf(vals, s, before);
      NextWeight(vals, s, out, before);
    }
  }

  /** Averaging loses nothing of the total. */
  lemma TotalIsConserved(vals: seq<Reading>, maxLen: nat)
    requires Compressed(vals, maxLen).Done?
    ensures |Compressed(vals, maxLen).vals| == maxLen
    ensures WeightedTotal(Compressed(vals, maxLen).vals, Even(|vals|, maxLen)) == Sum(vals)
  {
    var s := Even(|vals|, maxLen);
    EvenDivides(|vals|, maxLen);
    var out := Summaries(vals, s, maxLen);
    forall k: nat {:trigger Weighs(vals, s, k, out[k])} | k < maxLen
      ensures Weighs(vals, s, k, out[k])
    {
      SummaryWeighs(vals, s, maxLen, k);
    }
    WeightedTotalOf(vals, s, out);
    ChunkSumsAreSum(vals, s, maxLen);
    assert vals[..|vals|] == vals;
  }

  // ---------- Averages stay among the values they stand for ----------

  lemma {:induction false} SumAbove(vals: seq<Reading>, bound: real)
    requires vals != [] && forall i :: 0 <= i < |vals| ==> bound < vals[i].val
    ensures Repeated(|vals|, bound) < Sum(vals)
  {
    if |vals| > 1 {
      SumAbove(vals[..|vals| - 1], bound);
    } else {
      assert Sum(vals[..0]) == 0.0 && Repeated(0, bound) == 0.0;
    }
  }

  lemma {:induction false} SumBelow(vals: seq<Reading>, bound: real)
    requires vals != [] && forall i :: 0 <= i < |vals| ==> vals[i].val < bound
    ensures Sum(vals) < Repeated(|vals|, bound)
  {
    if |vals| > 1 {
      SumBelow(vals[..|vals| - 1], bound);
    } else {
      assert Sum(vals[..0]) == 0.0 && Repeated(0, bound) == 0.0;
    }
  }

  /** Some element of the chunk is at most its average, and some element is at least that. */
  lemma AverageIsBetween(chunk: seq<Reading>) returns (low: nat, high: nat)
    requires chunk != []
    ensures low < |chunk| && high < |chunk|
    ensures chunk[low].val <= Summary(chunk).val <= chunk[high].val
  {
    var average := Average(Sum(chunk), |chunk|);
    if forall i :: 0 <= i < |chunk| ==> average < chunk[i].val {
      SumAbove(chunk, average);
    }
    if forall i :: 0 <= i < |chunk| ==> chunk[i].val < average {
      SumBelow(chunk, average);
    }
    low :| 0 <= low < |chunk| && chunk[low].val <= average;
    high :| 0 <= high < |chunk| && average <= chunk[high].val;
  }

  lemma ElementOfChunk(vals: seq<Reading>, s: Split, k: nat, i: nat)
    requires Bound(s, k + 1) <= |vals| && i < ChunkSize(s, k)
    ensures InChunk(s, k, Bound(s, k) + i)
    ensures Chunk(vals, s, k)[i] == vals[Bound(s, k) + i]
  {
  }

  function Middle(s: Split, k: nat): nat {
    Bound(s, k) + ChunkSize(s, k) / 2
  }

  lemma SummaryStandsForChunk(vals: seq<Reading>, s: Split, k: nat) returns (low: nat, high: nat)
    requires Bound(s, k + 1) <= |vals| && s.size > 0
    ensures low < |vals| && high < |vals| && Middle(s, k) < |vals|
    ensures InChunk(s, k, low) && InChunk(s, k, high) && InChunk(s, k, Middle(s, k))
    ensures vals[low].val <= Summary(Chunk(vals, s, k)).val <= vals[high].val
    ensures Summary(Chunk(vals, s, k)).timestamp == vals[Middle(s, k)].timestamp
  {
    low, high := AverageIsBetween(Chunk(vals, s, k));
    ElementOfChunk(vals, s, k, low);
    ElementOfChunk(vals, s, k, high);
    ElementOfChunk(vals, s, k, ChunkSize(s, k) / 2);
    low, high := Bound(s, k) + low, Bound(s, k) + high;
  }

  /** Every output lies between two readings of its own chunk, and is stamped by the middle one. */
  lemma OutputStandsForItsChunk(vals: seq<Reading>, maxLen: nat, k: nat) returns (low: nat, high: nat, mid: nat)
    requires Compressed(vals, maxLen).Done? && k < maxLen
    ensures low < |vals| && high < |vals| && mid < |vals| && |Compressed(vals, maxLen).vals| == maxLen
    ensures InChunk(Even(|vals|, maxLen), k, low) && InChunk(Even(|vals|, maxLen), k, high)
    ensures InChunk(Even(|vals|, maxLen), k, mid) && mid == Middle(Even(|vals|, maxLen), k)
    ensures vals[low].val <= Compressed(vals, maxLen).vals[k].val <= vals[high].val
    ensures Compressed(vals, maxLen).vals[k].timestamp == vals[mid].timestamp
  {
    var s := Even(|vals|, maxLen);
    EvenDivides(|vals|, maxLen);
    SummaryAt(vals, s, maxLen, k);
    low, high := SummaryStandsForChunk(vals, s, k);
    mid := Middle(s, k);
  }

  // ---------- Timestamps ----------

  lemma MiddlesIncrease(s: Split, j: nat, k: nat)
    requires j < k && s.size > 0
    ensures Middle(s, j) < Middle(s, k)
  {
    BoundsGrow(s, j + 1, k);
  }

  lemma StampOrder(vals: seq<Reading>, maxLen: nat, j: nat, k: nat)
    requires Compressed(vals, maxLen).Done? && InTimeOrder(vals) && j < k < maxLen
    ensures |Compressed(vals, maxLen).vals| == maxLen
    ensures Compressed(vals, maxLen).vals[j].timestamp <= Compressed(vals, maxLen).vals[k].timestamp
  {
    var _, _, midJ := OutputStandsForItsChunk(vals, maxLen, j);
    var _, _, midK := OutputStandsForItsChunk(vals, maxLen, k);
    MiddlesIncrease(Even(|vals|, maxLen), j, k);
    assert midJ < midK;
  }

  /** Readings in time order give averages in time order. */
  lemma CompressKeepsTimeOrder(vals: seq<Reading>, maxLen: nat)
    requires Compressed(vals, maxLen).Done? && InTimeOrder(vals)
    ensures InTimeOrder(Compressed(vals, maxLen).vals)
  {
    EvenDivides(|vals|, maxLen);
    forall j, k | 0 <= j < k < maxLen
      ensures Compressed(vals, maxLen).vals[j].timestamp <= Compressed(vals, maxLen).vals[k].timestamp
    {
      StampOrder(vals, maxLen, j, k);
    }
  }
}
