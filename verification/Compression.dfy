// DataAccess::compress: n readings become max_len averages.

module Compression {
  import Wire
  import opened DataModel

  // std::vector<VarValue>::max_size() where a VarValue takes 80 bytes.
  const VECTOR_MAX: nat := 0x7FFF_FFFF_FFFF_FFFF / 80

  /** What a call ends in. Fault stands for undefined behaviour: an iterator was read outside the
      input, or a remainder was taken by zero. */
  datatype Outcome = Done(vals: seq<Reading>) | InvalidArgument | Fault

  // ---------- The averages that are asked for ----------

  function Sum(vals: seq<Reading>): real {
    if vals == [] then 0.0 else Sum(vals[..|vals| - 1]) + vals[|vals| - 1].val
  }

  /** x, added up n times. */
  ghost function Repeated(n: nat, x: real): real {
    if n == 0 then 0.0 else Repeated(n - 1, x) + x
  }

  lemma {:induction false} RepeatedIsProduct(n: nat, x: real)
    ensures Repeated(n, x) == n as real * x
  {
    if n > 0 {
      RepeatedIsProduct(n - 1, x);
      assert n as real * x == (n - 1) as real * x + x;
    }
  }

  lemma RepeatedQuotient(total: real, n: nat)
    requires n > 0
    ensures Repeated(n, total / n as real) == total
  {
    RepeatedIsProduct(n, total / n as real);
  }

  /** The average of n values with this total. */
  ghost function Average(total: real, n: nat): (a: real)
    requires n > 0
    ensures Repeated(n, a) == total
  {
    RepeatedQuotient(total, n);
    var a :| Repeated(n, a) == total;
    a
  }

  lemma AverageIsQuotient(total: real, n: nat)
    requires n > 0
    ensures Average(total, n) == total / n as real
  {
    var a, divisor := Average(total, n), n as real;
    RepeatedIsProduct(n, a);
    assert a == (divisor * a) / divisor;
  }

  /** A chunk is replaced by its average, stamped with the time of its middle element. */
  ghost function Summary(chunk: seq<Reading>): Reading
    requires chunk != []
  {
    Reading([], Average(Sum(chunk), |chunk|), chunk[|chunk| / 2].timestamp)
  }

  /** Items dealt to `count` chunks: `size` to each, and one more to each of the first `extra`. */
  datatype Split = Split(size: nat, extra: nat, count: nat)

  /** n items dealt to m chunks, one to each as long as they last. */
  function Even(n: nat, m: nat): Split
    requires m > 0
  {
    if n < m then Split(0, n, m)
    else
      var s := Even(n - m, m);
      Split(s.size + 1, s.extra, m)
  }

  function ChunkSize(s: Split, k: nat): nat {
    s.size + if k < s.extra then 1 else 0
  }

  /** Where chunk k starts. */
  function Bound(s: Split, k: nat): nat {
    if k == 0 then 0 else Bound(s, k - 1) + ChunkSize(s, k - 1)
  }

  /** The split hands out exactly n items, and at least one to each chunk. */
  ghost predicate Divides(s: Split, n: nat) {
    s.count > 0 && s.size > 0 && Bound(s, s.count) == n
  }

  lemma {:induction false} BoundsGrow(s: Split, j: nat, k: nat)
    requires j <= k
    ensures Bound(s, j) <= Bound(s, k)
    ensures j < k ==> Bound(s, j) + ChunkSize(s, j) <= Bound(s, k)
    decreases k
  {
    if j < k {
      BoundsGrow(s, j, k - 1);
    }
  }

  function Chunk(vals: seq<Reading>, s: Split, k: nat): (chunk: seq<Reading>)
    requires Bound(s, k + 1) <= |vals|
    ensures |chunk| == ChunkSize(s, k)
  {
    vals[Bound(s, k)..Bound(s, k + 1)]
  }

  /** The averages of the first `count` chunks. */
  ghost function Summaries(vals: seq<Reading>, s: Split, count: nat): (out: seq<Reading>)
    requires s.size > 0 && Bound(s, count) <= |vals|
    ensures |out| == count
  {
    if count == 0 then [] else Summaries(vals, s, count - 1) + [Summary(Chunk(vals, s, count - 1))]
  }

  lemma {:induction false} SummaryAt(vals: seq<Reading>, s: Split, count: nat, k: nat)
    requires s.size > 0 && Bound(s, count) <= |vals| && k < count
    ensures Bound(s, k + 1) <= |vals|
    ensures Summaries(vals, s, count)[k] == Summary(Chunk(vals, s, k))
  {
    var before, last := Summaries(vals, s, count - 1), Summary(Chunk(vals, s, count - 1));
    assert Summaries(vals, s, count) == before + [last];
    if k < count - 1 {
      SummaryAt(vals, s, count - 1, k);
    }
  }

  // ---------- Multiplication, seen as repeated addition ----------

  /** Where chunk i starts in a pass over chunks of one size. */
  function Start(offset: nat, size: nat, i: nat): nat {
    if i == 0 then offset else Start(offset, size, i - 1) + size
  }

  lemma {:induction false} StartIsProduct(offset: nat, size: nat, i: nat)
    ensures Start(offset, size, i) == offset + size * i
  {
    if i > 0 {
      StartIsProduct(offset, size, i - 1);
      assert size * i == size * (i - 1) + size;
    }
  }

  lemma {:induction false} StartsGrow(offset: nat, size: nat, i: nat, j: nat)
    requires i <= j
    ensures Start(offset, size, i) <= Start(offset, size, j)
    ensures i < j ==> Start(offset, size, i) + size <= Start(offset, size, j)
    decreases j
  {
    if i < j {
      StartsGrow(offset, size, i, j - 1);
    }
  }

  lemma {:induction false} BoundIsProduct(s: Split, k: nat)
    ensures Bound(s, k) == s.size * k + if k < s.extra then k else s.extra
  {
    if k > 0 {
      BoundIsProduct(s, k - 1);
      assert s.size * k == s.size * (k - 1) + s.size;
    }
  }

  lemma ProductsGrow(a: nat, b: nat, c: nat)
    requires b <= c
    ensures a * b <= a * c
  {
    assert a * c == a * b + a * (c - b);
  }

  lemma DivideUnique(n: nat, m: nat, q: nat, r: nat)
    requires r < m && n == m * q + r
    ensures n / m == q && n % m == r
  {
    var q', r' := n / m, n % m;
    assert n == m * q' + r';
    if q < q' {
      ProductsGrow(m, q + 1, q');
    }
    if q' < q {
      ProductsGrow(m, q' + 1, q);
    }
  }

  lemma {:induction false} EvenIsDivision(n: nat, m: nat)
    requires m > 0
    ensures Even(n, m) == Split(n / m, n % m, m)
  {
    if n < m {
      DivideUnique(n, m, 0, n);
    } else {
      EvenIsDivision(n - m, m);
      var q, r := (n - m) / m, (n - m) % m;
      assert n - m == m * q + r;
      assert m * (q + 1) == m * q + m;
      DivideUnique(n, m, q + 1, r);
    }
  }

  lemma EvenDivides(n: nat, m: nat)
    requires 0 < m
    ensures Even(n, m).count == m && Bound(Even(n, m), m) == n
    ensures Even(n, m).size > 0 <==> m <= n
  {
    var s := Even(n, m);
    EvenIsDivision(n, m);
    BoundIsProduct(s, m);
    assert n == s.size * m + s.extra;
  }

  // ---------- When the code stays inside its input ----------

  /** The splits that the code handles. */
  predicate Safe(s: Split) {
    s.size > 0 && (s.extra != 0 || s.size <= s.count)
  }

  /** The lengths that the code handles. */
  predicate Sound(n: nat, m: nat) {
    1 <= m <= n && (n % m != 0 || n / m <= m)
  }

  /** The outcome of compress on any input and any length. */
  ghost function Compressed(vals: seq<Reading>, maxLen: nat): Outcome {
    if maxLen > VECTOR_MAX then InvalidArgument
    else if maxLen == 0 || !Safe(Even(|vals|, maxLen)) then Fault
    else
      EvenDivides(|vals|, maxLen);
      Done(Summaries(vals, Even(|vals|, maxLen), maxLen))
  }

  /** When a call faults, and when it succeeds, in terms of the two lengths alone. */
  lemma FaultsExactlyOffSound(vals: seq<Reading>, maxLen: nat)
    ensures Compressed(vals, maxLen).InvalidArgument? <==> maxLen > VECTOR_MAX
    ensures Compressed(vals, maxLen).Done? <==> maxLen <= VECTOR_MAX && Sound(|vals|, maxLen)
  {
    if maxLen > 0 {
      EvenIsDivision(|vals|, maxLen);
      EvenDivides(|vals|, maxLen);
    }
  }

  // ---------- One pass of the code ----------

  /** Every element that the pass sums lies in the input, and so does every middle element. */
  predicate PassInBounds(n: nat, size: nat, offset: nat, amount: nat) {
    amount == 0 || (Start(offset, size, amount) <= n && Start(offset, size, amount - 1) + size / 2 < n)
  }

  /** What a pass appends. */
  ghost predicate PassOutput(vals: seq<Reading>, size: nat, offset: nat, amount: nat, added: seq<Reading>) {
    && |added| == amount
    && (amount > 0 ==> size > 0)
    && forall i: nat {:trigger added[i]} :: i < amount ==> IsSummary(vals, Start(offset, size, i), size, added[i])
  }

  ghost predicate IsSummary(vals: seq<Reading>, start: nat, size: nat, r: Reading) {
    0 < size && start + size <= |vals| && r == Summary(vals[start..start + size])
  }

  /** The `std::for_each(begin, end, ...)` that accumulates `sum`; it faults when it reads past the
      end of the input. */
  method SumRange(inVals: seq<Reading>, begin: nat, end: nat) returns (sum: real, fault: bool)
    requires begin <= end
    ensures fault <==> begin < end && |inVals| < end
    ensures !fault && begin < end ==> sum == Sum(inVals[begin..end])
  {
    sum := 0.0;
    var p := begin;
    while p < end
      invariant begin <= p <= end && (p <= |inVals| || p == begin)
      invariant if p == begin then sum == 0.0 else sum == Sum(inVals[begin..p])
    {
      if p >= |inVals| {
        return sum, true;
      }
      assert inVals[begin..p + 1][..p - begin] == inVals[begin..p];
      sum := sum + inVals[p].val;
      p := p + 1;
    }
    fault := false;
  }

  lemma NextChunk(n: nat, size: nat, offset: nat, amount: nat, i: nat)
    requires i < amount && (size == 0 ==> n <= offset)
    ensures offset <= Start(offset, size, i)
    ensures n < Start(offset, size, i) + size || n <= Start(offset, size, i) + size / 2
            ==> !PassInBounds(n, size, offset, amount)
    ensures Start(offset, size, i) + size <= n && Start(offset, size, i) + size / 2 < n
            ==> size > 0 && PassInBounds(n, size, offset, i + 1)
  {
    StartsGrow(offset, size, i + 1, amount);
    StartsGrow(offset, size, i, amount - 1);
    StartsGrow(offset, size, 0, i);
  }

  lemma PassContinues(vals: seq<Reading>, size: nat, offset: nat, i: nat, added: seq<Reading>, next: Reading)
    requires PassOutput(vals, size, offset, i, added)
    requires IsSummary(vals, Start(offset, size, i), size, next)
    ensures PassOutput(vals, size, offset, i + 1, added + [next])
  {
  }

  lemma AverageIsSummary(vals: seq<Reading>, start: nat, size: nat, sum: real)
    requires 0 < size && start + size <= |vals| && sum == Sum(vals[start..start + size])
    ensures IsSummary(vals, start, size, Reading([], sum / size as real, vals[start + size / 2].timestamp))
  {
    AverageIsQuotient(sum, size);
  }

  /** The C++ lambda `apply_compression`: appends the averages of consecutive chunks. */
  method ApplyCompression(inVals: seq<Reading>, outVals: seq<Reading>, size: nat, offset: nat, amount: nat)
    returns (out: seq<Reading>, fault: bool)
    requires size == 0 ==> |inVals| <= offset
    ensures fault <==> !PassInBounds(|inVals|, size, offset, amount)
    ensures !fault ==> outVals <= out && PassOutput(inVals, size, offset, amount, out[|outVals|..])
  {
    var begin, mid, end := offset, offset + size / 2, offset + size;
    out := outVals;
    ghost var added := [];
    var i := 0;
    while i < amount
      invariant 0 <= i <= amount
      invariant begin == Start(offset, size, i) && mid == begin + size / 2 && end == begin + size
      invariant PassInBounds(|inVals|, size, offset, i)
      invariant out == outVals + added && PassOutput(inVals, size, offset, i, added)
    {
      NextChunk(|inVals|, size, offset, amount, i);
      var sum, outside := SumRange(inVals, begin, end);
      if outside || mid >= |inVals| {
        return out, true;
      }
      var next := Reading([], sum / size as real, inVals[mid].timestamp);
      AverageIsSummary(inVals, begin, size, sum);
      PassContinues(inVals, size, offset, i, added, next);
      out, added := out + [next], added + [next];
      i := i + 1;
      begin, mid, end := begin + size, mid + size, end + size;
    }
    assert out[|outVals|..] == added;
    fault := false;
  }

  // ---------- Both passes ----------

  /** `ceil_chunk_size`, where `n` is divided into `s.count` parts. */
  function CeilSize(s: Split): nat {
    if s.extra != 0 then s.size + 1 else s.size
  }

  /** `ceil_ammount`: without a remainder, the code takes the quotient. */
  function CeilAmount(s: Split): nat {
    if s.extra != 0 then s.extra else s.size
  }

  lemma CeilOfQuotient(n: nat, m: nat, q: nat, r: nat)
    requires r < m && n == m * q + r
    ensures (n + m - 1) / m == if r != 0 then q + 1 else q
  {
    if r != 0 {
      assert m * (q + 1) == m * q + m;
      DivideUnique(n + m - 1, m, q + 1, r - 1);
    } else {
      DivideUnique(n + m - 1, m, q, m - 1);
    }
  }

  /** What both passes read stays inside the input. */
  predicate BothInBounds(n: nat, s: Split) {
    && PassInBounds(n, CeilSize(s), 0, CeilAmount(s))
    && CeilAmount(s) <= s.count
    && PassInBounds(n, s.size, Start(0, CeilSize(s), CeilAmount(s)), s.count - CeilAmount(s))
  }

  /** The chunks of the first pass, and then those of the second, are the chunks of the split. */
  lemma {:induction false} CeilStarts(s: Split, i: nat)
    requires i <= CeilAmount(s)
    ensures Start(0, CeilSize(s), i) == Bound(s, i)
  {
    if i > 0 {
      CeilStarts(s, i - 1);
    }
  }

  lemma {:induction false} FloorStarts(s: Split, i: nat)
    ensures Start(Bound(s, CeilAmount(s)), s.size, i) == Bound(s, CeilAmount(s) + i)
  {
    if i > 0 {
      FloorStarts(s, i - 1);
    }
  }

  lemma SafeStaysInside(n: nat, s: Split)
    requires Divides(s, n) && CeilAmount(s) <= s.count
    ensures BothInBounds(n, s)
  {
    var a := CeilAmount(s);
    CeilStarts(s, a);
    BoundsGrow(s, a, s.count);
    StartsGrow(0, CeilSize(s), a - 1, a);
    if a < s.count {
      FloorStarts(s, s.count - a);
      FloorStarts(s, s.count - a - 1);
    }
  }

  /** Fewer readings than chunks: the second pass reads the element after the last one. */
  lemma TooFewLeaveInput(n: nat, m: nat)
    requires n < m
    ensures Start(0, CeilSize(Even(n, m)), CeilAmount(Even(n, m))) == n
    ensures !PassInBounds(n, 0, n, m - CeilAmount(Even(n, m)))
  {
    var s := Even(n, m);
    StartIsProduct(0, CeilSize(s), CeilAmount(s));
    StartIsProduct(n, 0, m - n);
    StartIsProduct(n, 0, m - n - 1);
  }

  /** A multiple of the chunk count, and too many: the first pass reads past the last element. */
  lemma TooManyLeaveInput(n: nat, m: nat)
    requires 0 < m < Even(n, m).size && Even(n, m).extra == 0
    ensures !PassInBounds(n, CeilSize(Even(n, m)), 0, CeilAmount(Even(n, m)))
  {
    var s := Even(n, m);
    EvenDivides(n, m);
    CeilStarts(s, m);
    StartsGrow(0, s.size, m, s.size);
  }

  /** The code stays inside its input exactly on the safe splits. */
  lemma SafeIsExact(n: nat, m: nat)
    requires m > 0
    ensures Safe(Even(n, m)) <==> BothInBounds(n, Even(n, m))
    ensures PassInBounds(n, CeilSize(Even(n, m)), 0, CeilAmount(Even(n, m))) ==> CeilAmount(Even(n, m)) <= m
  {
    var s := Even(n, m);
    EvenDivides(n, m);
    EvenIsDivision(n, m);
    if s.size == 0 {
      TooFewLeaveInput(n, m);
    } else if Safe(s) {
      SafeStaysInside(n, s);
    } else {
      TooManyLeaveInput(n, m);
    }
  }

  lemma CeilChunk(vals: seq<Reading>, s: Split, first: seq<Reading>, k: nat)
    requires k < CeilAmount(s) && Bound(s, k + 1) <= |vals| && s.size > 0
    requires PassOutput(vals, CeilSize(s), 0, CeilAmount(s), first)
    ensures first[k] == Summary(Chunk(vals, s, k))
  {
    CeilStarts(s, k);
    assert IsSummary(vals, Bound(s, k), CeilSize(s), first[k]);
  }

  lemma FloorChunk(vals: seq<Reading>, s: Split, second: seq<Reading>, i: nat)
    requires CeilAmount(s) + i < s.count && Bound(s, CeilAmount(s) + i + 1) <= |vals| && s.size > 0
    requires PassOutput(vals, s.size, Start(0, CeilSize(s), CeilAmount(s)), s.count - CeilAmount(s), second)
    ensures second[i] == Summary(Chunk(vals, s, CeilAmount(s) + i))
  {
    CeilStarts(s, CeilAmount(s));
    FloorStarts(s, i);
    assert IsSummary(vals, Bound(s, CeilAmount(s) + i), s.size, second[i]);
  }

  lemma PassesAt(vals: seq<Reading>, s: Split, first: seq<Reading>, second: seq<Reading>, k: nat)
    requires s.size > 0 && CeilAmount(s) <= s.count && k < s.count && Bound(s, k + 1) <= |vals|
    requires PassOutput(vals, CeilSize(s), 0, CeilAmount(s), first)
    requires PassOutput(vals, s.size, Start(0, CeilSize(s), CeilAmount(s)), s.count - CeilAmount(s), second)
    ensures (first + second)[k] == Summary(Chunk(vals, s, k))
  {
    if k < |first| {
      CeilChunk(vals, s, first, k);
    } else {
      FloorChunk(vals, s, second, k - |first|);
    }
  }

  lemma PassesAreSummaries(vals: seq<Reading>, s: Split, first: seq<Reading>, second: seq<Reading>)
    requires Divides(s, |vals|) && CeilAmount(s) <= s.count
    requires PassOutput(vals, CeilSize(s), 0, CeilAmount(s), first)
    requires PassOutput(vals, s.size, Start(0, CeilSize(s), CeilAmount(s)), s.count - CeilAmount(s), second)
    ensures first + second == Summaries(vals, s, s.count)
  {
    var out, expected := first + second, Summaries(vals, s, s.count);
    forall k: nat | k < s.count
      ensures out[k] == expected[k]
    {
      PassesAtSummary(vals, s, first, second, k);
    }
  }

  lemma PassesAtSummary(vals: seq<Reading>, s: Split, first: seq<Reading>, second: seq<Reading>, k: nat)
    requires Divides(s, |vals|) && CeilAmount(s) <= s.count && k < s.count
    requires PassOutput(vals, CeilSize(s), 0, CeilAmount(s), first)
    requires PassOutput(vals, s.size, Start(0, CeilSize(s), CeilAmount(s)), s.count - CeilAmount(s), second)
    ensures (first + second)[k] == Summaries(vals, s, s.count)[k]
  {
    BoundsGrow(s, k + 1, s.count);
    PassesAt(vals, s, first, second, k);
    SummaryAt(vals, s, s.count, k);
  }

  /** Subtraction on std::size_t. */
  function SizeMinus(a: nat, b: nat): nat {
    if b <= a then a - b else (a - b) % Wire.TWO_TO_64
  }

  lemma SizesInTermsOfSplit(n: nat, m: nat)
    requires m > 0
    ensures (n + m - 1) / m == CeilSize(Even(n, m))
    ensures (if n % m != 0 then n % m else n / m) == CeilAmount(Even(n, m))
    ensures n / m == Even(n, m).size
  {
    CeilOfQuotient(n, m, n / m, n % m);
    EvenIsDivision(n, m);
  }

  lemma EmptyChunks(n: nat, s: Split)
    requires s.count > 0 && s == Even(n, s.count)
    ensures CeilSize(s) == 0 ==> n == 0
    ensures s.size == 0 ==> Start(0, CeilSize(s), CeilAmount(s)) == n
  {
    EvenDivides(n, s.count);
    BoundIsProduct(s, s.count);
    if s.size == 0 {
      TooFewLeaveInput(n, s.count);
    }
  }

  /** The sizes and amounts of both passes, and where the second one starts. */
  method PassSizes(n: nat, maxLen: nat)
    returns (ceilSize: nat, ceilAmount: nat, floorSize: nat, floorOffset: nat)
    requires maxLen > 0
    ensures ceilSize == CeilSize(Even(n, maxLen)) && ceilAmount == CeilAmount(Even(n, maxLen))
    ensures floorSize == Even(n, maxLen).size && floorOffset == Start(0, ceilSize, ceilAmount)
  {
    ceilSize := (n + maxLen - 1) / maxLen;
    ceilAmount := if n % maxLen != 0 then n % maxLen else n / maxLen;
    floorSize := n / maxLen;
    floorOffset := ceilSize * ceilAmount;
    SizesInTermsOfSplit(n, maxLen);
    StartIsProduct(0, ceilSize, ceilAmount);
  }

  /** What the two passes read when they are called with these sizes and amounts. */
  predicate CallsInBounds(n: nat, maxLen: nat, ceilSize: nat, ceilAmount: nat, floorSize: nat, floorOffset: nat) {
    && PassInBounds(n, ceilSize, 0, ceilAmount)
    && PassInBounds(n, floorSize, floorOffset, SizeMinus(maxLen, ceilAmount))
  }

  /** With the code's sizes, the second amount does not underflow when the first pass has succeeded. */
  lemma CallsAreExact(n: nat, m: nat, s: Split)
    requires m > 0 && s == Even(n, m)
    ensures CallsInBounds(n, m, CeilSize(s), CeilAmount(s), s.size, Start(0, CeilSize(s), CeilAmount(s)))
       <==> BothInBounds(n, s)
  {
    SafeIsExact(n, m);
  }

  lemma PassesFault(vals: seq<Reading>, maxLen: nat, s: Split)
    requires 0 < maxLen <= VECTOR_MAX && s == Even(|vals|, maxLen) && !BothInBounds(|vals|, s)
    ensures Compressed(vals, maxLen) == Fault
  {
    SafeIsExact(|vals|, maxLen);
  }

  lemma PassesSucceed(vals: seq<Reading>, maxLen: nat, s: Split, first: seq<Reading>, second: seq<Reading>)
    requires 0 < maxLen <= VECTOR_MAX && s == Even(|vals|, maxLen) && BothInBounds(|vals|, s)
    requires PassOutput(vals, CeilSize(s), 0, CeilAmount(s), first)
    requires PassOutput(vals, s.size, Start(0, CeilSize(s), CeilAmount(s)), SizeMinus(maxLen, CeilAmount(s)), second)
    ensures Compressed(vals, maxLen) == Done(first + second)
  {
    SafeIsExact(|vals|, maxLen);
    EvenDivides(|vals|, maxLen);
    PassesAreSummaries(vals, s, first, second);
  }

  /** The two calls of the lambda. */
  method BothPasses(inVals: seq<Reading>, maxLen: nat,
                    ceilSize: nat, ceilAmount: nat, floorSize: nat, floorOffset: nat)
    returns (out: seq<Reading>, fault: bool, ghost first: seq<Reading>, ghost second: seq<Reading>)
    requires (ceilSize == 0 ==> inVals == []) && (floorSize == 0 ==> |inVals| <= floorOffset)
    ensures fault <==> !CallsInBounds(|inVals|, maxLen, ceilSize, ceilAmount, floorSize, floorOffset)
    ensures !fault ==> out == first + second
    ensures !fault ==> PassOutput(inVals, ceilSize, 0, ceilAmount, first)
    ensures !fault ==> PassOutput(inVals, floorSize, floorOffset, SizeMinus(maxLen, ceilAmount), second)
  {
    second := [];
    out, fault := ApplyCompression(inVals, [], ceilSize, 0, ceilAmount);
    first := out;
    if fault {
      return;
    }
    assert first[0..] == first;
    out, fault := ApplyCompression(inVals, out, floorSize, floorOffset, SizeMinus(maxLen, ceilAmount));
    if fault {
      return;
    }
    second := out[|first|..];
  }

  /** DataAccess::compress. */
  method Compress(inVals: seq<Reading>, maxLen: nat) returns (r: Outcome)
    ensures r == Compressed(inVals, maxLen)
  {
    if maxLen > VECTOR_MAX {
      return InvalidArgument;
    }
    if maxLen == 0 {
      return Fault;
    }
    ghost var s := Even(|inVals|, maxLen);
    var ceilSize, ceilAmount, floorSize, floorOffset := PassSizes(|inVals|, maxLen);
    EmptyChunks(|inVals|, s);
    CallsAreExact(|inVals|, maxLen, s);
    var out, fault, first, second := BothPasses(inVals, maxLen, ceilSize, ceilAmount, floorSize, floorOffset);
    if fault {
      PassesFault(inVals, maxLen, s);
      return Fault;
    }
    PassesSucceed(inVals, maxLen, s, first, second);
    r := Done(out);
  }
}
