// The Protocol Buffers wire format, as far as src/protocol/messages.proto needs it:
// base-128 varints, 64-bit fixed fields and length-delimited records.

module Options {
  datatype Option<+T> = None | Some(value: T) {
    function GetOr(default: T): T {
      match this
      case Some(v) => v
      case None => default
    }
  }
}

module Wire {
  import opened Options

  const TWO_TO_63: int := 0x8000_0000_0000_0000
  const TWO_TO_64: int := 0x1_0000_0000_0000_0000

  type Byte = b: int | 0 <= b < 256
  type Bytes = seq<Byte>
  type U64 = n: int | 0 <= n < 0x1_0000_0000_0000_0000
  type I64 = n: int | -0x8000_0000_0000_0000 <= n < 0x8000_0000_0000_0000
  type FieldNumber = n: int | 1 <= n < 0x2000_0000 witness 1

  // ---------- Two's complement ----------

  function ToUnsigned(n: I64): U64 {
    if n < 0 then n + TWO_TO_64 else n
  }

  function ToSigned(n: U64): I64 {
    if n < TWO_TO_63 then n else n - TWO_TO_64
  }

  // ---------- Digits ----------

  function Power(base: nat, k: nat): nat {
    if k == 0 then 1 else base * Power(base, k - 1)
  }

  /** What the first k bytes say: digit i counts base^i, and the high bits of a byte do not count. */
  function DigitSum(s: Bytes, base: nat, k: nat): nat
    requires base > 0 && k <= |s|
  {
    if k == 0 then 0 else DigitSum(s, base, k - 1) + s[k - 1] % base * Power(base, k - 1)
  }

  lemma ShiftDigit(d: nat, base: nat, p: nat)
    ensures d * (base * p) == base * (d * p)
  {
  }

  lemma {:induction false} DigitSumCons(first: Byte, s: Bytes, base: nat, k: nat)
    requires base > 0 && k <= |s|
    ensures DigitSum([first] + s, base, k + 1) == first % base + base * DigitSum(s, base, k)
  {
    var all := [first] + s;
    if k == 0 {
      assert DigitSum(all, base, 0) == 0 && Power(base, 0) == 1;
    } else {
      var d, p := s[k - 1] % base, Power(base, k - 1);
      DigitSumCons(first, s, base, k - 1);
      assert all[k] == s[k - 1];
      assert DigitSum(all, base, k + 1) == DigitSum(all, base, k) + d * (base * p);
      ShiftDigit(d, base, p);
      assert base * (DigitSum(s, base, k - 1) + d * p) == base * DigitSum(s, base, k - 1) + base * (d * p);
    }
  }

  lemma BelowNextPower(d: nat, base: nat, sum: nat, p: nat)
    requires d < base && sum < p
    ensures sum + d * p < base * p
  {
    assert base * p == d * p + p + (base - d - 1) * p;
    assert (base - d - 1) * p >= 0;
  }

  lemma {:induction false} DigitSumIsBelow(s: Bytes, base: nat, k: nat)
    requires base > 0 && k <= |s|
    ensures DigitSum(s, base, k) < Power(base, k)
  {
    if k > 0 {
      DigitSumIsBelow(s, base, k - 1);
      BelowNextPower(s[k - 1] % base, base, DigitSum(s, base, k - 1), Power(base, k - 1));
    }
  }

  lemma {:induction false} PowersGrow(base: nat, j: nat, k: nat)
    requires base > 0 && j <= k
    ensures Power(base, j) <= Power(base, k)
    decreases k
  {
    if j < k {
      PowersGrow(base, j, k - 1);
      assert base * Power(base, k - 1) == Power(base, k - 1) + (base - 1) * Power(base, k - 1);
      assert (base - 1) * Power(base, k - 1) >= 0;
    }
  }

  // ---------- Base 128 varints ----------

  /** Seven bits a byte, low ones first; every byte but the last one has its high bit set. */
  function Varint(n: nat): (s: Bytes)
    ensures s != [] && s[|s| - 1] < 128
    ensures forall i :: 0 <= i < |s| - 1 ==> s[i] >= 128
  {
    if n < 128 then [n] else [128 + n % 128] + Varint(n / 128)
  }

  /** Reads a varint of at most `left` bytes; yields its value and what follows it. */
  function ReadVarint(s: Bytes, left: nat): (r: Option<(nat, Bytes)>)
    ensures r.Some? ==> |r.value.1| < |s|
  {
    if s == [] || left == 0 then None
    else if s[0] < 128 then Some((s[0], s[1..]))
    else
      match ReadVarint(s[1..], left - 1)
      case None => None
      case Some((high, rest)) => Some((s[0] - 128 + 128 * high, rest))
  }

  lemma {:induction false} VarintRoundTrip(n: nat, left: nat, rest: Bytes)
    requires 1 <= left && n < Power(128, left)
    ensures ReadVarint(Varint(n) + rest, left) == Some((n, rest))
  {
    var s := Varint(n) + rest;
    if n < 128 {
      assert s[1..] == rest;
    } else {
      assert s[1..] == Varint(n / 128) + rest;
      VarintRoundTrip(n / 128, left - 1, rest);
    }
  }

  /** Ten bytes hold every 64-bit value. */
  lemma Varint64RoundTrip(n: U64, rest: Bytes)
    ensures ReadVarint(Varint(n) + rest, 10) == Some((n, rest))
  {
    assert Power(128, 5) == 0x8_0000_0000 by {
      assert Power(128, 2) == 0x4000;
    }
    assert Power(128, 10) == Power(128, 5) * 0x8_0000_0000 by {
      assert Power(128, 7) == Power(128, 5) * 0x4000;
      assert Power(128, 9) == Power(128, 7) * 0x4000;
    }
    VarintRoundTrip(n, 10, rest);
  }

  lemma DigitsOf(base: nat, first: Byte, rest: Bytes, s: Bytes, low: nat, high: nat)
    requires base > 0 && s == [first] + rest && first % base == low && DigitSum(rest, base, |rest|) == high
    ensures DigitSum(s, base, |s|) == low + base * high
  {
    DigitSumCons(first, rest, base, |rest|);
  }

  lemma {:induction false} VarintValue(n: nat)
    ensures DigitSum(Varint(n), 128, |Varint(n)|) == n
  {
    if n < 128 {
      assert DigitSum([], 128, 0) == 0;
      DigitsOf(128, n, [], Varint(n), n, 0);
    } else {
      VarintValue(n / 128);
      DigitsOf(128, 128 + n % 128, Varint(n / 128), Varint(n), n % 128, n / 128);
    }
  }

  lemma {:induction false} VarintLength(n: nat)
    ensures |Varint(n)| > 1 ==> Power(128, |Varint(n)| - 1) <= n
  {
    if n >= 128 {
      var rest := Varint(n / 128);
      assert |rest| > 1 ==> Power(128, |rest| - 1) <= n / 128 by {
        VarintLength(n / 128);
      }
      assert Power(128, |rest|) == 128 * Power(128, |rest| - 1);
      assert |rest| == 1 ==> Power(128, 0) == 1;
    }
  }

  /** What a varint means: the seven low bits of byte i count 128^i, the high bit says whether another
      byte follows, and no shorter sequence of bytes means the same. */
  lemma VarintMeans(n: nat, other: Bytes)
    ensures DigitSum(Varint(n), 128, |Varint(n)|) == n
    ensures forall i :: 0 <= i < |Varint(n)| ==> (Varint(n)[i] >= 128 <==> i < |Varint(n)| - 1)
    ensures other != [] && DigitSum(other, 128, |other|) == n ==> |Varint(n)| <= |other|
  {
    VarintValue(n);
    VarintLength(n);
    if other != [] && |other| < |Varint(n)| {
      DigitSumIsBelow(other, 128, |other|);
      PowersGrow(128, |other|, |Varint(n)| - 1);
    }
  }

  // ---------- Little-endian fixed-width integers ----------

  function LittleEndian(n: nat, width: nat): (s: Bytes)
    ensures |s| == width
  {
    if width == 0 then [] else [n % 256] + LittleEndian(n / 256, width - 1)
  }

  function FromLittleEndian(s: Bytes): nat {
    if s == [] then 0 else s[0] + 256 * FromLittleEndian(s[1..])
  }

  lemma {:induction false} LittleEndianRoundTrip(n: nat, width: nat)
    requires n < Power(256, width)
    ensures FromLittleEndian(LittleEndian(n, width)) == n
  {
    if width > 0 {
      assert LittleEndian(n, width)[1..] == LittleEndian(n / 256, width - 1);
      LittleEndianRoundTrip(n / 256, width - 1);
    }
  }

  /** What a fixed-width integer means: byte i counts 256^i. */
  lemma {:induction false} LittleEndianMeans(n: nat, width: nat)
    requires n < Power(256, width)
    ensures DigitSum(LittleEndian(n, width), 256, width) == n
  {
    if width > 0 {
      var rest := LittleEndian(n / 256, width - 1);
      assert DigitSum(rest, 256, width - 1) == n / 256 by {
        LittleEndianMeans(n / 256, width - 1);
      }
      DigitsOf(256, n % 256, rest, LittleEndian(n, width), n % 256, n / 256);
    }
  }

  lemma Fixed64RoundTrip(n: U64)
    ensures FromLittleEndian(LittleEndian(n, 8)) == n
  {
    assert Power(256, 8) == TWO_TO_64 by {
      assert Power(256, 2) == 0x1_0000;
      assert Power(256, 4) == 0x1_0000_0000;
      assert Power(256, 6) == 0x1_0000_0000_0000;
    }
    LittleEndianRoundTrip(n, 8);
  }

  // ---------- Records: a message is a sequence of numbered fields ----------

  datatype Field =
    | VarintField(number: FieldNumber, value: U64)
    | Fixed64Field(number: FieldNumber, value: U64)
    | BytesField(number: FieldNumber, payload: Bytes)

  datatype WireType = VARINT | I64BIT | LEN

  function WireTypeOf(f: Field): WireType {
    match f
    case VarintField(_, _) => VARINT
    case Fixed64Field(_, _) => I64BIT
    case BytesField(_, _) => LEN
  }

  function WireCode(w: WireType): nat {
    match w
    case VARINT => 0
    case I64BIT => 1
    case LEN => 2
  }

  function Content(f: Field): Bytes {
    match f
    case VarintField(_, value) => Varint(value)
    case Fixed64Field(_, value) => LittleEndian(value, 8)
    case BytesField(_, payload) => Varint(|payload|) + payload
  }

  function WriteField(f: Field): Bytes {
    Varint(f.number * 8 + WireCode(WireTypeOf(f))) + Content(f)
  }

  function WriteFields(fs: seq<Field>): Bytes {
    if fs == [] then [] else WriteField(fs[0]) + WriteFields(fs[1..])
  }

  /** One field at the front of `s`. None when it is truncated, has field number 0, or has a
      wire type that the schema never uses. */
  function ReadField(s: Bytes): (r: Option<(Field, Bytes)>)
    ensures r.Some? ==> |r.value.1| < |s|
  {
    match ReadVarint(s, 10)
    case None => None
    case Some((tag, body)) =>
      if !(1 <= tag / 8 < 0x2000_0000) then None
      else if tag % 8 == 0 then ReadVarintField(tag / 8, body)
      else if tag % 8 == 1 then ReadFixed64Field(tag / 8, body)
      else if tag % 8 == 2 then ReadBytesField(tag / 8, body)
      else None
  }

  function ReadVarintField(number: FieldNumber, body: Bytes): (r: Option<(Field, Bytes)>)
    ensures r.Some? ==> |r.value.1| <= |body|
  {
    match ReadVarint(body, 10)
    case None => None
    case Some((value, rest)) => Some((VarintField(number, value % TWO_TO_64), rest))
  }

  function ReadFixed64Field(number: FieldNumber, body: Bytes): (r: Option<(Field, Bytes)>)
    ensures r.Some? ==> |r.value.1| <= |body|
  {
    if |body| < 8 then None
    else Some((Fixed64Field(number, FromLittleEndian(body[..8]) % TWO_TO_64), body[8..]))
  }

  function ReadBytesField(number: FieldNumber, body: Bytes): (r: Option<(Field, Bytes)>)
    ensures r.Some? ==> |r.value.1| <= |body|
  {
    match ReadVarint(body, 10)
    case None => None
    case Some((length, rest)) =>
      if |rest| < length then None
      else Some((BytesField(number, rest[..length]), rest[length..]))
  }

  function ReadFields(s: Bytes): Option<seq<Field>>
    decreases |s|
  {
    if s == [] then Some([])
    else
      match ReadField(s)
      case None => None
      case Some((f, rest)) =>
        match ReadFields(rest)
        case None => None
        case Some(fs) => Some([f] + fs)
  }

  function ReadContent(number: FieldNumber, wire: WireType, body: Bytes): Option<(Field, Bytes)> {
    match wire
    case VARINT => ReadVarintField(number, body)
    case I64BIT => ReadFixed64Field(number, body)
    case LEN => ReadBytesField(number, body)
  }

  /** The reader takes the branch of the wire type that was written in the tag. */
  lemma ReadTag(number: FieldNumber, wire: WireType, body: Bytes)
    ensures ReadField(Varint(number * 8 + WireCode(wire)) + body) == ReadContent(number, wire, body)
  {
    var tag := number * 8 + WireCode(wire);
    Varint64RoundTrip(tag, body);
    assert tag / 8 == number && tag % 8 == WireCode(wire);
  }

  lemma ReadValue(number: FieldNumber, value: U64, rest: Bytes)
    ensures ReadVarintField(number, Varint(value) + rest) == Some((VarintField(number, value), rest))
  {
    Varint64RoundTrip(value, rest);
  }

  lemma ReadFixed(number: FieldNumber, value: U64, rest: Bytes)
    ensures ReadFixed64Field(number, LittleEndian(value, 8) + rest) == Some((Fixed64Field(number, value), rest))
  {
    var content := LittleEndian(value, 8) + rest;
    assert content[..8] == LittleEndian(value, 8) && content[8..] == rest;
    Fixed64RoundTrip(value);
  }

  lemma ReadRecord(number: FieldNumber, s: Bytes, length: nat, tail: Bytes)
    requires ReadVarint(s, 10) == Some((length, tail)) && length <= |tail|
    ensures ReadBytesField(number, s) == Some((BytesField(number, tail[..length]), tail[length..]))
  {
  }

  lemma ReadPayload(number: FieldNumber, payload: Bytes, rest: Bytes)
    requires |payload| < TWO_TO_64
    ensures ReadBytesField(number, Varint(|payload|) + payload + rest) == Some((BytesField(number, payload), rest))
  {
    var s, tail := Varint(|payload|) + payload + rest, payload + rest;
    assert s == Varint(|payload|) + tail;
    Varint64RoundTrip(|payload|, tail);
    ReadRecord(number, s, |payload|, tail);
    assert tail[..|payload|] == payload && tail[|payload|..] == rest;
  }

  lemma ContentRoundTrip(f: Field, rest: Bytes)
    requires f.BytesField? ==> |f.payload| < TWO_TO_64
    ensures ReadContent(f.number, WireTypeOf(f), Content(f) + rest) == Some((f, rest))
  {
    match f
    case VarintField(number, value) => ReadValue(number, value, rest);
    case Fixed64Field(number, value) => ReadFixed(number, value, rest);
    case BytesField(number, payload) => ReadPayload(number, payload, rest);
  }

  lemma FieldRoundTrip(f: Field, rest: Bytes)
    requires f.BytesField? ==> |f.payload| < TWO_TO_64
    ensures ReadField(WriteField(f) + rest) == Some((f, rest))
  {
    var tag, content := Varint(f.number * 8 + WireCode(WireTypeOf(f))), Content(f);
    assert tag + content + rest == tag + (content + rest);
    ReadTag(f.number, WireTypeOf(f), content + rest);
    ContentRoundTrip(f, rest);
  }

  lemma PayloadFits(f: Field)
    requires f.BytesField?
    ensures |f.payload| < |WriteField(f)|
  {
  }

  /** Whatever fields are written are the fields that are read back, in the same order. */
  lemma {:induction false} FieldsRoundTrip(fs: seq<Field>)
    requires |WriteFields(fs)| < TWO_TO_64
    ensures ReadFields(WriteFields(fs)) == Some(fs)
  {
    if fs != [] {
      var f, rest := fs[0], WriteFields(fs[1..]);
      assert WriteFields(fs) == WriteField(f) + rest;
      if f.BytesField? {
        PayloadFits(f);
      }
      FieldRoundTrip(f, rest);
      FieldsRoundTrip(fs[1..]);
      assert fs == [f] + fs[1..];
    }
  }

  // ---------- Looking fields up ----------

  /** A singular field takes the last occurrence with its number and wire type. */
  function Last(fs: seq<Field>, number: FieldNumber, wire: WireType): (r: Option<Field>)
    ensures r.Some? ==> r.value.number == number && WireTypeOf(r.value) == wire
  {
    if fs == [] then None
    else
      var later := Last(fs[1..], number, wire);
      if later.Some? then later
      else if fs[0].number == number && WireTypeOf(fs[0]) == wire then Some(fs[0])
      else None
  }

  lemma {:induction false} LastOfConcat(a: seq<Field>, b: seq<Field>, number: FieldNumber, wire: WireType)
    ensures Last(a + b, number, wire)
         == if Last(b, number, wire).Some? then Last(b, number, wire) else Last(a, number, wire)
  {
    if a == [] {
      assert a + b == b;
    } else {
      assert (a + b)[1..] == a[1..] + b;
      LastOfConcat(a[1..], b, number, wire);
    }
  }

  /** A repeated record collects every payload with its number. */
  function Payloads(fs: seq<Field>, number: FieldNumber): seq<Bytes> {
    if fs == [] then []
    else (if fs[0].BytesField? && fs[0].number == number then [fs[0].payload] else []) + Payloads(fs[1..], number)
  }
}
