// The messages of src/protocol/messages.proto and their encoding.

module Messages {
  import opened Options
  import opened Wire

  datatype ResponseStatus = OK | FAILED | INVALID_ARGUMENT

  datatype MessageType =
    | REQUEST_ADD_VAR
    | REQUEST_SAVE_VALUE
    | REQUEST_GET_VALUES
    | REQUEST_GET_VARIABLES
    | RESPONSE_FAILURE
    | RESPONSE_VALUES
    | RESPONSE_VARIABLES

  function StatusCode(s: ResponseStatus): U64 {
    match s
    case OK => 0
    case FAILED => 1
    case INVALID_ARGUMENT => 2
  }

  /** An enum is read from a varint as an int, of which the low 32 bits count. */
  function Narrow(code: U64): U64 {
    code % 0x1_0000_0000
  }

  /** An enum value the schema does not list counts as an absent field. */
  function StatusOf(code: U64): Option<ResponseStatus> {
    var n := Narrow(code);
    if n == 0 then Some(OK)
    else if n == 1 then Some(FAILED)
    else if n == 2 then Some(INVALID_ARGUMENT)
    else None
  }

  function TypeCode(t: MessageType): (code: U64)
    ensures code < 128
  {
    match t
    case REQUEST_ADD_VAR => 1
    case REQUEST_SAVE_VALUE => 5
    case REQUEST_GET_VALUES => 10
    case REQUEST_GET_VARIABLES => 11
    case RESPONSE_FAILURE => 15
    case RESPONSE_VALUES => 20
    case RESPONSE_VARIABLES => 25
  }

  function TypeOf(code: U64): Option<MessageType> {
    var n := Narrow(code);
    if n == 1 then Some(REQUEST_ADD_VAR)
    else if n == 5 then Some(REQUEST_SAVE_VALUE)
    else if n == 10 then Some(REQUEST_GET_VALUES)
    else if n == 11 then Some(REQUEST_GET_VARIABLES)
    else if n == 15 then Some(RESPONSE_FAILURE)
    else if n == 20 then Some(RESPONSE_VALUES)
    else if n == 25 then Some(RESPONSE_VARIABLES)
    else None
  }

  // A double travels as its 64-bit pattern, so `value` below is that pattern.
  datatype MetaHeader = MetaHeader(headerSize: U64)
  datatype Header = Header(msgType: MessageType, bodySize: U64)
  datatype SaveVariable = SaveVariable(name: Bytes, color: Bytes)
  datatype SaveValue = SaveValue(variable: Bytes, value: U64)
  datatype Failure = Failure(status: ResponseStatus, msg: Option<Bytes>, prevMsg: Option<MessageType>)
  datatype GetValues = GetValues(variable: Bytes, start: Option<I64>, end: Option<I64>)
  datatype VarValue = VarValue(name: Bytes, value: U64, timestamp: U64)

  /** A code is that of an enum value if its low 32 bits are. */
  lemma EnumsAreNarrowed(code: U64, t: MessageType, s: ResponseStatus)
    ensures TypeOf(code) == Some(t) <==> code % 0x1_0000_0000 == TypeCode(t)
    ensures StatusOf(code) == Some(s) <==> code % 0x1_0000_0000 == StatusCode(s)
  {
  }

  // ---------- Messages as fields ----------

  function MetaHeaderFields(m: MetaHeader): seq<Field> { [Fixed64Field(1, m.headerSize)] }

  function HeaderFields(m: Header): seq<Field> {
    [VarintField(1, TypeCode(m.msgType)), Fixed64Field(2, m.bodySize)]
  }

  function SaveVariableFields(m: SaveVariable): seq<Field> { [BytesField(1, m.name), BytesField(5, m.color)] }

  function SaveValueFields(m: SaveValue): seq<Field> { [BytesField(1, m.variable), Fixed64Field(2, m.value)] }

  function FailureFields(m: Failure): seq<Field> {
    [VarintField(1, StatusCode(m.status))]
    + (if m.msg.Some? then [BytesField(2, m.msg.value)] else [])
    + (if m.prevMsg.Some? then [VarintField(3, TypeCode(m.prevMsg.value))] else [])
  }

  function GetValuesFields(m: GetValues): seq<Field> {
    [BytesField(1, m.variable)]
    + (if m.start.Some? then [VarintField(2, ToUnsigned(m.start.value))] else [])
    + (if m.end.Some? then [VarintField(3, ToUnsigned(m.end.value))] else [])
  }

  function VarValueFields(m: VarValue): seq<Field> {
    [BytesField(1, m.name), Fixed64Field(2, m.value), VarintField(3, m.timestamp)]
  }

  function ValuesFields(vs: seq<VarValue>): seq<Field> {
    if vs == [] then []
    else [BytesField(1, WriteFields(VarValueFields(vs[0])))] + ValuesFields(vs[1..])
  }

  function VariablesFields(vs: seq<SaveVariable>): seq<Field> {
    if vs == [] then []
    else [BytesField(1, WriteFields(SaveVariableFields(vs[0])))] + VariablesFields(vs[1..])
  }

  // ---------- Messages from fields; None when a required field is missing ----------

  function MetaHeaderOf(fs: seq<Field>): Option<MetaHeader> {
    match Last(fs, 1, I64BIT)
    case None => None
    case Some(f) => Some(MetaHeader(f.value))
  }

  function HeaderOf(fs: seq<Field>): Option<Header> {
    match (Last(fs, 1, VARINT), Last(fs, 2, I64BIT))
    case (Some(t), Some(size)) =>
      (match TypeOf(t.value)
       case None => None
       case Some(msgType) => Some(Header(msgType, size.value)))
    case _ => None
  }

  function SaveVariableOf(fs: seq<Field>): Option<SaveVariable> {
    match (Last(fs, 1, LEN), Last(fs, 5, LEN))
    case (Some(name), Some(color)) => Some(SaveVariable(name.payload, color.payload))
    case _ => None
  }

  function SaveValueOf(fs: seq<Field>): Option<SaveValue> {
    match (Last(fs, 1, LEN), Last(fs, 2, I64BIT))
    case (Some(name), Some(value)) => Some(SaveValue(name.payload, value.value))
    case _ => None
  }

  function FailureOf(fs: seq<Field>): Option<Failure> {
    match Last(fs, 1, VARINT)
    case None => None
    case Some(s) =>
      match StatusOf(s.value)
      case None => None
      case Some(status) =>
        var msg := Last(fs, 2, LEN);
        var prev := Last(fs, 3, VARINT);
        Some(Failure(status,
                     if msg.Some? then Some(msg.value.payload) else None,
                     if prev.Some? then TypeOf(prev.value.value) else None))
  }

  function GetValuesOf(fs: seq<Field>): Option<GetValues> {
    match Last(fs, 1, LEN)
    case None => None
    case Some(name) =>
      var start := Last(fs, 2, VARINT);
      var end := Last(fs, 3, VARINT);
      Some(GetValues(name.payload,
                     if start.Some? then Some(ToSigned(start.value.value)) else None,
                     if end.Some? then Some(ToSigned(end.value.value)) else None))
  }

  function VarValueOf(fs: seq<Field>): Option<VarValue> {
    match (Last(fs, 1, LEN), Last(fs, 2, I64BIT), Last(fs, 3, VARINT))
    case (Some(name), Some(value), Some(timestamp)) =>
      Some(VarValue(name.payload, value.value, timestamp.value))
    case _ => None
  }

  // ---------- Bytes ----------

  function EncodeMetaHeader(m: MetaHeader): Bytes { WriteFields(MetaHeaderFields(m)) }
  function EncodeHeader(m: Header): Bytes { WriteFields(HeaderFields(m)) }
  function EncodeSaveVariable(m: SaveVariable): Bytes { WriteFields(SaveVariableFields(m)) }
  function EncodeSaveValue(m: SaveValue): Bytes { WriteFields(SaveValueFields(m)) }
  function EncodeFailure(m: Failure): Bytes { WriteFields(FailureFields(m)) }
  function EncodeGetValues(m: GetValues): Bytes { WriteFields(GetValuesFields(m)) }
  function EncodeVarValue(m: VarValue): Bytes { WriteFields(VarValueFields(m)) }
  function EncodeValues(vs: seq<VarValue>): Bytes { WriteFields(ValuesFields(vs)) }
  function EncodeVariables(vs: seq<SaveVariable>): Bytes { WriteFields(VariablesFields(vs)) }

  function DecodeWith<T>(s: Bytes, of: seq<Field> -> Option<T>): Option<T> {
    match ReadFields(s)
    case None => None
    case Some(fs) => of(fs)
  }

  function DecodeMetaHeader(s: Bytes): Option<MetaHeader> { DecodeWith(s, MetaHeaderOf) }
  function DecodeHeader(s: Bytes): Option<Header> { DecodeWith(s, HeaderOf) }
  function DecodeSaveVariable(s: Bytes): Option<SaveVariable> { DecodeWith(s, SaveVariableOf) }
  function DecodeSaveValue(s: Bytes): Option<SaveValue> { DecodeWith(s, SaveValueOf) }
  function DecodeFailure(s: Bytes): Option<Failure> { DecodeWith(s, FailureOf) }
  function DecodeGetValues(s: Bytes): Option<GetValues> { DecodeWith(s, GetValuesOf) }
  function DecodeVarValue(s: Bytes): Option<VarValue> { DecodeWith(s, VarValueOf) }

  function DecodeAll<T>(bodies: seq<Bytes>, decode: Bytes -> Option<T>): Option<seq<T>> {
    if bodies == [] then Some([])
    else
      match (decode(bodies[0]), DecodeAll(bodies[1..], decode))
      case (Some(x), Some(xs)) => Some([x] + xs)
      case _ => None
  }

  function DecodeValues(s: Bytes): Option<seq<VarValue>> {
    DecodeWith(s, fs => DecodeAll(Payloads(fs, 1), DecodeVarValue))
  }

  function DecodeVariables(s: Bytes): Option<seq<SaveVariable>> {
    DecodeWith(s, fs => DecodeAll(Payloads(fs, 1), DecodeSaveVariable))
  }

  // ---------- Messages survive the trip through their fields ----------

  /** Looking up in up to three groups of fields: the last group that has one wins. */
  lemma LookUp3(a: seq<Field>, b: seq<Field>, c: seq<Field>, number: FieldNumber, wire: WireType)
    ensures Last(a + b + c, number, wire)
         == if Last(c, number, wire).Some? then Last(c, number, wire)
            else if Last(b, number, wire).Some? then Last(b, number, wire)
            else Last(a, number, wire)
  {
    LastOfConcat(a + b, c, number, wire);
    LastOfConcat(a, b, number, wire);
  }

  lemma Single(f: Field, number: FieldNumber, wire: WireType)
    ensures Last([f], number, wire) == if f.number == number && WireTypeOf(f) == wire then Some(f) else None
  {
    assert Last([f][1..], number, wire) == None;
  }

  lemma MetaHeaderFromFields(m: MetaHeader)
    ensures MetaHeaderOf(MetaHeaderFields(m)) == Some(m)
  {
    Single(Fixed64Field(1, m.headerSize), 1, I64BIT);
  }

  lemma HeaderFromFields(m: Header)
    ensures HeaderOf(HeaderFields(m)) == Some(m)
  {
    var t, size := VarintField(1, TypeCode(m.msgType)), Fixed64Field(2, m.bodySize);
    assert HeaderFields(m) == [t] + [size];
    LastOfConcat([t], [size], 1, VARINT);
    LastOfConcat([t], [size], 2, I64BIT);
    Single(t, 1, VARINT);
    Single(size, 1, VARINT);
    Single(size, 2, I64BIT);
    assert TypeOf(TypeCode(m.msgType)) == Some(m.msgType);
  }

  lemma SaveVariableFromFields(m: SaveVariable)
    ensures SaveVariableOf(SaveVariableFields(m)) == Some(m)
  {
    var name, color := BytesField(1, m.name), BytesField(5, m.color);
    assert SaveVariableFields(m) == [name] + [color];
    LastOfConcat([name], [color], 1, LEN);
    LastOfConcat([name], [color], 5, LEN);
    Single(name, 1, LEN);
    Single(color, 1, LEN);
    Single(color, 5, LEN);
  }

  lemma SaveValueFromFields(m: SaveValue)
    ensures SaveValueOf(SaveValueFields(m)) == Some(m)
  {
    var name, value := BytesField(1, m.variable), Fixed64Field(2, m.value);
    assert SaveValueFields(m) == [name] + [value];
    LastOfConcat([name], [value], 1, LEN);
    LastOfConcat([name], [value], 2, I64BIT);
    Single(name, 1, LEN);
    Single(value, 1, LEN);
    Single(value, 2, I64BIT);
  }

  lemma OptionalField(present: bool, f: Field, number: FieldNumber, wire: WireType)
    ensures Last(if present then [f] else [], number, wire)
         == if present && f.number == number && WireTypeOf(f) == wire then Some(f) else None
  {
    if present {
      Single(f, number, wire);
    }
  }

  lemma FailureFromFields(m: Failure)
    ensures FailureOf(FailureFields(m)) == Some(m)
  {
    var status := VarintField(1, StatusCode(m.status));
    var msg := BytesField(2, m.msg.GetOr([]));
    var prev := VarintField(3, TypeCode(m.prevMsg.GetOr(REQUEST_ADD_VAR)));
    var msgs, prevs := if m.msg.Some? then [msg] else [], if m.prevMsg.Some? then [prev] else [];
    assert FailureFields(m) == [status] + msgs + prevs;
    forall number: FieldNumber, wire | 1 <= number <= 3
      ensures Last(FailureFields(m), number, wire)
           == if number == 1 && wire == VARINT then Some(status)
              else if number == 2 && wire == LEN && m.msg.Some? then Some(msg)
              else if number == 3 && wire == VARINT && m.prevMsg.Some? then Some(prev)
              else None
    {
      LookUp3([status], msgs, prevs, number, wire);
      Single(status, number, wire);
      OptionalField(m.msg.Some?, msg, number, wire);
      OptionalField(m.prevMsg.Some?, prev, number, wire);
    }
  }

  lemma GetValuesFromFields(m: GetValues)
    ensures GetValuesOf(GetValuesFields(m)) == Some(m)
  {
    var name := BytesField(1, m.variable);
    var start := VarintField(2, ToUnsigned(m.start.GetOr(0)));
    var end := VarintField(3, ToUnsigned(m.end.GetOr(0)));
    var starts, ends := if m.start.Some? then [start] else [], if m.end.Some? then [end] else [];
    assert GetValuesFields(m) == [name] + starts + ends;
    forall number: FieldNumber, wire | 1 <= number <= 3
      ensures Last(GetValuesFields(m), number, wire)
           == if number == 1 && wire == LEN then Some(name)
              else if number == 2 && wire == VARINT && m.start.Some? then Some(start)
              else if number == 3 && wire == VARINT && m.end.Some? then Some(end)
              else None
    {
      LookUp3([name], starts, ends, number, wire);
      Single(name, number, wire);
      OptionalField(m.start.Some?, start, number, wire);
      OptionalField(m.end.Some?, end, number, wire);
    }
  }

  lemma VarValueFromFields(m: VarValue)
    ensures VarValueOf(VarValueFields(m)) == Some(m)
  {
    var name, value, timestamp := BytesField(1, m.name), Fixed64Field(2, m.value), VarintField(3, m.timestamp);
    assert VarValueFields(m) == [name] + [value] + [timestamp];
    forall number: FieldNumber, wire
      ensures Last(VarValueFields(m), number, wire)
           == if number == 1 && wire == LEN then Some(name)
              else if number == 2 && wire == I64BIT then Some(value)
              else if number == 3 && wire == VARINT then Some(timestamp)
              else None
    {
      LookUp3([name], [value], [timestamp], number, wire);
      Single(name, number, wire);
      Single(value, number, wire);
      Single(timestamp, number, wire);
    }
  }

  // ---------- The bytes of a meta header ----------

  /** A small number is its lowest byte and zeros. */
  lemma LittleEndianSmall(n: Byte, width: nat)
    requires width >= 1
    ensures LittleEndian(n, width)[0] == n && forall i :: 1 <= i < width ==> LittleEndian(n, width)[i] == 0
  {
    LittleEndianZero(width - 1);
    assert LittleEndian(n, width) == [n] + LittleEndian(0, width - 1);
  }

  lemma {:induction false} LittleEndianZero(width: nat)
    ensures forall i :: 0 <= i < width ==> LittleEndian(0, width)[i] == 0
  {
    if width > 0 {
      LittleEndianZero(width - 1);
      assert LittleEndian(0, width) == [0] + LittleEndian(0, width - 1);
    }
  }

  /** A meta header for a small header, byte by byte. */
  lemma KnownMetaHeader(n: Byte)
    ensures EncodeMetaHeader(MetaHeader(n)) == [0x09, n, 0, 0, 0, 0, 0, 0, 0]
  {
    var size := Fixed64Field(1, n);
    LittleEndianSmall(n, 8);
    assert LittleEndian(n, 8) == [n, 0, 0, 0, 0, 0, 0, 0];
    assert WriteField(size) == [0x09] + LittleEndian(n, 8);
    assert WriteFields([size]) == WriteField(size) + WriteFields([]);
  }

  // ---------- The bytes of every message ----------

  lemma TwoFields(f: Field, g: Field)
    ensures WriteFields([f]) == WriteField(f) && WriteFields([f, g]) == WriteField(f) + WriteField(g)
  {
    assert WriteFields([f]) == WriteField(f) + WriteFields([]);
    assert WriteFields([g]) == WriteField(g) + WriteFields([]);
    assert [f, g][1..] == [g];
  }

  lemma {:induction false} WriteConcat(fs: seq<Field>, gs: seq<Field>)
    ensures WriteFields(fs + gs) == WriteFields(fs) + WriteFields(gs)
  {
    if fs == [] {
      assert fs + gs == gs;
    } else {
      assert (fs + gs)[1..] == fs[1..] + gs;
      WriteConcat(fs[1..], gs);
    }
  }

  /** The three kinds of fields, with a number below 16: the tag is one byte. */
  lemma FieldBytes(number: FieldNumber, value: U64, payload: Bytes)
    requires number < 16
    ensures WriteField(VarintField(number, value)) == [number * 8] + Varint(value)
    ensures WriteField(Fixed64Field(number, value)) == [number * 8 + 1] + LittleEndian(value, 8)
    ensures WriteField(BytesField(number, payload)) == [number * 8 + 2] + Varint(|payload|) + payload
  {
    SmallVarint(number * 8);
    SmallVarint(number * 8 + 1);
    SmallVarint(number * 8 + 2);
    var tag := [number * 8 + 2];
    assert WriteField(BytesField(number, payload)) == tag + (Varint(|payload|) + payload);
  }

  lemma SmallVarint(n: nat)
    requires n < 128
    ensures Varint(n) == [n]
  {
  }

  /** A Header: type code and body size. */
  lemma HeaderBytes(m: Header)
    ensures EncodeHeader(m)
         == [0x08, match m.msgType
                   case REQUEST_ADD_VAR => 1
                   case REQUEST_SAVE_VALUE => 5
                   case REQUEST_GET_VALUES => 10
                   case REQUEST_GET_VARIABLES => 11
                   case RESPONSE_FAILURE => 15
                   case RESPONSE_VALUES => 20
                   case RESPONSE_VARIABLES => 25]
            + [0x11] + LittleEndian(m.bodySize, 8)
  {
    FieldBytes(1, TypeCode(m.msgType), []);
    FieldBytes(2, m.bodySize, []);
    TwoFields(VarintField(1, TypeCode(m.msgType)), Fixed64Field(2, m.bodySize));
  }

  lemma SaveVariableBytes(m: SaveVariable, name: Bytes, color: Bytes)
    requires name == [0x0A] + Varint(|m.name|) + m.name && color == [0x2A] + Varint(|m.color|) + m.color
    ensures EncodeSaveVariable(m) == name + color
  {
    WritesText(1, m.name, name);
    WritesText(5, m.color, color);
    TwoFields(BytesField(1, m.name), BytesField(5, m.color));
  }

  lemma SaveValueBytes(m: SaveValue, variable: Bytes, value: Bytes)
    requires variable == [0x0A] + Varint(|m.variable|) + m.variable && value == [0x11] + LittleEndian(m.value, 8)
    ensures EncodeSaveValue(m) == variable + value
  {
    WritesText(1, m.variable, variable);
    WritesFixed(2, m.value, value);
    TwoFields(BytesField(1, m.variable), Fixed64Field(2, m.value));
  }

  /** A field that may be missing. */
  predicate Writes(fs: seq<Field>, bytes: Bytes) {
    if fs == [] then bytes == [] else |fs| == 1 && bytes == WriteField(fs[0])
  }

  lemma OneWrites(fs: seq<Field>, bytes: Bytes)
    requires Writes(fs, bytes)
    ensures WriteFields(fs) == bytes
  {
    if fs != [] {
      assert fs == [fs[0]];
      TwoFields(fs[0], fs[0]);
    }
  }

  lemma ThreeFields(fs: seq<Field>, gs: seq<Field>, hs: seq<Field>, f: Bytes, g: Bytes, h: Bytes)
    requires Writes(fs, f) && Writes(gs, g) && Writes(hs, h)
    ensures WriteFields(fs + gs + hs) == f + g + h
  {
    WriteConcat(fs + gs, hs);
    WriteConcat(fs, gs);
    OneWrites(fs, f);
    OneWrites(gs, g);
    OneWrites(hs, h);
  }

  lemma WritesText(number: FieldNumber, payload: Bytes, bytes: Bytes)
    requires number < 16 && bytes == [number * 8 + 2] + Varint(|payload|) + payload
    ensures Writes([BytesField(number, payload)], bytes)
  {
    FieldBytes(number, 0, payload);
  }

  lemma WritesFixed(number: FieldNumber, value: U64, bytes: Bytes)
    requires number < 16 && bytes == [number * 8 + 1] + LittleEndian(value, 8)
    ensures Writes([Fixed64Field(number, value)], bytes)
  {
    FieldBytes(number, value, []);
  }

  lemma WritesNumber(number: FieldNumber, value: U64, bytes: Bytes)
    requires number < 16 && bytes == [number * 8] + Varint(value)
    ensures Writes([VarintField(number, value)], bytes)
  {
    FieldBytes(number, value, []);
  }

  /** A status, a text if there is one, and the type of a request if there is one. */
  lemma FailureBytes(m: Failure, status: Bytes, msg: Bytes, prevMsg: Bytes)
    requires status == [0x08, match m.status case OK => 0 case FAILED => 1 case INVALID_ARGUMENT => 2]
    requires msg == match m.msg case None => [] case Some(text) => [0x12] + Varint(|text|) + text
    requires prevMsg == match m.prevMsg case None => [] case Some(t) => [0x18, TypeCode(t)]
    ensures EncodeFailure(m) == status + msg + prevMsg
  {
    var fs := [VarintField(1, StatusCode(m.status))];
    var gs := if m.msg.Some? then [BytesField(2, m.msg.value)] else [];
    var hs := if m.prevMsg.Some? then [VarintField(3, TypeCode(m.prevMsg.value))] else [];
    StatusBytes(m.status, status);
    if m.msg.Some? {
      WritesText(2, m.msg.value, msg);
    }
    if m.prevMsg.Some? {
      TypeBytes(m.prevMsg.value, prevMsg);
    }
    assert FailureFields(m) == fs + gs + hs;
    ThreeFields(fs, gs, hs, status, msg, prevMsg);
  }

  lemma StatusBytes(s: ResponseStatus, bytes: Bytes)
    requires bytes == [0x08, match s case OK => 0 case FAILED => 1 case INVALID_ARGUMENT => 2]
    ensures Writes([VarintField(1, StatusCode(s))], bytes)
  {
    assert Varint(StatusCode(s)) == [StatusCode(s)];
    WritesNumber(1, StatusCode(s), bytes);
  }

  lemma TypeBytes(t: MessageType, bytes: Bytes)
    requires bytes == [0x18, TypeCode(t)]
    ensures Writes([VarintField(3, TypeCode(t))], bytes)
  {
    assert Varint(TypeCode(t)) == [TypeCode(t)];
    WritesNumber(3, TypeCode(t), bytes);
  }

  /** A number in two's complement, if there is one. */
  lemma BoundBytes(number: FieldNumber, bound: Option<I64>, bytes: Bytes)
    requires number < 16
    requires bytes == match bound
                      case None => []
                      case Some(ms) => [number * 8] + Varint(if ms < 0 then ms + TWO_TO_64 else ms)
    ensures Writes(if bound.Some? then [VarintField(number, ToUnsigned(bound.value))] else [], bytes)
  {
    if bound.Some? {
      WritesNumber(number, ToUnsigned(bound.value), bytes);
    }
  }

  /** A name, and the bounds that there are. */
  lemma GetValuesBytes(m: GetValues, name: Bytes, start: Bytes, end: Bytes)
    requires name == [0x0A] + Varint(|m.variable|) + m.variable
    requires start == match m.start
                      case None => [] case Some(ms) => [0x10] + Varint(if ms < 0 then ms + TWO_TO_64 else ms)
    requires end == match m.end
                    case None => [] case Some(ms) => [0x18] + Varint(if ms < 0 then ms + TWO_TO_64 else ms)
    ensures EncodeGetValues(m) == name + start + end
  {
    var fs := [BytesField(1, m.variable)];
    var gs := if m.start.Some? then [VarintField(2, ToUnsigned(m.start.value))] else [];
    var hs := if m.end.Some? then [VarintField(3, ToUnsigned(m.end.value))] else [];
    WritesText(1, m.variable, name);
    BoundBytes(2, m.start, start);
    BoundBytes(3, m.end, end);
    assert GetValuesFields(m) == fs + gs + hs;
    ThreeFields(fs, gs, hs, name, start, end);
  }

  lemma VarValueBytes(m: VarValue, name: Bytes, value: Bytes, timestamp: Bytes)
    requires name == [0x0A] + Varint(|m.name|) + m.name && value == [0x11] + LittleEndian(m.value, 8)
    requires timestamp == [0x18] + Varint(m.timestamp)
    ensures EncodeVarValue(m) == name + value + timestamp
  {
    var fs, gs, hs := [BytesField(1, m.name)], [Fixed64Field(2, m.value)], [VarintField(3, m.timestamp)];
    WritesText(1, m.name, name);
    WritesFixed(2, m.value, value);
    WritesNumber(3, m.timestamp, timestamp);
    assert VarValueFields(m) == fs + gs + hs;
    ThreeFields(fs, gs, hs, name, value, timestamp);
  }

  /** A list of values: each is a record of field 1. */
  lemma ValuesBytes(vs: seq<VarValue>, first: Bytes)
    requires vs != [] && first == EncodeVarValue(vs[0])
    ensures EncodeValues(vs) == [0x0A] + Varint(|first|) + first + EncodeValues(vs[1..])
    ensures EncodeValues([]) == []
  {
    FieldBytes(1, 0, first);
    ValuesCons(vs);
  }

  lemma VariablesBytes(vs: seq<SaveVariable>, first: Bytes)
    requires vs != [] && first == EncodeSaveVariable(vs[0])
    ensures EncodeVariables(vs) == [0x0A] + Varint(|first|) + first + EncodeVariables(vs[1..])
    ensures EncodeVariables([]) == []
  {
    FieldBytes(1, 0, first);
    VariablesCons(vs);
  }

  // ---------- Round trips through bytes ----------

  /** Every MetaHeader takes 9 bytes, so a reader can probe the size with any value. */
  lemma MetaHeaderRoundTrip(m: MetaHeader)
    ensures |EncodeMetaHeader(m)| == 9
    ensures DecodeMetaHeader(EncodeMetaHeader(m)) == Some(m)
  {
    var size := Fixed64Field(1, m.headerSize);
    assert WriteField(size) == Varint(9) + LittleEndian(m.headerSize, 8);
    assert WriteFields([size]) == WriteField(size) + WriteFields([]);
    FieldsRoundTrip(MetaHeaderFields(m));
    MetaHeaderFromFields(m);
  }

  /** Every Header takes 11 bytes, whatever its type and body size. */
  lemma HeaderRoundTrip(m: Header)
    ensures |EncodeHeader(m)| == 11
    ensures DecodeHeader(EncodeHeader(m)) == Some(m)
  {
    var t, size := VarintField(1, TypeCode(m.msgType)), Fixed64Field(2, m.bodySize);
    assert HeaderFields(m)[1..] == [size];
    assert WriteField(t) == Varint(8) + Varint(TypeCode(m.msgType));
    assert WriteField(size) == Varint(17) + LittleEndian(m.bodySize, 8);
    assert WriteFields([size]) == WriteField(size) + WriteFields([]);
    FieldsRoundTrip(HeaderFields(m));
    HeaderFromFields(m);
  }

  lemma SaveVariableRoundTrip(m: SaveVariable)
    requires |EncodeSaveVariable(m)| < TWO_TO_64
    ensures DecodeSaveVariable(EncodeSaveVariable(m)) == Some(m)
  {
    FieldsRoundTrip(SaveVariableFields(m));
    SaveVariableFromFields(m);
  }

  lemma SaveValueRoundTrip(m: SaveValue)
    requires |EncodeSaveValue(m)| < TWO_TO_64
    ensures DecodeSaveValue(EncodeSaveValue(m)) == Some(m)
  {
    FieldsRoundTrip(SaveValueFields(m));
    SaveValueFromFields(m);
  }

  /** A status reply keeps the presence or absence of `msg` and `prev_msg`. */
  lemma FailureRoundTrip(m: Failure)
    requires |EncodeFailure(m)| < TWO_TO_64
    ensures DecodeFailure(EncodeFailure(m)) == Some(m)
  {
    FieldsRoundTrip(FailureFields(m));
    FailureFromFields(m);
  }

  /** A range request keeps the presence and the sign of both bounds. */
  lemma GetValuesRoundTrip(m: GetValues)
    requires |EncodeGetValues(m)| < TWO_TO_64
    ensures DecodeGetValues(EncodeGetValues(m)) == Some(m)
  {
    FieldsRoundTrip(GetValuesFields(m));
    GetValuesFromFields(m);
  }

  lemma VarValueRoundTrip(m: VarValue)
    requires |EncodeVarValue(m)| < TWO_TO_64
    ensures DecodeVarValue(EncodeVarValue(m)) == Some(m)
  {
    FieldsRoundTrip(VarValueFields(m));
    VarValueFromFields(m);
  }

  /** A list of readings of any length is decoded to itself; its body is empty just when it is. */
  lemma ValuesRoundTrip(vs: seq<VarValue>)
    requires |EncodeValues(vs)| < TWO_TO_64
    ensures DecodeValues(EncodeValues(vs)) == Some(vs)
    ensures EncodeValues(vs) == [] <==> vs == []
  {
    FieldsRoundTrip(ValuesFields(vs));
    ValuePayloads(vs);
  }

  lemma ValuesCons(vs: seq<VarValue>)
    requires vs != []
    ensures EncodeValues(vs) == WriteField(BytesField(1, EncodeVarValue(vs[0]))) + EncodeValues(vs[1..])
    ensures Payloads(ValuesFields(vs), 1) == [EncodeVarValue(vs[0])] + Payloads(ValuesFields(vs[1..]), 1)
  {
    assert ValuesFields(vs)[1..] == ValuesFields(vs[1..]);
  }

  lemma {:induction false} ValuePayloads(vs: seq<VarValue>)
    requires |EncodeValues(vs)| < TWO_TO_64
    ensures DecodeAll(Payloads(ValuesFields(vs), 1), DecodeVarValue) == Some(vs)
  {
    if vs != [] {
      ValuesCons(vs);
      var body, rest := EncodeVarValue(vs[0]), Payloads(ValuesFields(vs[1..]), 1);
      PayloadFits(BytesField(1, body));
      assert DecodeVarValue(body) == Some(vs[0]) by {
        VarValueRoundTrip(vs[0]);
      }
      assert DecodeAll(rest, DecodeVarValue) == Some(vs[1..]) by {
        ValuePayloads(vs[1..]);
      }
      DecodeAllCons(vs, body, rest, DecodeVarValue);
    }
  }

  lemma DecodeAllCons<T>(vs: seq<T>, body: Bytes, bodies: seq<Bytes>, decode: Bytes -> Option<T>)
    requires vs != [] && decode(body) == Some(vs[0]) && DecodeAll(bodies, decode) == Some(vs[1..])
    ensures DecodeAll([body] + bodies, decode) == Some(vs)
  {
    assert ([body] + bodies)[1..] == bodies;
    assert vs == [vs[0]] + vs[1..];
  }

  /** A list of variables of any length is decoded to itself; its body is empty just when it is. */
  lemma VariablesRoundTrip(vs: seq<SaveVariable>)
    requires |EncodeVariables(vs)| < TWO_TO_64
    ensures DecodeVariables(EncodeVariables(vs)) == Some(vs)
    ensures EncodeVariables(vs) == [] <==> vs == []
  {
    FieldsRoundTrip(VariablesFields(vs));
    VariablePayloads(vs);
  }

  lemma VariablesCons(vs: seq<SaveVariable>)
    requires vs != []
    ensures EncodeVariables(vs) == WriteField(BytesField(1, EncodeSaveVariable(vs[0]))) + EncodeVariables(vs[1..])
    ensures Payloads(VariablesFields(vs), 1)
         == [EncodeSaveVariable(vs[0])] + Payloads(VariablesFields(vs[1..]), 1)
  {
    assert VariablesFields(vs)[1..] == VariablesFields(vs[1..]);
  }

  lemma {:induction false} VariablePayloads(vs: seq<SaveVariable>)
    requires |EncodeVariables(vs)| < TWO_TO_64
    ensures DecodeAll(Payloads(VariablesFields(vs), 1), DecodeSaveVariable) == Some(vs)
  {
    if vs != [] {
      VariablesCons(vs);
      var body, rest := EncodeSaveVariable(vs[0]), Payloads(VariablesFields(vs[1..]), 1);
      PayloadFits(BytesField(1, body));
      assert DecodeSaveVariable(body) == Some(vs[0]) by {
        SaveVariableRoundTrip(vs[0]);
      }
      assert DecodeAll(rest, DecodeSaveVariable) == Some(vs[1..]) by {
        VariablePayloads(vs[1..]);
      }
      DecodeAllCons(vs, body, rest, DecodeSaveVariable);
    }
  }
}
