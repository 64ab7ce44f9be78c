/**
  The table-driven codec between JSON and protobuf binary (typeway-grpc/src/proto_codec.rs), as functions:
  wire values to JSON, the decode loop over records, and the encoder over the fields of a table.
*/
module RuntimeCodec {
  import opened Bytes
  import opened Varint
  import opened Wire
  import opened TextCodecs

  // ---- data ----

  type JsonInt = n: int | -0x8000_0000_0000_0000 <= n < 0x1_0000_0000_0000_0000

  type Utf8 = s: seq<Byte> | ValidUtf8(s)

  /** JSON values; a float number carries the bit pattern of the width it came from. */
  datatype Json =
    | JNull
    | JBool(b: bool)
    | JInt(n: JsonInt)
    | JFloat32(bits: seq<Byte>)
    | JFloat64(bits: seq<Byte>)
    | JStr(s: Utf8)
    | JArr(items: seq<Json>)
    | JObj(m: map<string, Json>)

  /** The proto type names the codec recognises; every other name is a message type. */
  datatype ProtoType =
    | TInt32 | TInt64 | TUint32 | TUint64 | TSint32 | TSint64 | TBool | TEnum
    | TDouble | TFixed64 | TSfixed64
    | TString | TBytes
    | TFloat | TFixed32 | TSfixed32
    | TNamed(typeName: string)

  /** `ProtoFieldDef`, without the map members. */
  datatype FieldDef = FieldDef(name: string, ptype: ProtoType, tag: U32, repeated: bool, nested: Nested)

  /** The optional table of a message-typed field. */
  datatype Nested = NoTable | Table(fields: seq<FieldDef>)

  /** `wire_type_for`. */
  function WireTypeFor(t: ProtoType): (wt: WireTy) {
    match t
    case TDouble => 1
    case TFixed64 => 1
    case TSfixed64 => 1
    case TString => 2
    case TBytes => 2
    case TNamed(_) => 2
    case TFloat => 5
    case TFixed32 => 5
    case TSfixed32 => 5
    case _ => 0
  }

  /** `is_packable_type`. */
  predicate IsPackable(t: ProtoType) { WireTypeFor(t) != 2 }

  function ZigzagEncode(n: I64): (u: U64) { if n >= 0 then 2 * n else -2 * n - 1 }

  function ZigzagDecode(u: U64): (n: I64) { if u % 2 == 0 then u / 2 else -(u / 2) - 1 }

  lemma {:induction false} ZigzagInverse(n: I64, u: U64)
    ensures ZigzagDecode(ZigzagEncode(n)) == n && ZigzagEncode(ZigzagDecode(u)) == u
  {
  }

  // ---- wire values to JSON ----

  /** A float number is finite or JSON null. */
  predicate Finite32(bits: seq<Byte>)
    requires |bits| == 4
  {
    !(bits[3] % 128 == 127 && bits[2] >= 128)
  }

  predicate Finite64(bits: seq<Byte>)
    requires |bits| == 8
  {
    !(bits[7] % 128 == 127 && bits[6] >= 240)
  }

  function VarintToJson(v: U64, t: ProtoType): (r: Result<Json, DecodeError>) {
    match t
    case TUint32 => Ok(JInt(v))
    case TUint64 => Ok(JInt(v))
    case TEnum => Ok(JInt(v))
    case TInt32 => Ok(JInt(WrapI32(v)))
    case TInt64 => Ok(JInt(WrapI64(v)))
    case TSint32 => Ok(JInt(WrapI32(ZigzagDecode(v))))
    case TSint64 => Ok(JInt(ZigzagDecode(v)))
    case TBool => Ok(JBool(v != 0))
    case _ => Err(ValueConversion)
  }

  lemma {:induction false} LeBound(bits: seq<Byte>)
    ensures |bits| == 4 ==> FromLe(bits) < 0x1_0000_0000
    ensures |bits| == 8 ==> FromLe(bits) < 0x1_0000_0000_0000_0000
  {
    LeBytesRoundTrip(bits);
    assert Pow256(2) == 0x1_0000;
    assert Pow256(4) == 0x1_0000_0000;
    assert Pow256(6) == 0x1_0000_0000_0000;
    assert Pow256(8) == 0x1_0000_0000_0000_0000;
  }

  function Fixed64ToJson(bits: seq<Byte>, t: ProtoType): (r: Result<Json, DecodeError>)
    requires |bits| == 8
  {
    LeBound(bits);
    match t
    case TDouble => Ok(if Finite64(bits) then JFloat64(bits) else JNull)
    case TFixed64 => Ok(JInt(FromLe(bits)))
    case TSfixed64 => Ok(JInt(WrapI64(FromLe(bits))))
    case _ => Err(ValueConversion)
  }

  function Fixed32ToJson(bits: seq<Byte>, t: ProtoType): (r: Result<Json, DecodeError>)
    requires |bits| == 4
  {
    LeBound(bits);
    match t
    case TFloat => Ok(if Finite32(bits) then JFloat32(bits) else JNull)
    case TFixed32 => Ok(JInt(FromLe(bits)))
    case TSfixed32 => Ok(JInt(WrapI32(FromLe(bits))))
    case _ => Err(ValueConversion)
  }

  /** Base64 text as a JSON string. */
  function Base64Json(data: seq<Byte>): (j: Json) {
    Base64IsText(data);
    JStr(Base64(data))
  }

  /** `wire_value_to_json`. Without nested definitions the source parses the bytes as JSON text. */
  function WireToJson(wv: WireValue, t: ProtoType, nested: Nested): (r: Result<Json, DecodeError>)
    requires WellSized(wv)
    decreases nested, 0
  {
    match wv
    case LengthDelimited(data) =>
      if t.TString? then if ValidUtf8(data) then Ok(JStr(data)) else Err(ValueConversion)
      else if t.TBytes? then Ok(Base64Json(data))
      else if nested.Table? then
        ProtoToJson(data, nested.fields)
      else Err(Unmodelled)
    case _ => NumberToJson(wv, t)
  }

  /** Varint and fixed-width wire values. */
  function NumberToJson(wv: WireValue, t: ProtoType): (r: Result<Json, DecodeError>)
    requires WellSized(wv) && !wv.LengthDelimited?
  {
    match wv
    case VarintValue(v) => VarintToJson(v, t)
    case Fixed64(bits) => Fixed64ToJson(bits, t)
    case Fixed32(bits) => Fixed32ToJson(bits, t)
  }

  predicate WellSized(wv: WireValue) {
    (wv.Fixed64? ==> |wv.bits| == 8) && (wv.Fixed32? ==> |wv.bits| == 4)
  }

  /** Items of a packed block, read from the block alone. */
  function UnpackScalars(data: seq<Byte>, t: ProtoType): (r: Result<seq<Json>, DecodeError>)
    requires IsPackable(t)
    decreases |data|
  {
    if data == [] then Ok([])
    else
      var item :- ReadWireValue(data, WireTypeFor(t));
      var j :- NumberToJson(item.value, t);
      var rest :- UnpackScalars(data[item.consumed..], t);
      Ok([j] + rest)
  }

  // ---- the decode loop ----

  /** Single fields by name, and accumulated repeated fields by name. */
  datatype State = State(single: map<string, Json>, many: map<string, seq<Json>>)

  const EMPTY := State(map[], map[])

  function Items(st: State, name: string): (items: seq<Json>) {
    if name in st.many then st.many[name] else []
  }

  function Push(st: State, name: string, items: seq<Json>): (r: State) {
    st.(many := st.many[name := Items(st, name) + items])
  }

  function FindDef(fields: seq<FieldDef>, tag: U32): (i: nat)
    ensures i <= |fields|
    ensures i < |fields| ==> fields[i].tag == tag
    ensures forall j :: 0 <= j < i ==> fields[j].tag != tag
  {
    if fields == [] then 0 else if fields[0].tag == tag then 0 else 1 + FindDef(fields[1..], tag)
  }

  /** What one wire value does to the state when its tag is listed. */
  function Apply(f: FieldDef, wv: WireValue, st: State): (r: Result<State, DecodeError>)
    requires WellSized(wv)
    decreases f, 0
  {
    if f.repeated && wv.LengthDelimited? && IsPackable(f.ptype) then
      var items :- UnpackScalars(wv.data, f.ptype);
      Ok(Push(st, f.name, items))
    else
      var j :- WireToJson(wv, f.ptype, f.nested);
      Ok(if f.repeated then Push(st, f.name, [j]) else st.(single := st.single[f.name := j]))
  }

  lemma {:induction false} ReadWellSized(bs: seq<Byte>, wt: WireTy)
    ensures ReadWireValue(bs, wt).Ok? ==> WellSized(ReadWireValue(bs, wt).value.value)
  {
  }

  /** One turn of the loop: tag, raw value, and the field it belongs to, if listed. */
  function DecodeRecord(fields: seq<FieldDef>, bs: seq<Byte>, st: State): (r: Result<Read<State>, DecodeError>)
    ensures r.Ok? ==> 1 <= r.value.consumed <= |bs|
    decreases fields, 0
  {
    var t :- ReadVarint(bs);
    var body := bs[t.consumed..];
    ReadWellSized(body, t.value % 8);
    var wv :- ReadWireValue(body, t.value % 8);
    var i := FindDef(fields, FieldNumber(t.value));
    if i < |fields| then
      var next :- Apply(fields[i], wv.value, st);
      Ok(Read(next, t.consumed + wv.consumed))
    else
      Ok(Read(st, t.consumed + wv.consumed))
  }

  function DecodeLoop(fields: seq<FieldDef>, bs: seq<Byte>, st: State): (r: Result<State, DecodeError>)
    decreases fields, |bs| + 1
  {
    if bs == [] then Ok(st)
    else
      var step :- DecodeRecord(fields, bs, st);
      DecodeLoop(fields, bs[step.consumed..], step.value)
  }

  /** Repeated fields become arrays, inserted over the single fields. */
  function Finish(st: State): (m: map<string, Json>) {
    st.single + map name | name in st.many :: JArr(st.many[name])
  }

  /** `proto_binary_to_json`. */
  function ProtoToJson(bs: seq<Byte>, fields: seq<FieldDef>): (r: Result<Json, DecodeError>)
    decreases fields, |bs| + 2
  {
    var st :- DecodeLoop(fields, bs, EMPTY);
    Ok(JObj(Finish(st)))
  }

  // ---- JSON to wire ----

  predicate IsZeroNumber(v: Json) {
    v == JInt(0) || ((v.JFloat32? || v.JFloat64?) && IsZeroFloat(v.bits))
  }

  /** `is_proto3_default`. */
  predicate IsDefault(v: Json, t: ProtoType) {
    match t
    case TBool => v == JBool(false)
    case TString => v == JStr([])
    case TBytes => v == JStr([])
    case TNamed(_) => false
    case _ => IsZeroNumber(v)
  }

  /** `json_as_u64`; a float would be cast numerically. */
  function AsU64(v: Json): (r: Result<U64, DecodeError>) {
    if v.JInt? then Ok(WrapU64(v.n))
    else if v.JFloat32? || v.JFloat64? then Err(Unmodelled)
    else Err(EncodingFailed)
  }

  /** `json_as_i64`. */
  function AsI64(v: Json): (r: Result<I64, DecodeError>) {
    if v.JInt? then Ok(WrapI64(v.n))
    else if v.JFloat32? || v.JFloat64? then Err(Unmodelled)
    else Err(EncodingFailed)
  }

  function IntPayload(t: ProtoType, v: Json): (r: Result<seq<Byte>, DecodeError>) {
    match t
    case TBool => Ok(VarintBytes(if v == JBool(true) then 1 else 0))
    case TSint32 => var n :- AsI64(v); Ok(VarintBytes(ZigzagEncode(WrapI32(n))))
    case TSint64 => var n :- AsI64(v); Ok(VarintBytes(ZigzagEncode(n)))
    case TInt32 => var n :- AsI64(v); Ok(VarintBytes(WrapU64(n)))
    case TInt64 => var n :- AsI64(v); Ok(VarintBytes(WrapU64(n)))
    case _ => var u :- AsU64(v); Ok(VarintBytes(u))
  }

  function Fixed64Payload(t: ProtoType, v: Json): (r: Result<seq<Byte>, DecodeError>)
    ensures r.Ok? ==> |r.value| == 8
  {
    match t
    case TFixed64 => var u :- AsU64(v); Ok(ToLe(u, 8))
    case TSfixed64 => var n :- AsI64(v); Ok(ToLe(WrapU64(n), 8))
    case _ =>
      if v.JFloat64? && |v.bits| == 8 then Ok(v.bits)
      else if v.JInt? || v.JFloat32? || v.JFloat64? then Err(Unmodelled)
      else Err(EncodingFailed)
  }

  function Fixed32Payload(t: ProtoType, v: Json): (r: Result<seq<Byte>, DecodeError>)
    ensures r.Ok? ==> |r.value| == 4
  {
    match t
    case TFixed32 => var u :- AsU64(v); Ok(ToLe(WrapU32(u), 4))
    case TSfixed32 => var n :- AsI64(v); Ok(ToLe(WrapU32(WrapI32(n)), 4))
    case _ =>
      if v.JFloat32? && |v.bits| == 4 then Ok(v.bits)
      else if v.JInt? || v.JFloat32? || v.JFloat64? then Err(Unmodelled)
      else Err(EncodingFailed)
  }

  /** Bytes fields accept base64 text, or any other text as it stands. */
  function BytesOf(s: Utf8): (data: seq<Byte>) {
    match Unbase64(s) case Some(data) => data case None => s
  }

  /** The bytes `encode_field` writes after the tag. */
  function Payload(t: ProtoType, nested: Nested, v: Json): (r: Result<seq<Byte>, DecodeError>)
    decreases nested, 0
  {
    match WireTypeFor(t)
    case 0 => IntPayload(t, v)
    case 1 => Fixed64Payload(t, v)
    case 5 => Fixed32Payload(t, v)
    case _ =>
      if t.TString? then if v.JStr? then Ok(LenPrefixed(v.s)) else Err(EncodingFailed)
      else if t.TBytes? then if v.JStr? then Ok(LenPrefixed(BytesOf(v.s))) else Err(EncodingFailed)
      else if nested.Table? then
        var bs :- JsonToProto(v, nested.fields);
        Ok(LenPrefixed(bs))
      else Err(Unmodelled)
  }

  /** `encode_field`. */
  function EncodeValue(f: FieldDef, v: Json): (r: Result<seq<Byte>, DecodeError>)
    decreases f, 0, 0
  {
    var payload :- Payload(f.ptype, f.nested, v);
    Ok(TagBytes(f.tag, WireTypeFor(f.ptype)) + payload)
  }

  function EncodeItems(f: FieldDef, items: seq<Json>): (r: Result<seq<Byte>, DecodeError>)
    decreases f, 1, |items|
  {
    if items == [] then Ok([])
    else
      var head :- EncodeValue(f, items[0]);
      var tail :- EncodeItems(f, items[1..]);
      Ok(head + tail)
  }

  /** Is the value written at all? */
  predicate Kept(f: FieldDef, v: Json) {
    !v.JNull? && if f.repeated then v.JArr? && v.items != [] else !IsDefault(v, f.ptype)
  }

  function EncodeMember(f: FieldDef, v: Json): (r: Result<seq<Byte>, DecodeError>)
    decreases f, 2, 0
  {
    if v.JNull? then Ok([])
    else if f.repeated then if v.JArr? then EncodeItems(f, v.items) else Ok([])
    else if IsDefault(v, f.ptype) then Ok([])
    else EncodeValue(f, v)
  }

  function EncodeFrom(m: map<string, Json>, fields: seq<FieldDef>, i: nat): (r: Result<seq<Byte>, DecodeError>)
    requires i <= |fields|
    decreases fields, |fields| - i
  {
    if i == |fields| then Ok([])
    else
      var head :- if fields[i].name in m then EncodeMember(fields[i], m[fields[i].name]) else Ok([]);
      var tail :- EncodeFrom(m, fields, i + 1);
      Ok(head + tail)
  }

  /** `json_to_proto_binary`: anything but an object is the empty message. */
  function JsonToProto(j: Json, fields: seq<FieldDef>): (r: Result<seq<Byte>, DecodeError>)
    decreases fields, |fields| + 1
  {
    if j.JObj? then EncodeFrom(j.m, fields, 0) else Ok([])
  }
}
