/** The bytes themselves, against the protocol buffers encoding guide. */
module WireFormat {
  // Source: typeway-grpc/src/proto_codec.rs, typeway-grpc/src/transcode.rs

  import opened Bytes
  import opened Varint
  import opened Wire
  import opened TextCodecs
  import opened RuntimeCodec
  import opened Schema
  import A = CodecAgreement
  import D = DerivedCodec
  import L = RuntimeLaws

  // ---- integers ----

  /** Shifted right by `k` times seven bits. */
  function Shifted(v: nat, k: nat): (w: nat)
    decreases k
  {
    if k == 0 then v else Shifted(v / 0x80, k - 1)
  }

  /** Base 128, the lowest digit first, and a set top bit on every byte but the last. */
  lemma {:induction false} VarintDigits(v: nat, k: nat)
    requires k < |VarintBytes(v)|
    ensures VarintBytes(v)[k] % 0x80 == Shifted(v, k) % 0x80
    ensures VarintBytes(v)[k] >= 0x80 <==> k + 1 < |VarintBytes(v)|
    decreases k
  {
    if k > 0 { VarintDigits(v / 0x80, k - 1); }
  }

  /** Zigzag counts outwards from zero, negative numbers on the odd places. */
  lemma {:induction false} ZigzagOrder(n: I64)
    ensures ZigzagEncode(0) == 0 && ZigzagEncode(-1) == 1 && ZigzagEncode(1) == 2 && ZigzagEncode(-2) == 3
    ensures ZigzagEncode(n) % 2 == (if n < 0 then 1 else 0)
    ensures ZigzagEncode(n) / 2 == (if n < 0 then -(n as int) - 1 else n as int)
  {
  }

  /** Fixed words stand with the lowest byte first. */
  lemma {:induction false} LittleEndian(bs: seq<Byte>)
    requires |bs| == 8
    ensures FromLe(bs[..4]) == bs[0] + 0x100 * bs[1] as int + 0x1_0000 * bs[2] as int + 0x100_0000 * bs[3] as int
    ensures FromLe(bs) == FromLe(bs[..4]) + 0x1_0000_0000 * FromLe(bs[4..])
  {
    FourBytes(bs[..4]);
    FourBytes(bs[4..]);
    var t := bs[4..];
    assert bs[1..][1..] == bs[2..] && bs[2..][1..] == bs[3..] && bs[3..][1..] == t;
    assert FromLe(bs) == bs[0] + 0x100 * FromLe(bs[1..]);
    assert FromLe(bs[1..]) == bs[1] + 0x100 * FromLe(bs[2..]);
    assert FromLe(bs[2..]) == bs[2] + 0x100 * FromLe(bs[3..]);
    assert FromLe(bs[3..]) == bs[3] + 0x100 * FromLe(t);
  }

  lemma {:induction false} FourBytes(bs: seq<Byte>)
    requires |bs| == 4
    ensures FromLe(bs) == bs[0] + 0x100 * bs[1] as int + 0x1_0000 * bs[2] as int + 0x100_0000 * bs[3] as int
  {
    assert bs[1..][1..] == bs[2..] && bs[2..][1..] == bs[3..] && bs[3..][1..] == [];
    assert FromLe(bs[3..]) == bs[3];
    assert FromLe(bs[2..]) == bs[2] + 0x100 * FromLe(bs[3..]);
  }

  /** A floating-point word of IEEE 754 is finite if its exponent bits are not all ones. */
  lemma {:induction false} FiniteFloats(single: seq<Byte>, double: seq<Byte>)
    requires |single| == 4 && |double| == 8
    ensures Finite32(single) <==> FromLe(single) / 0x80_0000 % 0x100 != 0xFF
    ensures Finite64(double) <==> FromLe(double) / 0x10_0000_0000_0000 % 0x800 != 0x7FF
  {
    hide FromLe;
    FourBytes(single);
    SingleExponent(single[0] + 0x100 * single[1] as int, single[2], single[3]);
    LittleEndian(double);
    FourBytes(double[..4]);
    FourBytes(double[4..]);
    var low := FromLe(double[..4]) + 0x1_0000_0000 * (double[4] + 0x100 * double[5] as int);
    assert FromLe(double) == low + 0x1_0000_0000_0000 * double[6] as int + 0x100_0000_0000_0000 * double[7] as int;
    DoubleExponent(low, double[6], double[7]);
  }

  lemma {:induction false} SingleExponent(low: nat, b: Byte, c: Byte)
    requires low < 0x1_0000
    ensures (low + 0x1_0000 * b as int + 0x100_0000 * c as int) / 0x80_0000 == b as int / 0x80 + 2 * c as int
    ensures (b as int / 0x80 + 2 * c as int) % 0x100 == 0xFF <==> c % 128 == 127 && b >= 128
  {
  }

  lemma {:induction false} DoubleExponent(low: nat, b: Byte, c: Byte)
    requires low < 0x1_0000_0000_0000
    ensures (low + 0x1_0000_0000_0000 * b as int + 0x100_0000_0000_0000 * c as int) / 0x10_0000_0000_0000 == b as int / 0x10 + 16 * c as int
    ensures (b as int / 0x10 + 16 * c as int) % 0x800 == 0x7FF <==> c % 128 == 127 && b >= 240
  {
  }

  // ---- scalars on the wire ----

  /** Message fields are written under wire type 2, and the scalars as their type's row says. */
  predicate OnWire(t: ProtoType, v: Json, wt: WireTy, payload: seq<Byte>)
    requires L.CanonicalScalar(t, v)
  {
    match t
    case TInt32 => wt == 0 && payload == VarintBytes(if v.n < 0 then v.n + 0x1_0000_0000_0000_0000 else v.n)
    case TInt64 => wt == 0 && payload == VarintBytes(if v.n < 0 then v.n + 0x1_0000_0000_0000_0000 else v.n)
    case TUint32 => wt == 0 && payload == VarintBytes(v.n)
    case TUint64 => wt == 0 && payload == VarintBytes(v.n)
    case TEnum => wt == 0 && payload == VarintBytes(v.n)
    case TSint32 => wt == 0 && payload == VarintBytes(if v.n < 0 then -2 * v.n - 1 else 2 * v.n)
    case TSint64 => wt == 0 && payload == VarintBytes(if v.n < 0 then -2 * v.n - 1 else 2 * v.n)
    case TBool => wt == 0 && payload == [if v.b then 1 else 0]
    case TFixed64 => wt == 1 && |payload| == 8 && FromLe(payload) == v.n
    case TSfixed64 => wt == 1 && |payload| == 8 && FromLe(payload) == (if v.n < 0 then v.n + 0x1_0000_0000_0000_0000 else v.n)
    case TDouble => wt == 1 && payload == v.bits
    case TFixed32 => wt == 5 && |payload| == 4 && FromLe(payload) == v.n
    case TSfixed32 => wt == 5 && |payload| == 4 && FromLe(payload) == (if v.n < 0 then v.n + 0x1_0000_0000 else v.n)
    case TFloat => wt == 5 && payload == v.bits
    case TString => wt == 2 && payload == VarintBytes(|v.s|) + v.s
    case TBytes => wt == 2 && v.s == Base64(BytesOf(v.s)) && payload == VarintBytes(|BytesOf(v.s)|) + BytesOf(v.s)
    case TNamed(_) => false
  }

  lemma {:induction false} LeWritten(n: nat, k: nat)
    requires n < Pow256(k)
    ensures |ToLe(n, k)| == k && FromLe(ToLe(n, k)) == n
  {
    LeRoundTrip(n, k);
  }

  lemma {:induction false} InRange64(n: int)
    ensures -0x8000_0000_0000_0000 <= n < 0x8000_0000_0000_0000 ==> WrapI64(n) == n
    ensures -0x8000_0000_0000_0000 <= n < 0 ==> WrapU64(n) == n + 0x1_0000_0000_0000_0000
    ensures 0 <= n < 0x1_0000_0000_0000_0000 ==> WrapU64(n) == n
  {
  }

  lemma {:induction false} InRange32(n: int)
    ensures -0x8000_0000 <= n < 0x8000_0000 ==> WrapI32(n) == n
    ensures -0x8000_0000 <= n < 0 ==> WrapU32(n) == n + 0x1_0000_0000
    ensures 0 <= n < 0x1_0000_0000 ==> WrapU32(n) == n
  {
  }

  lemma {:induction false} VarintsOnWire(t: ProtoType, v: Json)
    requires WireTypeFor(t) == 0 && L.CanonicalScalar(t, v)
    ensures IntPayload(t, v).Ok? && OnWire(t, v, 0, IntPayload(t, v).value)
  {
    hide VarintBytes, WrapU64, WrapI64, WrapI32;
    SmallVarints();
    if v.JInt? {
      InRange64(v.n);
      InRange32(v.n);
    }
  }

  lemma {:induction false} Fixed64OnWire(t: ProtoType, v: Json)
    requires WireTypeFor(t) == 1 && L.CanonicalScalar(t, v)
    ensures Fixed64Payload(t, v).Ok? && OnWire(t, v, 1, Fixed64Payload(t, v).value)
  {
    hide VarintBytes, ToLe, FromLe, WrapU64, WrapI64;
    L.LeWidths();
    if v.JInt? { InRange64(v.n); }
    match t
    case TFixed64 => LeWritten(v.n, 8);
    case TSfixed64 => LeWritten(WrapU64(v.n), 8);
    case _ =>
  }

  lemma {:induction false} Fixed32OnWire(t: ProtoType, v: Json)
    requires WireTypeFor(t) == 5 && L.CanonicalScalar(t, v)
    ensures Fixed32Payload(t, v).Ok? && OnWire(t, v, 5, Fixed32Payload(t, v).value)
  {
    hide VarintBytes, ToLe, FromLe, WrapU64, WrapI64, WrapU32, WrapI32;
    L.LeWidths();
    if v.JInt? {
      InRange64(v.n);
      InRange32(v.n);
    }
    match t
    case TFixed32 => LeWritten(v.n, 4);
    case TSfixed32 => LeWritten(WrapU32(v.n), 4);
    case _ =>
  }

  lemma {:induction false} TextOnWire(f: FieldDef, v: Json)
    requires (f.ptype.TString? || f.ptype.TBytes?) && L.CanonicalScalar(f.ptype, v)
    ensures var p := Payload(f.ptype, f.nested, v); p.Ok? && OnWire(f.ptype, v, 2, p.value)
  {
    hide VarintBytes, BytesOf, Base64;
  }

  /** A member of a scalar field: its tag, field number times eight plus the wire type, and the payload. */
  lemma {:induction false} ScalarsOnWire(f: FieldDef, v: Json)
    requires !f.ptype.TNamed? && L.CanonicalScalar(f.ptype, v)
    ensures var wt, payload := WireTypeFor(f.ptype), Payload(f.ptype, f.nested, v);
            && payload.Ok? && OnWire(f.ptype, v, wt, payload.value)
            && EncodeValue(f, v) == Ok(VarintBytes(8 * f.tag + wt) + payload.value)
  {
    hide VarintBytes, OnWire, IntPayload, Fixed64Payload, Fixed32Payload, L.CanonicalScalar;
    match WireTypeFor(f.ptype)
    case 0 => VarintsOnWire(f.ptype, v);
    case 1 => Fixed64OnWire(f.ptype, v);
    case 5 => Fixed32OnWire(f.ptype, v);
    case _ => TextOnWire(f, v);
  }

  lemma {:induction false} SmallVarints()
    ensures VarintBytes(0) == [0] && VarintBytes(1) == [1]
  {
  }

  // ---- what the table-driven encoder refuses ----

  /** Numbers want a number and texts a text; a flag is written for any value, as set only for true. */
  lemma {:induction false} WrongKinds(f: FieldDef, v: Json)
    requires !f.ptype.TNamed?
    ensures (f.ptype.TString? || f.ptype.TBytes?) && !v.JStr? ==> EncodeValue(f, v) == Err(EncodingFailed)
    ensures f.ptype.TBool? ==> EncodeValue(f, v) == Ok(TagBytes(f.tag, 0) + [if v == JBool(true) then 1 else 0])
    ensures !f.ptype.TString? && !f.ptype.TBytes? && !f.ptype.TBool? && !v.JInt? && !v.JFloat32? && !v.JFloat64? ==>
              EncodeValue(f, v) == Err(EncodingFailed)
  {
    hide VarintBytes, ToLe;
    SmallVarints();
  }

  /** Not null, and a failing value that is not left out as default, or an array with a failing item. */
  ghost predicate Refused(f: FieldDef, v: Json) {
    && !v.JNull?
    && (if f.repeated then v.JArr? && exists i :: 0 <= i < |v.items| && EncodeValue(f, v.items[i]).Err?
        else !IsDefault(v, f.ptype) && EncodeValue(f, v).Err?)
  }

  lemma {:induction false} ItemsRefused(f: FieldDef, items: seq<Json>)
    ensures EncodeItems(f, items).Err? <==> exists i :: 0 <= i < |items| && EncodeValue(f, items[i]).Err?
  {
    hide EncodeValue;
    if items != [] {
      ItemsRefused(f, items[1..]);
      assert forall i :: 1 <= i < |items| ==> items[i] == items[1..][i - 1];
      if i :| 0 <= i < |items[1..]| && EncodeValue(f, items[1..][i]).Err? { assert EncodeValue(f, items[i + 1]).Err?; }
    }
  }

  lemma {:induction false} MemberRefused(f: FieldDef, v: Json)
    ensures EncodeMember(f, v).Err? <==> Refused(f, v)
  {
    hide VarintBytes, ToLe, BytesOf;
    if f.repeated && v.JArr? { ItemsRefused(f, v.items); }
  }

  lemma {:induction false} FromRefused(m: map<string, Json>, fields: seq<FieldDef>, i: nat)
    requires i <= |fields|
    ensures EncodeFrom(m, fields, i).Err?
       <==> exists k :: i <= k < |fields| && fields[k].name in m && Refused(fields[k], m[fields[k].name])
    decreases |fields| - i
  {
    hide EncodeMember, Refused;
    if i < |fields| {
      FromRefused(m, fields, i + 1);
      if fields[i].name in m { MemberRefused(fields[i], m[fields[i].name]); }
    }
  }

  /** An object fails to encode exactly when a listed member is refused. */
  lemma {:induction false} EncodeFails(m: map<string, Json>, fields: seq<FieldDef>)
    ensures JsonToProto(JObj(m), fields).Err?
       <==> exists k :: 0 <= k < |fields| && fields[k].name in m && Refused(fields[k], m[fields[k].name])
  {
    hide EncodeFrom, Refused;
    FromRefused(m, fields, 0);
  }

  // ---- type names ----

  /** The scalar type names of a `.proto` file. */
  lemma {:induction false} IntegerNames()
    ensures TypeFromName("int32") == TInt32 && TypeFromName("int64") == TInt64
    ensures TypeFromName("uint32") == TUint32 && TypeFromName("uint64") == TUint64
  {
  }

  lemma {:induction false} ZigzagNames()
    ensures TypeFromName("sint32") == TSint32 && TypeFromName("sint64") == TSint64
    ensures TypeFromName("bool") == TBool && TypeFromName("enum") == TEnum
  {
  }

  lemma {:induction false} WideNames()
    ensures TypeFromName("double") == TDouble && TypeFromName("fixed64") == TFixed64
  {
    var d, x := "double", "fixed64";
    assert d[0] == 'd' && x[0] == 'f';
  }

  lemma {:induction false} SignedWideNames()
    ensures TypeFromName("sfixed64") == TSfixed64 && TypeFromName("string") == TString
  {
    var d, x := "sfixed64", "string";
    assert d[1] == 'f' && x[1] == 't';
  }

  lemma {:induction false} NarrowNames()
    ensures TypeFromName("bytes") == TBytes && TypeFromName("float") == TFloat
  {
    var d, x := "bytes", "float";
    assert d[1] == 'y' && x[1] == 'l';
  }

  lemma {:induction false} FixedNames()
    ensures TypeFromName("fixed32") == TFixed32 && TypeFromName("sfixed32") == TSfixed32
  {
    var d, x := "fixed32", "sfixed32";
    assert d[5] == '3' && x[6] == '3';
  }

  const SCALAR_NAMES := ["int32", "int64", "uint32", "uint64", "sint32", "sint64", "bool", "enum", "double", "fixed64", "sfixed64",
                         "string", "bytes", "float", "fixed32", "sfixed32"]

  /** Every other name is a message type. */
  lemma {:induction false} OtherNames(s: string)
    requires s !in SCALAR_NAMES
    ensures TypeFromName(s) == TNamed(s)
  {
    var n := SCALAR_NAMES;
    assert n[0] == "int32" && n[1] == "int64" && n[2] == "uint32" && n[3] == "uint64" && n[4] == "sint32" && n[5] == "sint64";
    assert n[6] == "bool" && n[7] == "enum" && n[8] == "double" && n[9] == "fixed64" && n[10] == "sfixed64";
    assert n[11] == "string" && n[12] == "bytes" && n[13] == "float" && n[14] == "fixed32" && n[15] == "sfixed32";
  }

  /**
    A field of an expanded table: as the message says, and with the table of the message its type names if that is
    a known message; scalars, maps, the empty message and unknown names have none.
  */
  lemma {:induction false} ExpandedField(ms: seq<ParsedMessage>, i: nat, k: nat, rank: map<string, nat>)
    requires Ranked(ms, rank) && i < |ms| && k < |ms[i].fields|
    ensures var d, f := TableOf(ms, i, rank)[k], ms[i].fields[k];
            && d.name == f.name && d.tag == f.tag && d.repeated == f.repeated
            && (f.protoType !in SCALAR_NAMES ==> d.ptype == TNamed(f.protoType))
            && (d.nested.Table? <==>
                  && f.protoType !in SCALAR_NAMES && f.protoType != "google.protobuf.Empty" && !f.isMap
                  && exists j :: 0 <= j < |ms| && ms[j].name == f.protoType)
            && (d.nested.Table? ==> exists j :: 0 <= j < |ms| && ms[j].name == f.protoType && d.nested.fields == TableOf(ms, j, rank))
  {
    hide TypeFromName;
    var f := ms[i].fields[k];
    if f.protoType in SCALAR_NAMES { AllScalars(f.protoType); } else { OtherNames(f.protoType); }
    assert RanksField(ms, ms[i], f, rank);
    assert TableOf(ms, i, rank)[k] == FieldOf(ms, i, k, rank);
  }

  lemma {:induction false} AllScalars(s: string)
    requires s in SCALAR_NAMES
    ensures !TypeFromName(s).TNamed?
  {
    hide TypeFromName;
    IntegerNames();
    ZigzagNames();
    WideNames();
    SignedWideNames();
    NarrowNames();
    FixedNames();
  }

  /** The type a deriving field is declared with in the `.proto` file (typeway-grpc/src/mapping.rs). */
  function ProtoName(k: D.CodecKind): (s: string)
    requires D.IsScalar(k)
  {
    match k
    case Varint(w) => (match w case U32Ty => "uint32" case U64Ty => "uint64" case I32Ty => "int32" case I64Ty => "int64")
    case Bool => "bool"
    case Fixed32 => "float"
    case Fixed64 => "double"
    case LenBytes => "bytes"
    case _ => "string"
  }

  /** So the table expanded from the file is the one the codecs agree on. */
  lemma {:induction false} DeclaredTypes(k: D.CodecKind)
    requires D.IsScalar(k)
    ensures TypeFromName(ProtoName(k)) == A.TypeOf(k)
  {
    hide TypeFromName;
    IntegerNames();
    ZigzagNames();
    WideNames();
    SignedWideNames();
    NarrowNames();
  }
}
