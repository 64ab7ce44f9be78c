/**
  The codec that `#[derive(TypewayCodec)]` generates, as an interpreter over the field shapes the macro
  distinguishes (typeway-macros/src/lib.rs): structs, enums with payloads and fieldless enums.
*/
module DerivedCodec {
  import opened Bytes
  import opened Varint
  import opened Wire

  datatype IntTy = U32Ty | U64Ty | I32Ty | I64Ty

  /** The macro's `CodecKind`; message kinds carry the nested type they refer to. */
  datatype CodecKind =
    | Varint(width: IntTy)
    | Bool
    | Fixed32
    | Fixed64
    | LenString
    | LenBytesStr
    | LenBytes
    | Optional(inner: CodecKind)
    | Repeated(inner: CodecKind)
    | Message(ty: MsgTy)
    | OptionalMessage(ty: MsgTy)
    | RepeatedMessage(ty: MsgTy)

  datatype Field = Field(name: string, tag: U32, kind: CodecKind)

  /** A deriving type: a struct, an enum with payloads (oneof), or a fieldless enum. */
  datatype MsgTy =
    | Struct(fields: seq<Field>)
    | OneOf(variants: seq<Field>)
    | Enum(tags: seq<U32>)

  /** Rust values of the supported field types; floats are their little-endian bit patterns. */
  datatype Val =
    | Int(n: int)
    | Flag(on: bool)
    | Bits(bits: seq<Byte>)
    | Text(data: seq<Byte>)
    | Absent
    | Present(inner: Val)
    | List(items: seq<Val>)
    | Rec(vals: seq<Val>)
    | Case(index: nat, payload: Val)
    | Unit(index: nat)

  // ---- shapes ----

  predicate IsScalar(k: CodecKind) {
    k.Varint? || k.Bool? || k.Fixed32? || k.Fixed64? || k.LenString? || k.LenBytesStr? || k.LenBytes?
  }

  predicate IsPackable(k: CodecKind) { k.Varint? || k.Bool? || k.Fixed32? || k.Fixed64? }

  predicate IsText(k: CodecKind) { k.LenString? || k.LenBytesStr? }

  /** The inner kinds for which the optional and repeated helpers have real decode arms. */
  predicate HasArm(k: CodecKind) { IsPackable(k) || IsText(k) }

  /** `oneof_codec_kind` classifies with `classify_scalar` only. */
  predicate IsVariantKind(k: CodecKind) { HasArm(k) || k.Message? }

  /** `wire_type_for_kind`. */
  function WireType(k: CodecKind): (wt: WireTy)
  {
    match k
    case Varint(_) => 0
    case Bool => 0
    case Fixed64 => 1
    case Fixed32 => 5
    case Optional(inner) => WireType(inner)
    case Repeated(inner) => WireType(inner)
    case _ => 2
  }

  predicate DistinctTags(fs: seq<Field>) {
    forall i, j :: 0 <= i < j < |fs| ==> fs[i].tag != fs[j].tag
  }

  /** What the macro accepts: it rejects tag 0 and repeated tags in structs, and enums need a variant. */
  predicate Derivable(ty: MsgTy) {
    match ty
    case Struct(fs) =>
      DistinctTags(fs) && forall i :: 0 <= i < |fs| ==> fs[i].tag >= 1 && DerivableKind(fs[i].kind)
    case OneOf(vs) =>
      |vs| > 0 && forall i :: 0 <= i < |vs| ==> IsVariantKind(vs[i].kind) && DerivableKind(vs[i].kind)
    case Enum(tags) => |tags| > 0
  }

  predicate DerivableKind(k: CodecKind) {
    match k
    case Message(ty) => Derivable(ty)
    case OptionalMessage(ty) => Derivable(ty)
    case RepeatedMessage(ty) => Derivable(ty)
    case Optional(inner) => DerivableKind(inner)
    case Repeated(inner) => DerivableKind(inner)
    case _ => true
  }

  // ---- typing of values ----

  predicate InRange(t: IntTy, n: int) {
    match t
    case U32Ty => 0 <= n < 0x1_0000_0000
    case U64Ty => 0 <= n < 0x1_0000_0000_0000_0000
    case I32Ty => -0x8000_0000 <= n < 0x8000_0000
    case I64Ty => -0x8000_0000_0000_0000 <= n < 0x8000_0000_0000_0000
  }

  predicate ScalarTyped(k: CodecKind, v: Val)
    requires IsScalar(k)
  {
    match k
    case Varint(t) => v.Int? && InRange(t, v.n)
    case Bool => v.Flag?
    case Fixed32 => v.Bits? && |v.bits| == 4
    case Fixed64 => v.Bits? && |v.bits| == 8
    case LenBytes => v.Text?
    case _ => v.Text? && ValidUtf8(v.data)
  }

  predicate AllTyped(k: CodecKind, items: seq<Val>)
    requires IsScalar(k)
  {
    forall i :: 0 <= i < |items| ==> ScalarTyped(k, items[i])
  }

  predicate HasKind(k: CodecKind, v: Val) {
    if IsScalar(k) then ScalarTyped(k, v)
    else
      match k
      case Optional(inner) =>
        v.Absent? ||
        (v.Present? && if IsScalar(inner) then ScalarTyped(inner, v.inner) else HasKind(inner, v.inner))
      case Repeated(inner) =>
        v.List? &&
        if IsScalar(inner) then AllTyped(inner, v.items)
        else forall i :: 0 <= i < |v.items| ==> HasKind(inner, v.items[i])
      case Message(ty) => HasType(ty, v)
      case OptionalMessage(ty) => v.Absent? || (v.Present? && HasType(ty, v.inner))
      case RepeatedMessage(ty) => v.List? && forall i :: 0 <= i < |v.items| ==> HasType(ty, v.items[i])
  }

  predicate HasType(ty: MsgTy, v: Val) {
    match ty
    case Struct(fs) => v.Rec? && FieldsTyped(fs, v.vals)
    case OneOf(vs) =>
      && v.Case? && v.index < |vs|
      && IsVariantKind(vs[v.index].kind) && HasKind(vs[v.index].kind, v.payload)
    case Enum(tags) => v.Unit? && v.index < |tags|
  }

  predicate FieldsTyped(fs: seq<Field>, vals: seq<Val>) {
    |vals| == |fs| && forall i :: 0 <= i < |fs| ==> HasKind(fs[i].kind, vals[i])
  }

  /** No plain `bool` of a struct is set under a tag of 16 or above, at any depth. */
  predicate ShortBools(ty: MsgTy, v: Val)
    requires HasType(ty, v)
  {
    match ty
    case Struct(fs) => ShortBoolFields(fs, v.vals)
    case OneOf(vs) => ShortBoolsKind(vs[v.index].kind, v.payload)
    case Enum(_) => true
  }

  predicate ShortBoolFields(fs: seq<Field>, vals: seq<Val>)
    requires FieldsTyped(fs, vals)
  {
    forall i :: 0 <= i < |fs| ==> !IsLongBool(fs[i], vals[i]) && ShortBoolsKind(fs[i].kind, vals[i])
  }

  predicate ShortBoolsKind(k: CodecKind, v: Val)
    requires HasKind(k, v)
  {
    match k
    case Message(ty) => ShortBools(ty, v)
    case OptionalMessage(ty) => v.Present? ==> ShortBools(ty, v.inner)
    case RepeatedMessage(ty) => forall i :: 0 <= i < |v.items| ==> ShortBools(ty, v.items[i])
    case _ => true
  }

  predicate IsLongBool(f: Field, v: Val) { f.kind.Bool? && f.tag >= 16 && v == Flag(true) }

  /** `Default::default()` of a field or deriving type. */
  function Zero(k: CodecKind): (v: Val)
    requires DerivableKind(k)
  {
    match k
    case Varint(_) => Int(0)
    case Bool => Flag(false)
    case Fixed32 => Bits([0, 0, 0, 0])
    case Fixed64 => Bits([0, 0, 0, 0, 0, 0, 0, 0])
    case LenString => Text([])
    case LenBytesStr => Text([])
    case LenBytes => Text([])
    case Optional(_) => Absent
    case OptionalMessage(_) => Absent
    case Repeated(_) => List([])
    case RepeatedMessage(_) => List([])
    case Message(ty) => Default(ty)
  }

  function Default(ty: MsgTy): (v: Val)
    requires Derivable(ty)
  {
    match ty
    case Struct(fs) => Rec(Zeros(fs))
    case OneOf(vs) => Case(0, Zero(vs[0].kind))
    case Enum(_) => Unit(0)
  }

  function Zeros(fs: seq<Field>): (vals: seq<Val>)
    requires forall i :: 0 <= i < |fs| ==> DerivableKind(fs[i].kind)
    ensures |vals| == |fs|
    ensures forall i :: 0 <= i < |fs| ==> vals[i] == Zero(fs[i].kind)
  {
    seq(|fs|, i requires 0 <= i < |fs| => Zero(fs[i].kind))
  }

  // ---- encoding ----

  /** One emitted record: wire type and the bytes after the tag. */
  datatype Record = Record(wt: WireTy, payload: seq<Byte>)

  function ScalarPayload(k: CodecKind, v: Val): (bs: seq<Byte>)
    requires IsScalar(k) && ScalarTyped(k, v)
  {
    match k
    case Varint(_) => VarintBytes(WrapU64(v.n))
    case Bool => if v.on then [1] else [0]
    case Fixed32 => v.bits
    case Fixed64 => v.bits
    case _ => LenPrefixed(v.data)
  }

  /** Does `gen_encode_field` write a singular scalar, or omit it as the proto3 default? */
  predicate IsOmitted(k: CodecKind, v: Val)
    requires IsScalar(k) && ScalarTyped(k, v)
  {
    match k
    case Varint(_) => v.n == 0
    case Bool => !v.on
    case Fixed32 => IsZeroFloat(v.bits)
    case Fixed64 => IsZeroFloat(v.bits)
    case _ => v.data == []
  }

  /** Concatenated items of a packed field. */
  function PackAll(k: CodecKind, items: seq<Val>): (bs: seq<Byte>)
    requires IsScalar(k) && AllTyped(k, items)
  {
    if items == [] then [] else ScalarPayload(k, items[0]) + PackAll(k, items[1..])
  }

  function EmitScalars(k: CodecKind, items: seq<Val>): (rs: seq<Record>)
    requires IsScalar(k) && AllTyped(k, items)
  {
    if items == [] then []
    else [Record(WireType(k), ScalarPayload(k, items[0]))] + EmitScalars(k, items[1..])
  }

  /** The records `gen_encode_field` emits for a field of kind `k`; `Bool` is handled by `EncodeField`. */
  function Emits(k: CodecKind, v: Val): (rs: seq<Record>)
    requires HasKind(k, v)
    decreases k, 0
  {
    if IsScalar(k) then
      if IsOmitted(k, v) then [] else [Record(WireType(k), ScalarPayload(k, v))]
    else
      match k
      case Message(ty) =>
        var nested := Encode(ty, v);
        if nested == [] then [] else [Record(2, LenPrefixed(nested))]
      case OptionalMessage(ty) =>
        if v.Absent? then [] else [Record(2, LenPrefixed(Encode(ty, v.inner)))]
      case RepeatedMessage(ty) => EmitMessages(ty, v.items)
      case Optional(inner) =>
        if v.Absent? || !IsScalar(inner) then [] else [Record(WireType(inner), ScalarPayload(inner, v.inner))]
      case Repeated(inner) =>
        if IsPackable(inner) then
          if v.items == [] then [] else [Record(2, LenPrefixed(PackAll(inner, v.items)))]
        else if IsText(inner) then EmitScalars(inner, v.items)
        else []
  }

  function EmitMessages(ty: MsgTy, items: seq<Val>): (rs: seq<Record>)
    requires forall i :: 0 <= i < |items| ==> HasType(ty, items[i])
    decreases ty, |items| + 1
  {
    if items == [] then []
    else [Record(2, LenPrefixed(Encode(ty, items[0])))] + EmitMessages(ty, items[1..])
  }

  function WriteRecords(tag: U32, rs: seq<Record>): (bs: seq<Byte>)
  {
    if rs == [] then []
    else TagBytes(tag, rs[0].wt) + rs[0].payload + WriteRecords(tag, rs[1..])
  }

  /** `gen_encode_field`: a plain `bool` always writes a single, truncated tag byte. */
  function EncodeField(f: Field, v: Val): (bs: seq<Byte>)
    requires HasKind(f.kind, v)
    decreases f.kind, 1
  {
    if f.kind.Bool? then
      if v.on then [8 * f.tag % 256, 1] else []
    else
      WriteRecords(f.tag, Emits(f.kind, v))
  }

  /** Fields `i` and later, in declaration order. */
  function EncodeFrom(fs: seq<Field>, vals: seq<Val>, i: nat): (bs: seq<Byte>)
    requires FieldsTyped(fs, vals) && i <= |fs|
    decreases fs, |fs| - i
  {
    if i == |fs| then [] else EncodeField(fs[i], vals[i]) + EncodeFrom(fs, vals, i + 1)
  }

  function EncodeCase(f: Field, v: Val): (bs: seq<Byte>)
    requires IsVariantKind(f.kind) && HasKind(f.kind, v)
    ensures |bs| > 0
    decreases f.kind, 1
  {
    TagBytes(f.tag, WireType(f.kind)) +
    (if f.kind.Message? then LenPrefixed(Encode(f.kind.ty, v)) else ScalarPayload(f.kind, v))
  }

  /** The generated `encode_to_vec`. */
  function Encode(ty: MsgTy, v: Val): (bs: seq<Byte>)
    requires HasType(ty, v)
    decreases ty, 0
  {
    match ty
    case Struct(fs) => EncodeFrom(fs, v.vals, 0)
    case OneOf(vs) => EncodeCase(vs[v.index], v.payload)
    case Enum(tags) => VarintBytes(tags[v.index])
  }

  // ---- decoding ----

  /** `val as _` into a field of integer type `t`. */
  function FromWire(t: IntTy, u: U64): (n: int)
    ensures InRange(t, n)
  {
    match t
    case U32Ty => WrapU32(u)
    case U64Ty => u
    case I32Ty => WrapI32(u)
    case I64Ty => WrapI64(u)
  }

  function ReadScalar(k: CodecKind, bs: seq<Byte>): (r: Result<Read<Val>, DecodeError>)
    requires IsScalar(k)
    ensures r.Ok? ==> 1 <= r.value.consumed <= |bs| && ScalarTyped(k, r.value.value)
  {
    match k
    case Varint(t) => var r :- ReadVarint(bs); Ok(Read(Int(FromWire(t, r.value)), r.consumed))
    case Bool => var r :- ReadVarint(bs); Ok(Read(Flag(r.value != 0), r.consumed))
    case Fixed32 => var r :- ReadFixed(bs, 4); Ok(Read(Bits(r.value), r.consumed))
    case Fixed64 => var r :- ReadFixed(bs, 8); Ok(Read(Bits(r.value), r.consumed))
    case LenBytes => var r :- ReadLen(bs); Ok(Read(Text(r.value), r.consumed))
    case _ =>
      var r :- ReadLen(bs);
      if ValidUtf8(r.value) then Ok(Read(Text(r.value), r.consumed)) else Err(InvalidUtf8)
  }

  /** The packed loop: items are read from the whole remaining input until `n` bytes are passed. */
  function ReadPacked(k: CodecKind, bs: seq<Byte>, n: nat): (r: Result<Read<seq<Val>>, DecodeError>)
    requires IsScalar(k)
    ensures r.Ok? ==> r.value.consumed <= |bs|
    decreases n
  {
    if n == 0 then Ok(Read([], 0))
    else
      var item :- ReadScalar(k, bs);
      var rest :- ReadPacked(k, bs[item.consumed..], if item.consumed < n then n - item.consumed else 0);
      Ok(Read([item.value] + rest.value, item.consumed + rest.consumed))
  }

  /** Length prefix, bounds check against the input, then the packed loop. */
  function ReadPackedBlock(k: CodecKind, bs: seq<Byte>): (r: Result<Read<seq<Val>>, DecodeError>)
    requires IsScalar(k)
    ensures r.Ok? ==> r.value.consumed <= |bs|
  {
    var h :- ReadVarint(bs);
    if h.consumed + h.value > |bs| then Err(UnexpectedEof) else
    var block :- ReadPacked(k, bs[h.consumed..], h.value);
    Ok(Read(block.value, h.consumed + block.consumed))
  }

  /** The decode arm of a repeated field: packed block, single item, or (no arm) a skip. */
  function RepeatedArm(inner: CodecKind, wt: WireTy, bs: seq<Byte>, items: seq<Val>)
    : (r: Result<Read<Val>, DecodeError>)
    ensures r.Ok? ==> r.value.consumed <= |bs|
  {
    if IsPackable(inner) then
      if wt == 2 then
        var block :- ReadPackedBlock(inner, bs);
        Ok(Read(List(items + block.value), block.consumed))
      else if inner.Varint? || inner.Bool? then
        var item :- ReadScalar(inner, bs);
        Ok(Read(List(items + [item.value]), item.consumed))
      else
        // an unpacked float is read as a varint and converted numerically
        var u :- ReadVarint(bs);
        Err(Unmodelled)
    else if IsText(inner) then
      var item :- ReadScalar(inner, bs);
      Ok(Read(List(items + [item.value]), item.consumed))
    else
      var n :- SkipWireValue(bs, wt);
      Ok(Read(List(items), n))
  }

  /** `gen_decode_arm`: the new value of a field holding `cur`, and the bytes taken. */
  function DecodeArm(k: CodecKind, wt: WireTy, bs: seq<Byte>, cur: Val): (r: Result<Read<Val>, DecodeError>)
    requires DerivableKind(k)
    ensures r.Ok? ==> r.value.consumed <= |bs|
    decreases k, 0
  {
    if IsScalar(k) then ReadScalar(k, bs)
    else
      match k
      case Message(ty) =>
        var r :- ReadLen(bs);
        var v :- Decode(ty, r.value);
        Ok(Read(v, r.consumed))
      case OptionalMessage(ty) =>
        var r :- ReadLen(bs);
        var v :- Decode(ty, r.value);
        Ok(Read(Present(v), r.consumed))
      case RepeatedMessage(ty) =>
        var r :- ReadLen(bs);
        var v :- Decode(ty, r.value);
        Ok(Read(List((if cur.List? then cur.items else []) + [v]), r.consumed))
      case Optional(inner) =>
        if HasArm(inner) then
          var r :- ReadScalar(inner, bs);
          Ok(Read(Present(r.value), r.consumed))
        else
          var n :- SkipWireValue(bs, wt);
          Ok(Read(cur, n))
      case Repeated(inner) => RepeatedArm(inner, wt, bs, if cur.List? then cur.items else [])
  }

  /** Index of the first field with this tag, or `|fs|`. */
  function FindTag(fs: seq<Field>, tag: U32): (i: nat)
    ensures i <= |fs|
    ensures i < |fs| ==> fs[i].tag == tag
    ensures forall j :: 0 <= j < i ==> fs[j].tag != tag
  {
    if fs == [] then 0 else if fs[0].tag == tag then 0 else 1 + FindTag(fs[1..], tag)
  }

  /** One turn of the generated struct loop: tag, then the field's arm or a skip. */
  function DecodeOne(fs: seq<Field>, bs: seq<Byte>, acc: seq<Val>): (r: Result<Read<seq<Val>>, DecodeError>)
    requires |acc| == |fs| && forall i :: 0 <= i < |fs| ==> DerivableKind(fs[i].kind)
    ensures r.Ok? ==> |r.value.value| == |fs| && 1 <= r.value.consumed <= |bs|
    decreases fs, 0
  {
    var t :- ReadVarint(bs);
    var body := bs[t.consumed..];
    var i := FindTag(fs, FieldNumber(t.value));
    if i < |fs| then
      var r :- DecodeArm(fs[i].kind, t.value % 8, body, acc[i]);
      Ok(Read(acc[i := r.value], t.consumed + r.consumed))
    else
      var n :- SkipWireValue(body, t.value % 8);
      Ok(Read(acc, t.consumed + n))
  }

  /** The generated struct decode loop over the unread input, with the field variables in `acc`. */
  function DecodeFields(fs: seq<Field>, bs: seq<Byte>, acc: seq<Val>): (r: Result<seq<Val>, DecodeError>)
    requires |acc| == |fs| && forall i :: 0 <= i < |fs| ==> DerivableKind(fs[i].kind)
    ensures r.Ok? ==> |r.value| == |fs|
    decreases fs, |bs| + 1
  {
    if bs == [] then Ok(acc)
    else
      var step :- DecodeOne(fs, bs, acc);
      DecodeFields(fs, bs[step.consumed..], step.value)
  }

  /** One turn of the generated oneof loop. */
  function DecodeOneCase(vs: seq<Field>, bs: seq<Byte>, cur: Val): (r: Result<Read<Val>, DecodeError>)
    requires forall i :: 0 <= i < |vs| ==> IsVariantKind(vs[i].kind) && DerivableKind(vs[i].kind)
    ensures r.Ok? ==> 1 <= r.value.consumed <= |bs|
    decreases vs, 0
  {
    var t :- ReadVarint(bs);
    var body := bs[t.consumed..];
    var i := FindTag(vs, FieldNumber(t.value));
    if i < |vs| then
      var r :- DecodeArm(vs[i].kind, t.value % 8, body, cur);
      Ok(Read(Case(i, r.value), t.consumed + r.consumed))
    else
      var n :- SkipWireValue(body, t.value % 8);
      Ok(Read(cur, t.consumed + n))
  }

  /** The generated oneof decode loop: the last recognised variant wins. */
  function DecodeCases(vs: seq<Field>, bs: seq<Byte>, cur: Val): (r: Result<Val, DecodeError>)
    requires forall i :: 0 <= i < |vs| ==> IsVariantKind(vs[i].kind) && DerivableKind(vs[i].kind)
    decreases vs, |bs| + 1
  {
    if bs == [] then Ok(cur)
    else
      var step :- DecodeOneCase(vs, bs, cur);
      DecodeCases(vs, bs[step.consumed..], step.value)
  }

  function FindVariant(tags: seq<U32>, tag: U32): (i: nat)
    ensures i <= |tags|
    ensures i < |tags| ==> tags[i] == tag
    ensures forall j :: 0 <= j < i ==> tags[j] != tag
  {
    if tags == [] then 0 else if tags[0] == tag then 0 else 1 + FindVariant(tags[1..], tag)
  }

  /** The generated `typeway_decode`. */
  function Decode(ty: MsgTy, bs: seq<Byte>): (r: Result<Val, DecodeError>)
    requires Derivable(ty)
    decreases ty
  {
    match ty
    case Struct(fs) =>
      var vals :- DecodeFields(fs, bs, Zeros(fs));
      Ok(Rec(vals))
    case OneOf(vs) => DecodeCases(vs, bs, Default(ty))
    case Enum(tags) =>
      if bs == [] then Ok(Unit(0)) else
      var r :- ReadVarint(bs);
      var i := FindVariant(tags, WrapU32(r.value));
      Ok(Unit(if i < |tags| then i else 0))
  }
}
