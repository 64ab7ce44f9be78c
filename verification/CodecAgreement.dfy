/** The two codecs agree. */
module CodecAgreement {
  // Source: typeway-macros/src/lib.rs, typeway-grpc/src/proto_codec.rs

  import opened Bytes
  import opened Varint
  import opened Wire
  import opened TextCodecs
  import D = DerivedCodec
  import opened RuntimeCodec
  import opened RuntimeLaws

  // ---- the field table of a struct ----

  /** The proto type a Rust field type maps to. */
  function TypeOf(k: D.CodecKind): (t: ProtoType) {
    match k
    case Varint(w) => (match w case U32Ty => TUint32 case U64Ty => TUint64 case I32Ty => TInt32 case I64Ty => TInt64)
    case Bool => TBool
    case Fixed32 => TFloat
    case Fixed64 => TDouble
    case LenString => TString
    case LenBytesStr => TString
    case LenBytes => TBytes
    case Optional(inner) => TypeOf(inner)
    case Repeated(inner) => TypeOf(inner)
    case _ => TNamed("")
  }

  predicate IsRepeated(k: D.CodecKind) { k.Repeated? || k.RepeatedMessage? }

  /** Structs and oneofs, accepted by the macro, with distinct tags and names. */
  predicate Tabular(ty: D.MsgTy) { !ty.Enum? && TabularFields(FieldsOf(ty)) }

  /** A oneof is described as a message with one field per variant. */
  function FieldsOf(ty: D.MsgTy): (fs: seq<D.Field>) {
    match ty
    case Struct(fs) => fs
    case OneOf(vs) => vs
    case Enum(_) => []
  }

  predicate TabularFields(fs: seq<D.Field>) {
    && D.DistinctTags(fs)
    && (forall i, j :: 0 <= i < j < |fs| ==> fs[i].name != fs[j].name)
    && (forall i :: 0 <= i < |fs| ==> TabularKind(fs[i].kind))
  }

  predicate TabularKind(k: D.CodecKind) {
    (k.Message? || k.OptionalMessage? || k.RepeatedMessage?) ==> Tabular(k.ty)
  }

  function TableField(f: D.Field): (d: FieldDef)
    requires TabularKind(f.kind)
    decreases f, 0
  {
    FieldDef(f.name, TypeOf(f.kind), f.tag, IsRepeated(f.kind),
             if f.kind.Message? || f.kind.OptionalMessage? || f.kind.RepeatedMessage?
             then NestedTable(f.kind.ty) else NoTable)
  }

  function NestedTable(ty: D.MsgTy): (n: Nested)
    requires Tabular(ty)
    decreases ty, 0
  {
    RuntimeCodec.Table(TableOf(FieldsOf(ty)))
  }

  function TableOf(fs: seq<D.Field>): (t: seq<FieldDef>)
    requires TabularFields(fs)
    ensures |t| == |fs|
    ensures forall i :: 0 <= i < |fs| ==> t[i] == TableField(fs[i])
    decreases fs, 0
  {
    seq(|fs|, i requires 0 <= i < |fs| => TableField(fs[i]))
  }

  lemma {:induction false} NestedTableIs(f: D.Field)
    requires TabularKind(f.kind) && (f.kind.Message? || f.kind.OptionalMessage? || f.kind.RepeatedMessage?)
    ensures Tabular(f.kind.ty) && TableField(f).ptype.TNamed?
    ensures TableField(f).nested == RuntimeCodec.Table(TableOf(FieldsOf(f.kind.ty)))
  {
    assert NestedTable(f.kind.ty) == RuntimeCodec.Table(TableOf(FieldsOf(f.kind.ty)));
  }

  // ---- the JSON view of a value ----

  function ScalarJson(k: D.CodecKind, v: D.Val): (j: Json)
    requires D.IsScalar(k) && D.ScalarTyped(k, v)
  {
    match k
    case Varint(_) => JInt(v.n)
    case Bool => JBool(v.on)
    case Fixed32 => if Finite32(v.bits) then JFloat32(v.bits) else JNull
    case Fixed64 => if Finite64(v.bits) then JFloat64(v.bits) else JNull
    case LenBytes => Base64Json(v.data)
    case _ => JStr(v.data)
  }

  function ScalarsJson(k: D.CodecKind, items: seq<D.Val>): (js: seq<Json>)
    requires D.IsScalar(k) && D.AllTyped(k, items)
    ensures |js| == |items|
  {
    if items == [] then [] else [ScalarJson(k, items[0])] + ScalarsJson(k, items[1..])
  }

  function MessagesJson(ty: D.MsgTy, items: seq<D.Val>): (js: seq<Json>)
    requires Tabular(ty) && forall i :: 0 <= i < |items| ==> D.HasType(ty, items[i])
    ensures |js| == |items|
    decreases ty, |items| + 1
  {
    if items == [] then [] else [JObj(ObjectJson(ty, items[0]))] + MessagesJson(ty, items[1..])
  }

  /** A field's JSON, or `None` when the encoder writes nothing for it. */
  function MemberJson(k: D.CodecKind, v: D.Val): (j: Option<Json>)
    requires TabularKind(k) && D.HasKind(k, v)
    decreases k, 0
  {
    if D.IsScalar(k) then if D.IsOmitted(k, v) then None else Some(ScalarJson(k, v))
    else
      match k
      case Optional(inner) =>
        if v.Absent? || !D.IsScalar(inner) then None else Some(ScalarJson(inner, v.inner))
      case Repeated(inner) =>
        if D.HasArm(inner) && v.items != [] then Some(JArr(ScalarsJson(inner, v.items))) else None
      case Message(ty) => if D.Encode(ty, v) == [] then None else Some(JObj(ObjectJson(ty, v)))
      case OptionalMessage(ty) => if v.Absent? then None else Some(JObj(ObjectJson(ty, v.inner)))
      case RepeatedMessage(ty) => if v.items == [] then None else Some(JArr(MessagesJson(ty, v.items)))
  }

  predicate Shown(fs: seq<D.Field>, vals: seq<D.Val>, i: nat)
    requires i < |fs| && TabularFields(fs) && D.FieldsTyped(fs, vals)
    decreases fs, 0
  {
    MemberJson(fs[i].kind, vals[i]).Some?
  }

  /** Every field that is not omitted, under its own name; of a oneof the present variant, default or not. */
  function ObjectJson(ty: D.MsgTy, v: D.Val): (m: map<string, Json>)
    requires Tabular(ty) && D.HasType(ty, v)
    decreases ty, 0
  {
    match ty
    case Struct(fs) => FieldsJson(fs, v.vals)
    case OneOf(vs) =>
      assert TabularFields(vs);
      map[vs[v.index].name := PayloadJson(vs[v.index].kind, v.payload)]
  }

  function PayloadJson(k: D.CodecKind, v: D.Val): (j: Json)
    requires D.IsVariantKind(k) && TabularKind(k) && D.HasKind(k, v)
    decreases k, 0
  {
    if k.Message? then JObj(ObjectJson(k.ty, v)) else ScalarJson(k, v)
  }

  function FieldsJson(fs: seq<D.Field>, vals: seq<D.Val>): (m: map<string, Json>)
    requires TabularFields(fs) && D.FieldsTyped(fs, vals)
    decreases fs, 1
  {
    map i | 0 <= i < |fs| && Shown(fs, vals, i) :: fs[i].name := MemberJson(fs[i].kind, vals[i]).value
  }

  // ---- scalars, and packed blocks read by the other decoder ----

  /** The raw value a scalar payload is read back as. */
  function RawOf(k: D.CodecKind, v: D.Val): (wv: WireValue)
    requires D.IsScalar(k) && D.ScalarTyped(k, v)
    ensures WellSized(wv)
  {
    match k
    case Varint(_) => VarintValue(WrapU64(v.n))
    case Bool => VarintValue(if v.on then 1 else 0)
    case Fixed32 => WireValue.Fixed32(v.bits)
    case Fixed64 => WireValue.Fixed64(v.bits)
    case _ => LengthDelimited(v.data)
  }

  lemma {:induction false} ScalarReads(k: D.CodecKind, v: D.Val, rest: seq<Byte>)
    requires D.IsScalar(k) && D.ScalarTyped(k, v) && |D.ScalarPayload(k, v)| < MAX_LEN
    ensures ReadWireValue(D.ScalarPayload(k, v) + rest, D.WireType(k)) == Ok(Read(RawOf(k, v), |D.ScalarPayload(k, v)|))
  {
    hide ReadVarint, ReadLen, ReadFixed;
    match k
    case Varint(_) => ReadVarintInverts(WrapU64(v.n), rest);
    case Bool =>
      assert VarintBytes(1) == [1] && VarintBytes(0) == [0];
      ReadVarintInverts(if v.on then 1 else 0, rest);
    case Fixed32 => ReadFixedInverts(v.bits, rest);
    case Fixed64 => ReadFixedInverts(v.bits, rest);
    case LenString => ReadLenInverts(v.data, rest);
    case LenBytesStr => ReadLenInverts(v.data, rest);
    case LenBytes => ReadLenInverts(v.data, rest);
  }

  lemma {:induction false} IntsAgree(w: D.IntTy, n: int)
    requires D.InRange(w, n)
    ensures VarintToJson(WrapU64(n), TypeOf(D.CodecKind.Varint(w))) == Ok(JInt(n))
  {
    if n < 0 && w.I32Ty? {
      assert n + 0x1_0000_0000_0000_0000 == n + 0x1_0000_0000 + 0x1_0000_0000 * 0xFFFF_FFFF;
    }
  }

  lemma {:induction false} ScalarAgrees(k: D.CodecKind, v: D.Val)
    requires D.IsScalar(k) && D.ScalarTyped(k, v)
    ensures WireToJson(RawOf(k, v), TypeOf(k), NoTable) == Ok(ScalarJson(k, v))
    ensures D.IsPackable(k) ==> !RawOf(k, v).LengthDelimited? && NumberToJson(RawOf(k, v), TypeOf(k)) == Ok(ScalarJson(k, v))
    ensures D.IsPackable(k) <==> IsPackable(TypeOf(k))
    ensures WireTypeFor(TypeOf(k)) == D.WireType(k)
  {
    if k.Varint? { IntsAgree(k.width, v.n); }
  }

  lemma {:induction false} PayloadNonEmpty(k: D.CodecKind, v: D.Val)
    requires D.IsScalar(k) && D.ScalarTyped(k, v)
    ensures D.ScalarPayload(k, v) != []
  {
  }

  /** A packed block written by one codec unpacks in the other to the same items. */
  lemma {:induction false} PackedAgrees(k: D.CodecKind, items: seq<D.Val>)
    requires D.IsPackable(k) && IsPackable(TypeOf(k)) && D.AllTyped(k, items) && |D.PackAll(k, items)| < MAX_LEN
    ensures UnpackScalars(D.PackAll(k, items), TypeOf(k)) == Ok(ScalarsJson(k, items))
  {
    hide D.ScalarPayload, D.ScalarTyped, ReadWireValue, NumberToJson, ScalarJson, RawOf;
    if items != [] {
      var head, tail := D.ScalarPayload(k, items[0]), D.PackAll(k, items[1..]);
      PayloadNonEmpty(k, items[0]);
      ScalarReads(k, items[0], tail);
      ScalarAgrees(k, items[0]);
      PackedAgrees(k, items[1..]);
      assert (head + tail)[|head|..] == tail;
    }
  }

  // ---- one field ----

  function AddField(f: D.Field, v: D.Val, st: State): (r: State)
    requires TabularKind(f.kind) && D.HasKind(f.kind, v)
  {
    match MemberJson(f.kind, v)
    case None => st
    case Some(j) => if IsRepeated(f.kind) then Push(st, f.name, if j.JArr? then j.items else [])
                    else st.(single := st.single[f.name := j])
  }

  lemma {:induction false} OneRecord(tag: U32, rec: D.Record)
    ensures D.WriteRecords(tag, [rec]) == TagBytes(tag, rec.wt) + rec.payload
  {
    assert [rec][1..] == [];
  }

  lemma {:induction false} NothingWritten(f: D.Field, v: D.Val, rest: seq<Byte>)
    requires D.HasKind(f.kind, v) && D.EncodeField(f, v) == []
    ensures D.EncodeField(f, v) + rest == rest
  {
  }

  /** A singular scalar, or the scalar inside an optional. */
  lemma {:induction false} ScalarFieldAgrees(fs: seq<D.Field>, i: nat, k: D.CodecKind, x: D.Val, rest: seq<Byte>, st: State)
    requires TabularFields(fs) && i < |fs| && D.IsScalar(k) && D.ScalarTyped(k, x)
    requires fs[i].kind == k || fs[i].kind == D.Optional(k)
    requires |D.ScalarPayload(k, x)| < MAX_LEN
    ensures DecodeLoop(TableOf(fs), TagBytes(fs[i].tag, D.WireType(k)) + D.ScalarPayload(k, x) + rest, st)
         == DecodeLoop(TableOf(fs), rest, st.(single := st.single[fs[i].name := ScalarJson(k, x)]))
  {
    hide D.ScalarPayload, D.ScalarTyped, ReadWireValue, WireToJson, NumberToJson, ScalarJson, RawOf, DecodeLoop;
    ScalarReads(k, x, rest);
    ScalarAgrees(k, x);
    var next := st.(single := st.single[fs[i].name := ScalarJson(k, x)]);
    assert Apply(TableOf(fs)[i], RawOf(k, x), st) == Ok(next);
    RecordStep(TableOf(fs), i, D.WireType(k), D.ScalarPayload(k, x), RawOf(k, x), rest, st, next);
  }

  lemma {:induction false} PlainScalarAgrees(fs: seq<D.Field>, i: nat, v: D.Val, rest: seq<Byte>, st: State)
    requires TabularFields(fs) && i < |fs| && D.IsScalar(fs[i].kind) && D.HasKind(fs[i].kind, v)
    requires !D.IsLongBool(fs[i], v) && |D.EncodeField(fs[i], v)| < MAX_LEN
    ensures DecodeLoop(TableOf(fs), D.EncodeField(fs[i], v) + rest, st)
         == DecodeLoop(TableOf(fs), rest, AddField(fs[i], v, st))
  {
    hide DecodeLoop, ScalarJson;
    var f := fs[i];
    if D.IsOmitted(f.kind, v) {
      NothingWritten(f, v, rest);
    } else {
      var rec := D.Record(D.WireType(f.kind), D.ScalarPayload(f.kind, v));
      OneRecord(f.tag, rec);
      ShortBoolTag(f, v);
      ScalarFieldAgrees(fs, i, f.kind, v, rest, st);
    }
  }

  /** With a one-byte tag, the two bytes of a plain `bool` are an ordinary record. */
  lemma {:induction false} ShortBoolTag(f: D.Field, v: D.Val)
    requires D.IsScalar(f.kind) && D.ScalarTyped(f.kind, v) && !D.IsOmitted(f.kind, v)
    requires !D.IsLongBool(f, v)
    ensures D.EncodeField(f, v) == TagBytes(f.tag, D.WireType(f.kind)) + D.ScalarPayload(f.kind, v)
  {
    OneRecord(f.tag, D.Record(D.WireType(f.kind), D.ScalarPayload(f.kind, v)));
  }

  lemma {:induction false} OptionalAgrees(fs: seq<D.Field>, i: nat, v: D.Val, rest: seq<Byte>, st: State)
    requires TabularFields(fs) && i < |fs| && fs[i].kind.Optional? && D.HasKind(fs[i].kind, v)
    requires |D.EncodeField(fs[i], v)| < MAX_LEN
    ensures DecodeLoop(TableOf(fs), D.EncodeField(fs[i], v) + rest, st)
         == DecodeLoop(TableOf(fs), rest, AddField(fs[i], v, st))
  {
    hide DecodeLoop, ScalarJson, D.ScalarPayload;
    var f, inner := fs[i], fs[i].kind.inner;
    if v.Absent? || !D.IsScalar(inner) {
      NothingWritten(f, v, rest);
    } else {
      OneRecord(f.tag, D.Record(D.WireType(inner), D.ScalarPayload(inner, v.inner)));
      ScalarFieldAgrees(fs, i, inner, v.inner, rest, st);
    }
  }

  lemma {:induction false} PackedFieldAgrees(fs: seq<D.Field>, i: nat, v: D.Val, rest: seq<Byte>, st: State)
    requires TabularFields(fs) && i < |fs| && fs[i].kind.Repeated? && D.IsPackable(fs[i].kind.inner)
    requires D.HasKind(fs[i].kind, v) && |D.EncodeField(fs[i], v)| < MAX_LEN
    ensures DecodeLoop(TableOf(fs), D.EncodeField(fs[i], v) + rest, st)
         == DecodeLoop(TableOf(fs), rest, AddField(fs[i], v, st))
  {
    hide DecodeLoop, ScalarsJson, D.PackAll, UnpackScalars, ReadLen, D.ScalarTyped;
    var f, inner := fs[i], fs[i].kind.inner;
    if v.items == [] {
      NothingWritten(f, v, rest);
    } else {
      var block := D.PackAll(inner, v.items);
      OneRecord(f.tag, D.Record(2, LenPrefixed(block)));
      ReadLenInverts(block, rest);
      PackedAgrees(inner, v.items);
      var next := Push(st, f.name, ScalarsJson(inner, v.items));
      assert Apply(TableOf(fs)[i], LengthDelimited(block), st) == Ok(next);
      RecordStep(TableOf(fs), i, 2, LenPrefixed(block), LengthDelimited(block), rest, st, next);
    }
  }

  lemma {:induction false} FirstRecord(tag: U32, rec: D.Record, rs: seq<D.Record>, rest: seq<Byte>)
    ensures D.WriteRecords(tag, [rec] + rs) + rest
         == TagBytes(tag, rec.wt) + rec.payload + (D.WriteRecords(tag, rs) + rest)
    ensures |D.WriteRecords(tag, [rec] + rs)| > |rec.payload| + |D.WriteRecords(tag, rs)|
  {
    assert ([rec] + rs)[1..] == rs;
    Cut(TagBytes(tag, rec.wt) + rec.payload, D.WriteRecords(tag, rs), rest);
  }

  lemma {:induction false} PushNone(st: State, name: string, a: Json, js: seq<Json>)
    ensures Push(Push(st, name, [a]), name, js) == Push(st, name, [a] + js)
  {
    PushPush(st, name, [a], js);
  }

  lemma {:induction false} TextItemsAgree(fs: seq<D.Field>, i: nat, items: seq<D.Val>, rest: seq<Byte>, st: State)
    requires TabularFields(fs) && i < |fs| && fs[i].kind.Repeated? && D.IsText(fs[i].kind.inner)
    requires D.AllTyped(fs[i].kind.inner, items) && items != []
    requires |D.WriteRecords(fs[i].tag, D.EmitScalars(fs[i].kind.inner, items))| < MAX_LEN
    ensures DecodeLoop(TableOf(fs), D.WriteRecords(fs[i].tag, D.EmitScalars(fs[i].kind.inner, items)) + rest, st)
         == DecodeLoop(TableOf(fs), rest, Push(st, fs[i].name, ScalarsJson(fs[i].kind.inner, items)))
    decreases |items|
  {
    hide DecodeLoop, D.ScalarPayload, D.ScalarTyped, ScalarJson, WireToJson, ReadWireValue, RawOf, Push;
    var f, inner := fs[i], fs[i].kind.inner;
    var rec, rs := D.Record(D.WireType(inner), D.ScalarPayload(inner, items[0])), D.EmitScalars(inner, items[1..]);
    var tail := D.WriteRecords(f.tag, rs) + rest;
    FirstRecord(f.tag, rec, rs, rest);
    ScalarReads(inner, items[0], tail);
    ScalarAgrees(inner, items[0]);
    var j := ScalarJson(inner, items[0]);
    assert Apply(TableOf(fs)[i], RawOf(inner, items[0]), st) == Ok(Push(st, f.name, [j]));
    RecordStep(TableOf(fs), i, rec.wt, rec.payload, RawOf(inner, items[0]), tail, st, Push(st, f.name, [j]));
    if items[1..] == [] {
      assert tail == rest;
      assert [j] + ScalarsJson(inner, items[1..]) == [j];
    } else {
      TextItemsAgree(fs, i, items[1..], rest, Push(st, f.name, [j]));
      PushNone(st, f.name, j, ScalarsJson(inner, items[1..]));
    }
  }

  /** One nested record: the other codec decodes the nested bytes under the nested table. */
  lemma {:induction false} NestedRecordAgrees(fs: seq<D.Field>, i: nat, x: D.Val, rest: seq<Byte>, st: State)
    requires TabularFields(fs) && i < |fs|
    requires fs[i].kind.Message? || fs[i].kind.OptionalMessage? || fs[i].kind.RepeatedMessage?
    requires TabularKind(fs[i].kind) && D.HasType(fs[i].kind.ty, x) && D.ShortBools(fs[i].kind.ty, x) && |D.Encode(fs[i].kind.ty, x)| < MAX_LEN
    ensures DecodeLoop(TableOf(fs), TagBytes(fs[i].tag, 2) + LenPrefixed(D.Encode(fs[i].kind.ty, x)) + rest, st)
         == DecodeLoop(TableOf(fs), rest,
              if IsRepeated(fs[i].kind) then Push(st, fs[i].name, [JObj(ObjectJson(fs[i].kind.ty, x))])
              else st.(single := st.single[fs[i].name := JObj(ObjectJson(fs[i].kind.ty, x))]))
    decreases fs[i].kind.ty, 3
  {
    hide DecodeLoop, ObjectJson, ReadLen, ProtoToJson, D.Encode, D.HasType, D.ShortBools;
    var ty := fs[i].kind.ty;
    var nested, j := D.Encode(ty, x), JObj(ObjectJson(ty, x));
    CodecsAgree(ty, x);
    ReadLenInverts(nested, rest);
    var next := if IsRepeated(fs[i].kind) then Push(st, fs[i].name, [j])
                else st.(single := st.single[fs[i].name := j]);
    var def := TableOf(fs)[i];
    NestedTableIs(fs[i]);
    assert WireToJson(LengthDelimited(nested), def.ptype, def.nested) == Ok(j);
    assert Apply(def, LengthDelimited(nested), st) == Ok(next);
    RecordStep(TableOf(fs), i, 2, LenPrefixed(nested), LengthDelimited(nested), rest, st, next);
  }

  lemma {:induction false} MessageAgrees(fs: seq<D.Field>, i: nat, v: D.Val, rest: seq<Byte>, st: State)
    requires TabularFields(fs) && i < |fs| && (fs[i].kind.Message? || fs[i].kind.OptionalMessage?)
    requires TabularKind(fs[i].kind) && D.HasKind(fs[i].kind, v) && D.ShortBoolsKind(fs[i].kind, v)
    requires |D.EncodeField(fs[i], v)| < MAX_LEN
    ensures DecodeLoop(TableOf(fs), D.EncodeField(fs[i], v) + rest, st)
         == DecodeLoop(TableOf(fs), rest, AddField(fs[i], v, st))
    decreases fs[i].kind, 0
  {
    hide DecodeLoop, ObjectJson;
    var f := fs[i];
    if v.Absent? || (f.kind.Message? && D.Encode(f.kind.ty, v) == []) {
      NothingWritten(f, v, rest);
    } else {
      var x := if f.kind.Message? then v else v.inner;
      OneRecord(f.tag, D.Record(2, LenPrefixed(D.Encode(f.kind.ty, x))));
      NestedRecordAgrees(fs, i, x, rest, st);
    }
  }

  lemma {:induction false} MessageItemsAgree(fs: seq<D.Field>, i: nat, items: seq<D.Val>, rest: seq<Byte>, st: State)
    requires TabularFields(fs) && i < |fs| && fs[i].kind.RepeatedMessage? && TabularKind(fs[i].kind)
    requires items != [] && forall j :: 0 <= j < |items| ==> D.HasType(fs[i].kind.ty, items[j]) && D.ShortBools(fs[i].kind.ty, items[j])
    requires |D.WriteRecords(fs[i].tag, D.EmitMessages(fs[i].kind.ty, items))| < MAX_LEN
    ensures DecodeLoop(TableOf(fs), D.WriteRecords(fs[i].tag, D.EmitMessages(fs[i].kind.ty, items)) + rest, st)
         == DecodeLoop(TableOf(fs), rest, Push(st, fs[i].name, MessagesJson(fs[i].kind.ty, items)))
    decreases fs[i].kind, |items|
  {
    hide DecodeLoop, ObjectJson, D.Encode, D.HasType, D.ShortBools, Push;
    var f, ty := fs[i], fs[i].kind.ty;
    var rec, rs := D.Record(2, LenPrefixed(D.Encode(ty, items[0]))), D.EmitMessages(ty, items[1..]);
    var tail := D.WriteRecords(f.tag, rs) + rest;
    FirstRecord(f.tag, rec, rs, rest);
    NestedRecordAgrees(fs, i, items[0], tail, st);
    var j := JObj(ObjectJson(ty, items[0]));
    if items[1..] == [] {
      assert tail == rest;
      assert [j] + MessagesJson(ty, items[1..]) == [j];
    } else {
      MessageItemsAgree(fs, i, items[1..], rest, Push(st, f.name, [j]));
      PushNone(st, f.name, j, MessagesJson(ty, items[1..]));
    }
  }

  lemma {:induction false} NoMessages(f: D.Field, v: D.Val)
    requires f.kind.RepeatedMessage? && D.HasKind(f.kind, v) && v.items == []
    ensures D.EncodeField(f, v) == []
  {
    assert D.Emits(f.kind, v) == D.EmitMessages(f.kind.ty, []) == [];
  }

  lemma {:induction false} FieldAgrees(fs: seq<D.Field>, i: nat, v: D.Val, rest: seq<Byte>, st: State)
    requires TabularFields(fs) && i < |fs| && TabularKind(fs[i].kind) && D.HasKind(fs[i].kind, v)
    requires !D.IsLongBool(fs[i], v) && D.ShortBoolsKind(fs[i].kind, v) && |D.EncodeField(fs[i], v)| < MAX_LEN
    ensures DecodeLoop(TableOf(fs), D.EncodeField(fs[i], v) + rest, st)
         == DecodeLoop(TableOf(fs), rest, AddField(fs[i], v, st))
    decreases fs[i].kind, 1 + if v.List? then |v.items| else 0
  {
    hide DecodeLoop, ObjectJson, ScalarJson, D.ScalarTyped;
    match fs[i].kind
    case Optional(_) => OptionalAgrees(fs, i, v, rest, st);
    case Repeated(inner) =>
      if D.IsPackable(inner) { PackedFieldAgrees(fs, i, v, rest, st); }
      else if D.IsText(inner) && v.items != [] { TextItemsAgree(fs, i, v.items, rest, st); }
      else { NothingWritten(fs[i], v, rest); }
    case RepeatedMessage(_) =>
      if v.items == [] {
        NoMessages(fs[i], v);
        NothingWritten(fs[i], v, rest);
      } else { MessageItemsAgree(fs, i, v.items, rest, st); }
    case Message(_) => MessageAgrees(fs, i, v, rest, st);
    case OptionalMessage(_) => MessageAgrees(fs, i, v, rest, st);
    case _ => PlainScalarAgrees(fs, i, v, rest, st);
  }

  // ---- whole structs ----

  ghost function Upto(fs: seq<D.Field>, vals: seq<D.Val>, i: nat): (st: State)
    requires TabularFields(fs) && D.FieldsTyped(fs, vals) && i <= |fs|
  {
    if i == 0 then EMPTY else AddField(fs[i - 1], vals[i - 1], Upto(fs, vals, i - 1))
  }

  lemma {:induction false} LoopEnds(fields: seq<FieldDef>, st: State)
    ensures DecodeLoop(fields, [], st) == Ok(st)
  {
  }

  lemma {:induction false} FieldsAgree(fs: seq<D.Field>, vals: seq<D.Val>, i: nat)
    requires TabularFields(fs) && D.FieldsTyped(fs, vals) && i <= |fs|
    requires D.ShortBoolFields(fs, vals) && |D.EncodeFrom(fs, vals, i)| < MAX_LEN
    ensures DecodeLoop(TableOf(fs), D.EncodeFrom(fs, vals, i), Upto(fs, vals, i)) == Ok(Upto(fs, vals, |fs|))
    decreases fs, |fs| - i
  {
    hide D.EncodeField, AddField, D.HasKind, DecodeLoop, TableOf, MemberJson, TableField;
    if i == |fs| {
      LoopEnds(TableOf(fs), Upto(fs, vals, i));
    } else {
      FieldAgrees(fs, i, vals[i], D.EncodeFrom(fs, vals, i + 1), Upto(fs, vals, i));
      FieldsAgree(fs, vals, i + 1);
    }
  }

  /** Fields before `i` are in the state exactly when shown, on the side of their kind. */
  ghost predicate Holds(fs: seq<D.Field>, vals: seq<D.Val>, i: nat, st: State)
    requires TabularFields(fs) && D.FieldsTyped(fs, vals) && i <= |fs|
  {
    && (forall name :: name in st.single || name in st.many ==> exists k :: 0 <= k < i && fs[k].name == name)
    && (forall k :: 0 <= k < i ==> HoldsField(fs[k], MemberJson(fs[k].kind, vals[k]), st))
  }

  ghost predicate HoldsField(f: D.Field, j: Option<Json>, st: State) {
    match j
    case None => f.name !in st.single && f.name !in st.many
    case Some(x) =>
      if IsRepeated(f.kind) then f.name !in st.single && f.name in st.many && JArr(st.many[f.name]) == x
      else f.name in st.single && f.name !in st.many && st.single[f.name] == x
  }

  lemma {:induction false} AddHolds(f: D.Field, v: D.Val, st: State)
    requires TabularKind(f.kind) && D.HasKind(f.kind, v) && f.name !in st.single && f.name !in st.many
    ensures HoldsField(f, MemberJson(f.kind, v), AddField(f, v, st))
  {
    hide ObjectJson, ScalarJson, D.ScalarTyped;
    if IsRepeated(f.kind) && MemberJson(f.kind, v).Some? {
      assert [] + MemberJson(f.kind, v).value.items == MemberJson(f.kind, v).value.items;
    }
  }

  lemma {:induction false} AddKeeps(f: D.Field, v: D.Val, g: D.Field, j: Option<Json>, st: State)
    requires TabularKind(f.kind) && D.HasKind(f.kind, v) && f.name != g.name && HoldsField(g, j, st)
    ensures HoldsField(g, j, AddField(f, v, st))
  {
    hide MemberJson;
  }

  lemma {:induction false} UptoHolds(fs: seq<D.Field>, vals: seq<D.Val>, i: nat)
    requires TabularFields(fs) && D.FieldsTyped(fs, vals) && i <= |fs|
    ensures Holds(fs, vals, i, Upto(fs, vals, i))
  {
    hide MemberJson, HoldsField, D.HasKind, TabularKind;
    if i > 0 {
      var st, f := Upto(fs, vals, i - 1), fs[i - 1];
      UptoHolds(fs, vals, i - 1);
      assert forall k :: 0 <= k < i - 1 ==> fs[k].name != f.name;
      AddHolds(f, vals[i - 1], st);
      forall k | 0 <= k < i - 1
        ensures HoldsField(fs[k], MemberJson(fs[k].kind, vals[k]), AddField(f, vals[i - 1], st)) {
        AddKeeps(f, vals[i - 1], fs[k], MemberJson(fs[k].kind, vals[k]), st);
      }
      AddNames(f, vals[i - 1], st);
    }
  }

  lemma {:induction false} AddNames(f: D.Field, v: D.Val, st: State)
    requires TabularKind(f.kind) && D.HasKind(f.kind, v)
    ensures forall name :: name in AddField(f, v, st).single || name in AddField(f, v, st).many ==>
              name == f.name || name in st.single || name in st.many
  {
    hide MemberJson;
  }

  lemma {:induction false} FieldsJsonAt(fs: seq<D.Field>, vals: seq<D.Val>, k: nat)
    requires TabularFields(fs) && D.FieldsTyped(fs, vals) && k < |fs|
    ensures var j := MemberJson(fs[k].kind, vals[k]);
            (fs[k].name in FieldsJson(fs, vals) <==> j.Some?) && (j.Some? ==> FieldsJson(fs, vals)[fs[k].name] == j.value)
  {
    hide MemberJson, TabularKind, D.HasKind;
    if Shown(fs, vals, k) { assert fs[k].name in FieldsJson(fs, vals); }
  }

  lemma {:induction false} FieldFinishes(f: D.Field, j: Option<Json>, st: State)
    requires HoldsField(f, j, st)
    ensures f.name in Finish(st) <==> j.Some?
    ensures j.Some? ==> Finish(st)[f.name] == j.value
  {
  }

  lemma {:induction false} FinishAgrees(fs: seq<D.Field>, vals: seq<D.Val>, st: State)
    requires TabularFields(fs) && D.FieldsTyped(fs, vals) && Holds(fs, vals, |fs|, st)
    ensures Finish(st) == FieldsJson(fs, vals)
  {
    hide MemberJson, Finish, HoldsField, TabularKind, D.HasKind;
    var a, b := Finish(st), FieldsJson(fs, vals);
    FinishNames(st);
    forall name ensures name in a <==> name in b
      ensures name in a ==> a[name] == b[name] {
      if k :| 0 <= k < |fs| && fs[k].name == name { BothAt(fs, vals, st, k); }
    }
    assert a.Keys == b.Keys;
  }

  lemma {:induction false} BothAt(fs: seq<D.Field>, vals: seq<D.Val>, st: State, k: nat)
    requires TabularFields(fs) && D.FieldsTyped(fs, vals) && Holds(fs, vals, |fs|, st) && k < |fs|
    ensures fs[k].name in Finish(st) <==> fs[k].name in FieldsJson(fs, vals)
    ensures fs[k].name in Finish(st) ==> Finish(st)[fs[k].name] == FieldsJson(fs, vals)[fs[k].name]
  {
    hide MemberJson, Finish, HoldsField, FieldsJson;
    FieldFinishes(fs[k], MemberJson(fs[k].kind, vals[k]), st);
    FieldsJsonAt(fs, vals, k);
  }

  lemma {:induction false} FinishNames(st: State)
    ensures forall name :: name in Finish(st) <==> name in st.single || name in st.many
  {
  }

  lemma {:induction false} CaseEncodes(vs: seq<D.Field>, v: D.Val)
    requires D.HasType(D.OneOf(vs), v)
    ensures var f := vs[v.index];
            && D.HasKind(f.kind, v.payload) && (f.kind.Message? ==> D.HasType(f.kind.ty, v.payload))
            && D.Encode(D.OneOf(vs), v)
            == TagBytes(f.tag, D.WireType(f.kind))
             + (if f.kind.Message? then LenPrefixed(D.Encode(f.kind.ty, v.payload)) else D.ScalarPayload(f.kind, v.payload))
  {
  }

  /** A oneof is the object of its present variant alone. */
  lemma {:induction false} OneOfAgrees(vs: seq<D.Field>, v: D.Val)
    requires Tabular(D.OneOf(vs)) && D.HasType(D.OneOf(vs), v) && D.ShortBools(D.OneOf(vs), v)
    requires |D.Encode(D.OneOf(vs), v)| < MAX_LEN
    ensures ProtoToJson(D.Encode(D.OneOf(vs), v), TableOf(vs)) == Ok(JObj(ObjectJson(D.OneOf(vs), v)))
    decreases D.OneOf(vs), 1
  {
    hide DecodeLoop, ScalarJson, D.ScalarPayload, D.Encode;
    var i, f := v.index, vs[v.index];
    var bs := D.Encode(D.OneOf(vs), v);
    CaseEncodes(vs, v);
    assert bs + [] == bs;
    if f.kind.Message? { NestedRecordAgrees(vs, i, v.payload, [], EMPTY); }
    else { ScalarFieldAgrees(vs, i, f.kind, v.payload, [], EMPTY); }
    var st := EMPTY.(single := EMPTY.single[f.name := PayloadJson(f.kind, v.payload)]);
    LoopEnds(TableOf(vs), st);
    assert Finish(st) == ObjectJson(D.OneOf(vs), v);
  }

  /**
    The table-driven decoder, on the bytes of the generated encoder and the table of the same type, gives
    exactly the fields that were not omitted, and of a oneof its present variant, at every nesting depth, if
    no bool is set under a long tag.
  */
  lemma {:induction false} CodecsAgree(ty: D.MsgTy, v: D.Val)
    requires Tabular(ty) && D.HasType(ty, v) && D.ShortBools(ty, v) && |D.Encode(ty, v)| < MAX_LEN
    ensures ProtoToJson(D.Encode(ty, v), TableOf(FieldsOf(ty))) == Ok(JObj(ObjectJson(ty, v)))
    decreases ty, 2
  {
    hide DecodeLoop, Finish, FieldsJson, AddField, MemberJson, Holds;
    match ty
    case Struct(fs) =>
      FieldsAgree(fs, v.vals, 0);
      UptoHolds(fs, v.vals, |fs|);
      FinishAgrees(fs, v.vals, Upto(fs, v.vals, |fs|));
    case OneOf(vs) => OneOfAgrees(vs, v);
  }

  // ---- where they do not: fields of a fieldless enum type ----

  /** An enum field of a proto file: a number, written as a varint. */
  function EnumField(f: D.Field): (d: FieldDef) { FieldDef(f.name, TEnum, f.tag, false, NoTable) }

  lemma {:induction false} TagsDiffer(tag: U32, a: seq<Byte>, b: seq<Byte>)
    ensures TagBytes(tag, 0) + a != TagBytes(tag, 2) + b
  {
    ReadTagInverts(tag, 0, a);
    ReadTagInverts(tag, 2, b);
  }

  /**
    The generated codec puts the variant's number behind a length, so no variant is written as the other
    codec writes it, and no number other than zero that the other codec writes alone is read.
  */
  lemma {:induction false} EnumsDisagree(f: D.Field, tags: seq<U32>, i: nat)
    requires f.kind == D.Message(D.Enum(tags)) && i < |tags| && f.tag >= 1
    ensures D.HasKind(f.kind, D.Unit(i)) && D.Derivable(D.Struct([f]))
    ensures var member := EncodeMember(EnumField(f), JInt(tags[i]));
            && member.Ok? && member.value != D.EncodeField(f, D.Unit(i))
            && (tags[i] != 0 ==> D.Decode(D.Struct([f]), member.value) == Err(UnexpectedEof))
  {
    var nested, n := VarintBytes(tags[i]), tags[i];
    EnumMember(f, n);
    EnumRecord(f, tags, i);
    assert D.Derivable(f.kind.ty) && [f][0] == f;
    if n != 0 {
      TagsDiffer(f.tag, nested, LenPrefixed(nested));
      NumberIsNoLength(f, n);
    }
  }

  lemma {:induction false} EnumMember(f: D.Field, n: U32)
    ensures EncodeMember(EnumField(f), JInt(n)) == Ok(if n == 0 then [] else TagBytes(f.tag, 0) + VarintBytes(n))
  {
    assert IntPayload(TEnum, JInt(n)) == Ok(VarintBytes(n));
    assert Payload(TEnum, NoTable, JInt(n)) == Ok(VarintBytes(n));
  }

  lemma {:induction false} EnumRecord(f: D.Field, tags: seq<U32>, i: nat)
    requires f.kind == D.Message(D.Enum(tags)) && i < |tags|
    ensures D.HasKind(f.kind, D.Unit(i))
    ensures D.EncodeField(f, D.Unit(i)) == TagBytes(f.tag, 2) + LenPrefixed(VarintBytes(tags[i])) != []
  {
    var rec := D.Record(2, LenPrefixed(VarintBytes(tags[i])));
    assert D.HasType(D.Enum(tags), D.Unit(i)) && D.Encode(D.Enum(tags), D.Unit(i)) == VarintBytes(tags[i]);
    assert D.Emits(f.kind, D.Unit(i)) == [rec];
    OneRecord(f.tag, rec);
  }

  /** A number at the end of the input, read as a length. */
  lemma {:induction false} NumberIsNoLength(f: D.Field, n: U32)
    requires D.Derivable(D.Struct([f])) && f.kind.Message? && n != 0
    ensures D.Decode(D.Struct([f]), TagBytes(f.tag, 0) + VarintBytes(n)) == Err(UnexpectedEof)
  {
    var fs, bs := [f], TagBytes(f.tag, 0) + VarintBytes(n);
    ReadTagInverts(f.tag, 0, VarintBytes(n));
    ReadVarintInverts(n, []);
    assert VarintBytes(n) + [] == VarintBytes(n);
    assert bs[|TagBytes(f.tag, 0)|..] == VarintBytes(n);
    assert ReadLen(VarintBytes(n)) == Err(UnexpectedEof);
    assert D.DecodeOne(fs, bs, D.Zeros(fs)) == Err(UnexpectedEof);
  }
}
