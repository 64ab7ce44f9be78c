/** Generated lengths against generated encodings (typeway-macros/src/lib.rs). */
module DerivedLen {
  import opened Bytes
  import opened Varint
  import opened Wire
  import opened DerivedCodec

  /** The macro's tag-size table. */
  function TagLen(tag: U32): (n: nat) { if tag < 16 then 1 else if tag < 2048 then 2 else 3 }

  /** Length prefix plus contents. */
  function PrefixedLen(n: nat): (r: nat) { VarintLen(WrapU64(n)) + n }

  function ScalarLen(k: CodecKind, v: Val): (n: nat)
    requires IsScalar(k) && ScalarTyped(k, v)
  {
    match k
    case Varint(_) => VarintLen(WrapU64(v.n))
    case Bool => 1
    case Fixed32 => 4
    case Fixed64 => 8
    case _ => PrefixedLen(|v.data|)
  }

  function PackedLen(k: CodecKind, items: seq<Val>): (n: nat)
    requires IsScalar(k) && AllTyped(k, items)
  {
    if items == [] then 0 else ScalarLen(k, items[0]) + PackedLen(k, items[1..])
  }

  function TextsLen(tagLen: nat, k: CodecKind, items: seq<Val>): (n: nat)
    requires IsScalar(k) && AllTyped(k, items)
  {
    if items == [] then 0 else tagLen + ScalarLen(k, items[0]) + TextsLen(tagLen, k, items[1..])
  }

  /** `gen_encoded_len_field`: what one field adds to the running length. */
  function FieldLen(f: Field, v: Val): (n: nat)
    requires HasKind(f.kind, v)
    decreases f.kind, 0
  {
    if IsScalar(f.kind) then
      if IsOmitted(f.kind, v) then 0 else TagLen(f.tag) + ScalarLen(f.kind, v)
    else
      match f.kind
      case Message(ty) =>
        var nested := EncodedLen(ty, v);
        if nested > 0 then TagLen(f.tag) + PrefixedLen(nested) else 0
      case OptionalMessage(ty) =>
        if v.Absent? then 0 else TagLen(f.tag) + PrefixedLen(EncodedLen(ty, v.inner))
      case RepeatedMessage(ty) => MessagesLen(TagLen(f.tag), ty, v.items)
      case Optional(inner) =>
        if v.Absent? || !HasArm(inner) then 0 else TagLen(f.tag) + ScalarLen(inner, v.inner)
      case Repeated(inner) =>
        if IsPackable(inner) then
          if v.items == [] then 0 else TagLen(f.tag) + PrefixedLen(PackedLen(inner, v.items))
        else if IsText(inner) then TextsLen(TagLen(f.tag), inner, v.items)
        else 0
  }

  function MessagesLen(tagLen: nat, ty: MsgTy, items: seq<Val>): (n: nat)
    requires forall i :: 0 <= i < |items| ==> HasType(ty, items[i])
    decreases ty, |items| + 1
  {
    if items == [] then 0
    else tagLen + PrefixedLen(EncodedLen(ty, items[0])) + MessagesLen(tagLen, ty, items[1..])
  }

  function FieldsLen(fs: seq<Field>, vals: seq<Val>, i: nat): (n: nat)
    requires FieldsTyped(fs, vals) && i <= |fs|
    decreases fs, |fs| - i
  {
    if i == |fs| then 0 else FieldLen(fs[i], vals[i]) + FieldsLen(fs, vals, i + 1)
  }

  function CaseLen(f: Field, v: Val): (n: nat)
    requires IsVariantKind(f.kind) && HasKind(f.kind, v)
    decreases f.kind, 1
  {
    TagLen(f.tag) + if f.kind.Message? then PrefixedLen(EncodedLen(f.kind.ty, v)) else ScalarLen(f.kind, v)
  }

  /** The generated `encoded_len`. */
  function EncodedLen(ty: MsgTy, v: Val): (n: nat)
    requires HasType(ty, v)
    decreases ty, 0
  {
    match ty
    case Struct(fs) => FieldsLen(fs, v.vals, 0)
    case OneOf(vs) => CaseLen(vs[v.index], v.payload)
    case Enum(tags) => VarintLen(tags[v.index])
  }

  // ---- the condition: what is written has table-sized tags and no unmeasured optional bytes ----

  const LONG_TAG: int := 0x4_0000

  predicate MeasuredField(f: Field, v: Val)
    requires HasKind(f.kind, v)
    decreases f.kind, 0
  {
    if IsScalar(f.kind) then !IsOmitted(f.kind, v) ==> f.tag < LONG_TAG
    else
      match f.kind
      case Message(ty) => Encode(ty, v) != [] ==> f.tag < LONG_TAG && Measured(ty, v)
      case OptionalMessage(ty) => v.Present? ==> f.tag < LONG_TAG && Measured(ty, v.inner)
      case RepeatedMessage(ty) =>
        v.items != [] ==>
          f.tag < LONG_TAG && forall i :: 0 <= i < |v.items| ==> Measured(ty, v.items[i])
      case Optional(inner) =>
        v.Present? ==> if HasArm(inner) then f.tag < LONG_TAG else !inner.LenBytes?
      case Repeated(inner) => HasArm(inner) && v.items != [] ==> f.tag < LONG_TAG
  }

  predicate MeasuredFields(fs: seq<Field>, vals: seq<Val>, i: nat)
    requires FieldsTyped(fs, vals) && i <= |fs|
    decreases fs, |fs| - i
  {
    i < |fs| ==> MeasuredField(fs[i], vals[i]) && MeasuredFields(fs, vals, i + 1)
  }

  predicate MeasuredCase(f: Field, v: Val)
    requires IsVariantKind(f.kind) && HasKind(f.kind, v)
    decreases f.kind, 1
  {
    f.tag < LONG_TAG && (f.kind.Message? ==> Measured(f.kind.ty, v))
  }

  predicate Measured(ty: MsgTy, v: Val)
    requires HasType(ty, v)
    decreases ty, 0
  {
    match ty
    case Struct(fs) => MeasuredFields(fs, v.vals, 0)
    case OneOf(vs) => MeasuredCase(vs[v.index], v.payload)
    case Enum(_) => true
  }

  // ---- arithmetic of tags and prefixes ----

  lemma {:induction false} TagLenBound(tag: U32, wt: WireTy)
    ensures TagLen(tag) <= |TagBytes(tag, wt)|
    ensures TagLen(tag) == |TagBytes(tag, wt)| <==> tag < LONG_TAG
  {
    var v := 8 * tag + wt;
    VarintLength(v, 1);
    VarintLength(v, 2);
    VarintLength(v, 3);
    assert Pow128(1) == 0x80 && Pow128(2) == 0x4000 && Pow128(3) == 0x20_0000;
  }

  lemma {:induction false} VarintBytesMonotone(a: nat, b: nat)
    requires a <= b
    ensures |VarintBytes(a)| <= |VarintBytes(b)|
  {
    if a >= 0x80 { VarintBytesMonotone(a / 0x80, b / 0x80); }
  }

  /** `len` plus its prefix grows strictly with `len`, so nested shortfalls never cancel. */
  lemma {:induction false} PrefixedLenCompare(n: nat, data: seq<Byte>)
    requires n <= |data| < MAX_LEN
    ensures PrefixedLen(n) <= |LenPrefixed(data)|
    ensures PrefixedLen(n) == |LenPrefixed(data)| <==> n == |data|
  {
    hide VarintLen, VarintBytes;
    VarintLenExact(n);
    VarintLenExact(|data|);
    VarintBytesMonotone(n, |data|);
    assert |LenPrefixed(data)| == |VarintBytes(|data|)| + |data|;
  }

  lemma {:induction false} ScalarLenExact(k: CodecKind, v: Val)
    requires IsScalar(k) && ScalarTyped(k, v) && |ScalarPayload(k, v)| < MAX_LEN
    ensures ScalarLen(k, v) == |ScalarPayload(k, v)|
  {
    match k
    case Varint(_) => VarintLenExact(WrapU64(v.n));
    case LenString => PrefixedLenCompare(|v.data|, v.data);
    case LenBytesStr => PrefixedLenCompare(|v.data|, v.data);
    case LenBytes => PrefixedLenCompare(|v.data|, v.data);
    case _ =>
  }

  lemma {:induction false} PackedLenExact(k: CodecKind, items: seq<Val>)
    requires IsScalar(k) && AllTyped(k, items) && |PackAll(k, items)| < MAX_LEN
    ensures PackedLen(k, items) == |PackAll(k, items)|
  {
    if items != [] {
      ScalarLenExact(k, items[0]);
      PackedLenExact(k, items[1..]);
    }
  }

  // ---- one field ----

  lemma {:induction false} OneRecordLen(tag: U32, rec: Record)
    ensures WriteRecords(tag, [rec]) == TagBytes(tag, rec.wt) + rec.payload
  {
    assert [rec][1..] == [];
  }

  lemma {:induction false} ScalarFieldLen(f: Field, v: Val)
    requires IsScalar(f.kind) && HasKind(f.kind, v) && !IsLongBool(f, v)
    requires |EncodeField(f, v)| < MAX_LEN
    ensures FieldLen(f, v) <= |EncodeField(f, v)|
    ensures FieldLen(f, v) == |EncodeField(f, v)| <==> MeasuredField(f, v)
  {
    if f.kind.Bool? {
    } else if !IsOmitted(f.kind, v) {
      var rec := Record(WireType(f.kind), ScalarPayload(f.kind, v));
      OneRecordLen(f.tag, rec);
      TagLenBound(f.tag, rec.wt);
      ScalarLenExact(f.kind, v);
    }
  }

  lemma {:induction false} OptionalFieldLen(f: Field, v: Val)
    requires f.kind.Optional? && HasKind(f.kind, v)
    requires |EncodeField(f, v)| < MAX_LEN
    ensures FieldLen(f, v) <= |EncodeField(f, v)|
    ensures FieldLen(f, v) == |EncodeField(f, v)| <==> MeasuredField(f, v)
  {
    var inner := f.kind.inner;
    if v.Present? && IsScalar(inner) {
      var rec := Record(WireType(inner), ScalarPayload(inner, v.inner));
      OneRecordLen(f.tag, rec);
      TagLenBound(f.tag, rec.wt);
      ScalarLenExact(inner, v.inner);
    }
  }

  lemma {:induction false} PackedFieldLen(f: Field, v: Val)
    requires f.kind.Repeated? && HasKind(f.kind, v) && IsPackable(f.kind.inner)
    requires |EncodeField(f, v)| < MAX_LEN
    ensures FieldLen(f, v) <= |EncodeField(f, v)|
    ensures FieldLen(f, v) == |EncodeField(f, v)| <==> MeasuredField(f, v)
  {
    var inner := f.kind.inner;
    if v.items != [] {
      var block := PackAll(inner, v.items);
      OneRecordLen(f.tag, Record(2, LenPrefixed(block)));
      TagLenBound(f.tag, 2);
      PackedLenExact(inner, v.items);
      PrefixedLenCompare(|block|, block);
    }
  }

  lemma {:induction false} TextsLenCompare(tag: U32, k: CodecKind, items: seq<Val>)
    requires IsText(k) && AllTyped(k, items) && |WriteRecords(tag, EmitScalars(k, items))| < MAX_LEN
    ensures TextsLen(TagLen(tag), k, items) <= |WriteRecords(tag, EmitScalars(k, items))|
    ensures TextsLen(TagLen(tag), k, items) == |WriteRecords(tag, EmitScalars(k, items))|
       <==> (items != [] ==> tag < LONG_TAG)
  {
    hide ScalarPayload, ScalarTyped, ScalarLen, TagLen;
    if items != [] {
      assert EmitScalars(k, items)[1..] == EmitScalars(k, items[1..]);
      TextsLenCompare(tag, k, items[1..]);
      ScalarLenExact(k, items[0]);
      TagLenBound(tag, WireType(k));
    }
  }

  lemma {:induction false} MessagesLenCompare(tag: U32, ty: MsgTy, items: seq<Val>)
    requires forall i :: 0 <= i < |items| ==> HasType(ty, items[i]) && ShortBools(ty, items[i])
    requires |WriteRecords(tag, EmitMessages(ty, items))| < MAX_LEN
    ensures MessagesLen(TagLen(tag), ty, items) <= |WriteRecords(tag, EmitMessages(ty, items))|
    ensures MessagesLen(TagLen(tag), ty, items) == |WriteRecords(tag, EmitMessages(ty, items))|
       <==> (items != [] ==> tag < LONG_TAG && forall i :: 0 <= i < |items| ==> Measured(ty, items[i]))
    decreases ty, |items| + 1
  {
    hide TagLen, HasType, Encode, EncodedLen;
    if items != [] {
      assert EmitMessages(ty, items)[1..] == EmitMessages(ty, items[1..]);
      MessagesLenCompare(tag, ty, items[1..]);
      LenExact(ty, items[0]);
      PrefixedLenCompare(EncodedLen(ty, items[0]), Encode(ty, items[0]));
      TagLenBound(tag, 2);
      AllMeasured(ty, items);
    }
  }

  lemma {:induction false} AllMeasured(ty: MsgTy, items: seq<Val>)
    requires |items| > 0 && forall i :: 0 <= i < |items| ==> HasType(ty, items[i])
    ensures (forall i :: 0 <= i < |items| ==> Measured(ty, items[i])) <==>
            Measured(ty, items[0]) && forall i :: 0 <= i < |items[1..]| ==> Measured(ty, items[1..][i])
  {
    if forall i :: 0 <= i < |items[1..]| ==> Measured(ty, items[1..][i]) {
      forall i | 1 <= i < |items| ensures Measured(ty, items[i]) {
        assert items[i] == items[1..][i - 1];
      }
    }
  }

  lemma {:induction false} MessageFieldLen(f: Field, v: Val)
    requires f.kind.Message? || f.kind.OptionalMessage?
    requires HasKind(f.kind, v) && ShortBoolsKind(f.kind, v) && |EncodeField(f, v)| < MAX_LEN
    ensures FieldLen(f, v) <= |EncodeField(f, v)|
    ensures FieldLen(f, v) == |EncodeField(f, v)| <==> MeasuredField(f, v)
    decreases f.kind, 0
  {
    var ty := f.kind.ty;
    if !v.Absent? {
      var inner := if f.kind.Message? then v else v.inner;
      var nested := Encode(ty, inner);
      OneRecordLen(f.tag, Record(2, LenPrefixed(nested)));
      TagLenBound(f.tag, 2);
      LenExact(ty, inner);
      PrefixedLenCompare(EncodedLen(ty, inner), nested);
    }
  }

  lemma {:induction false} FieldLenCompare(f: Field, v: Val)
    requires HasKind(f.kind, v) && !IsLongBool(f, v) && ShortBoolsKind(f.kind, v) && |EncodeField(f, v)| < MAX_LEN
    ensures FieldLen(f, v) <= |EncodeField(f, v)|
    ensures FieldLen(f, v) == |EncodeField(f, v)| <==> MeasuredField(f, v)
    decreases f.kind, 1 + if v.List? then |v.items| + 1 else 0
  {
    match f.kind
    case Optional(_) => OptionalFieldLen(f, v);
    case Repeated(inner) =>
      if IsPackable(inner) { PackedFieldLen(f, v); }
      else if IsText(inner) { TextsLenCompare(f.tag, inner, v.items); }
    case RepeatedMessage(ty) => MessagesLenCompare(f.tag, ty, v.items);
    case Message(_) => MessageFieldLen(f, v);
    case OptionalMessage(_) => MessageFieldLen(f, v);
    case _ => ScalarFieldLen(f, v);
  }

  lemma {:induction false} FieldsLenCompare(fs: seq<Field>, vals: seq<Val>, i: nat)
    requires FieldsTyped(fs, vals) && i <= |fs|
    requires ShortBoolFields(fs, vals)
    requires |EncodeFrom(fs, vals, i)| < MAX_LEN
    ensures FieldsLen(fs, vals, i) <= |EncodeFrom(fs, vals, i)|
    ensures FieldsLen(fs, vals, i) == |EncodeFrom(fs, vals, i)| <==> MeasuredFields(fs, vals, i)
    decreases fs, |fs| - i
  {
    if i < |fs| {
      FieldLenCompare(fs[i], vals[i]);
      FieldsLenCompare(fs, vals, i + 1);
    }
  }

  /**
    Without a set bool under a long tag, `encoded_len` never exceeds the encoding, and is exact if and only if
    every field written, at any depth, has a tag below 2^18 and no `Option<Vec<u8>>` is set.
  */
  lemma {:induction false} LenExact(ty: MsgTy, v: Val)
    requires HasType(ty, v) && ShortBools(ty, v) && |Encode(ty, v)| < MAX_LEN
    ensures EncodedLen(ty, v) <= |Encode(ty, v)|
    ensures EncodedLen(ty, v) == |Encode(ty, v)| <==> Measured(ty, v)
    decreases ty, 0
  {
    match ty
    case Struct(fs) => FieldsLenCompare(fs, v.vals, 0);
    case OneOf(vs) =>
      var f := vs[v.index];
      TagLenBound(f.tag, WireType(f.kind));
      if f.kind.Message? {
        LenExact(f.kind.ty, v.payload);
        PrefixedLenCompare(EncodedLen(f.kind.ty, v.payload), Encode(f.kind.ty, v.payload));
      } else {
        ScalarLenExact(f.kind, v.payload);
      }
    case Enum(tags) => VarintLenExact(tags[v.index]);
  }

  /** Without the short-tag condition on `bool` the length is too big: two or three bytes of tag for one written. */
  lemma {:induction false} BoolOverMeasured(f: Field)
    requires f.kind.Bool? && f.tag >= 16
    ensures FieldLen(f, Flag(true)) > |EncodeField(f, Flag(true))|
  {
  }
}
