/** Generated decoders invert generated encoders. */
module DerivedRoundTrip {
  // Source: typeway-macros/src/lib.rs

  import opened Bytes
  import opened Varint
  import opened Wire
  import opened DerivedCodec

  // ---- which variants can be read, and what survives of a value ----

  /** The first field with this tag: the dispatch of oneofs takes no later one. */
  predicate IsFirstTag(fs: seq<Field>, i: nat)
    requires i < |fs|
  {
    forall j :: 0 <= j < i ==> fs[j].tag != fs[i].tag
  }

  predicate IsFirst(tags: seq<U32>, i: nat)
    requires i < |tags|
  {
    forall j :: 0 <= j < i ==> tags[j] != tags[i]
  }

  /** No variant present, at any depth, repeats the tag of an earlier variant. */
  predicate Unshadowed(ty: MsgTy, v: Val)
    requires HasType(ty, v)
  {
    match ty
    case Struct(fs) => UnshadowedFields(fs, v.vals)
    case OneOf(vs) => IsFirstTag(vs, v.index) && UnshadowedKind(vs[v.index].kind, v.payload)
    case Enum(tags) => IsFirst(tags, v.index)
  }

  predicate UnshadowedFields(fs: seq<Field>, vals: seq<Val>)
    requires FieldsTyped(fs, vals)
  {
    forall i :: 0 <= i < |fs| ==> UnshadowedKind(fs[i].kind, vals[i])
  }

  predicate UnshadowedKind(k: CodecKind, v: Val)
    requires HasKind(k, v)
  {
    match k
    case Message(ty) => Unshadowed(ty, v)
    case OptionalMessage(ty) => v.Present? ==> Unshadowed(ty, v.inner)
    case RepeatedMessage(ty) => forall i :: 0 <= i < |v.items| ==> Unshadowed(ty, v.items[i])
    case _ => true
  }

  /**
    What comes back. A singular `-0.0` compares equal to the default and returns as `+0.0`;
    optional and repeated fields whose inner kind has no decode arm return empty.
  */
  function NormKind(k: CodecKind, v: Val): (r: Val)
    requires HasKind(k, v)
  {
    match k
    case Fixed32 => if IsZeroFloat(v.bits) then Bits([0, 0, 0, 0]) else v
    case Fixed64 => if IsZeroFloat(v.bits) then Bits([0, 0, 0, 0, 0, 0, 0, 0]) else v
    case Optional(inner) => if HasArm(inner) then v else Absent
    case Repeated(inner) => if HasArm(inner) then v else List([])
    case Message(ty) => Norm(ty, v)
    case OptionalMessage(ty) => if v.Absent? then v else Present(Norm(ty, v.inner))
    case RepeatedMessage(ty) => List(NormAll(ty, v.items))
    case _ => v
  }

  function NormAll(ty: MsgTy, items: seq<Val>): (r: seq<Val>)
    requires forall i :: 0 <= i < |items| ==> HasType(ty, items[i])
    ensures |r| == |items|
    decreases ty, 1
  {
    seq(|items|, i requires 0 <= i < |items| => Norm(ty, items[i]))
  }

  function Norm(ty: MsgTy, v: Val): (r: Val)
    requires HasType(ty, v)
    decreases ty, 0
  {
    match ty
    case Struct(fs) => Rec(NormFields(fs, v.vals))
    case OneOf(vs) => Case(v.index, NormPayload(vs[v.index].kind, v.payload))
    case Enum(_) => v
  }

  function NormFields(fs: seq<Field>, vals: seq<Val>): (r: seq<Val>)
    requires FieldsTyped(fs, vals)
    ensures |r| == |fs|
    ensures forall i :: 0 <= i < |fs| ==> r[i] == NormKind(fs[i].kind, vals[i])
  {
    seq(|fs|, i requires 0 <= i < |fs| => NormKind(fs[i].kind, vals[i]))
  }

  /** Oneof payloads are always written, so only nested messages change. */
  function NormPayload(k: CodecKind, v: Val): (r: Val)
    requires HasKind(k, v)
  {
    if k.Message? then Norm(k.ty, v) else v
  }

  // ---- scalars and packed blocks ----

  lemma {:induction false} FromWireInverts(t: IntTy, n: int)
    requires InRange(t, n)
    ensures FromWire(t, WrapU64(n)) == n
  {
    WrapOnce(n);
    if n < 0 && t.I32Ty? {
      assert n + 0x1_0000_0000_0000_0000 == n + 0x1_0000_0000 + 0x1_0000_0000 * 0xFFFF_FFFF;
    }
  }

  lemma {:induction false} WrapOnce(n: int)
    requires -0x1_0000_0000_0000_0000 <= n < 0x1_0000_0000_0000_0000
    ensures WrapU64(n) == if n < 0 then n + 0x1_0000_0000_0000_0000 else n
  {
  }

  lemma {:induction false} ScalarInverts(k: CodecKind, v: Val, rest: seq<Byte>)
    requires IsScalar(k) && ScalarTyped(k, v) && |ScalarPayload(k, v)| < MAX_LEN
    ensures ReadScalar(k, ScalarPayload(k, v) + rest) == Ok(Read(v, |ScalarPayload(k, v)|))
  {
    match k
    case Varint(t) => ReadVarintInverts(WrapU64(v.n), rest); FromWireInverts(t, v.n);
    case Bool =>
      assert VarintBytes(1) == [1] && VarintBytes(0) == [0];
      ReadVarintInverts(if v.on then 1 else 0, rest);
    case Fixed32 => ReadFixedInverts(v.bits, rest);
    case Fixed64 => ReadFixedInverts(v.bits, rest);
    case LenString => ReadLenInverts(v.data, rest);
    case LenBytesStr => ReadLenInverts(v.data, rest);
    case LenBytes => ReadLenInverts(v.data, rest);
  }

  lemma {:induction false} PackedStep(k: CodecKind, v: Val, vs: seq<Val>, head: seq<Byte>, tail: seq<Byte>, rest: seq<Byte>)
    requires IsScalar(k) && head != []
    requires ReadScalar(k, head + (tail + rest)) == Ok(Read(v, |head|))
    requires ReadPacked(k, tail + rest, |tail|) == Ok(Read(vs, |tail|))
    ensures ReadPacked(k, head + tail + rest, |head + tail|) == Ok(Read([v] + vs, |head + tail|))
  {
    hide ReadScalar;
    Cut(head, tail, rest);
  }

  lemma {:induction false} PackedInverts(k: CodecKind, items: seq<Val>, rest: seq<Byte>)
    requires IsScalar(k) && AllTyped(k, items)
    requires |PackAll(k, items)| < MAX_LEN
    ensures ReadPacked(k, PackAll(k, items) + rest, |PackAll(k, items)|)
         == Ok(Read(items, |PackAll(k, items)|))
  {
    hide ScalarPayload, ReadScalar, ScalarTyped, ReadPacked;
    if items == [] {
      NoItemsRead(k, rest);
    } else {
      var v, vs := items[0], items[1..];
      var head, tail := ScalarPayload(k, v), PackAll(k, vs);
      PayloadNonEmpty(k, v);
      ScalarInverts(k, v, tail + rest);
      PackedInverts(k, vs, rest);
      PackedStep(k, v, vs, head, tail, rest);
      assert items == [v] + vs;
    }
  }

  lemma {:induction false} NoItemsRead(k: CodecKind, rest: seq<Byte>)
    requires IsScalar(k)
    ensures ReadPacked(k, PackAll(k, []) + rest, |PackAll(k, [])|) == Ok(Read([], 0))
  {
  }

  lemma {:induction false} PayloadNonEmpty(k: CodecKind, v: Val)
    requires IsScalar(k) && ScalarTyped(k, v)
    ensures ScalarPayload(k, v) != []
  {
  }

  // ---- one record through the struct loop ----

  predicate Decodable(fs: seq<Field>, acc: seq<Val>) {
    |acc| == |fs| && DistinctTags(fs) && forall i :: 0 <= i < |fs| ==> DerivableKind(fs[i].kind)
  }

  /** A record whose arm succeeds moves the loop past it, updating only its own field. */
  lemma {:induction false} RecordStep(fs: seq<Field>, i: nat, rec: Record, rest: seq<Byte>, acc: seq<Val>, v: Val)
    requires Decodable(fs, acc) && i < |fs|
    requires DecodeArm(fs[i].kind, rec.wt, rec.payload + rest, acc[i]) == Ok(Read(v, |rec.payload|))
    ensures DecodeFields(fs, TagBytes(fs[i].tag, rec.wt) + rec.payload + rest, acc)
         == DecodeFields(fs, rest, acc[i := v])
  {
    var tag := TagBytes(fs[i].tag, rec.wt);
    RecordOne(fs, i, rec, rest, acc, v);
    Cut(tag + rec.payload, rest, []);
    assert rest + [] == rest;
  }

  lemma {:induction false} RecordOne(fs: seq<Field>, i: nat, rec: Record, rest: seq<Byte>, acc: seq<Val>, v: Val)
    requires Decodable(fs, acc) && i < |fs|
    requires DecodeArm(fs[i].kind, rec.wt, rec.payload + rest, acc[i]) == Ok(Read(v, |rec.payload|))
    ensures DecodeOne(fs, TagBytes(fs[i].tag, rec.wt) + rec.payload + rest, acc)
         == Ok(Read(acc[i := v], |TagBytes(fs[i].tag, rec.wt) + rec.payload|))
  {
    hide DecodeArm, ReadVarint, SkipWireValue, FindTag, DerivableKind, TagBytes;
    Cut(TagBytes(fs[i].tag, rec.wt), rec.payload, rest);
    ReadTagInverts(fs[i].tag, rec.wt, rec.payload + rest);
  }

  /** A record whose arm fails ends the loop with that error, whatever follows. */
  lemma {:induction false} RecordFails(fs: seq<Field>, i: nat, rec: Record, rest: seq<Byte>, acc: seq<Val>, e: DecodeError)
    requires Decodable(fs, acc) && i < |fs|
    requires DecodeArm(fs[i].kind, rec.wt, rec.payload + rest, acc[i]) == Err(e)
    ensures DecodeFields(fs, TagBytes(fs[i].tag, rec.wt) + rec.payload + rest, acc) == Err(e)
  {
    hide DecodeArm, ReadVarint, SkipWireValue, FindTag, DerivableKind, TagBytes;
    Cut(TagBytes(fs[i].tag, rec.wt), rec.payload, rest);
    ReadTagInverts(fs[i].tag, rec.wt, rec.payload + rest);
  }

  lemma {:induction false} ConsRecords(tag: U32, rec: Record, rs: seq<Record>, rest: seq<Byte>)
    ensures WriteRecords(tag, [rec] + rs) + rest
         == TagBytes(tag, rec.wt) + rec.payload + (WriteRecords(tag, rs) + rest)
    ensures |WriteRecords(tag, [rec] + rs)| > |rec.payload| + |WriteRecords(tag, rs)|
  {
    assert ([rec] + rs)[1..] == rs;
    Cut(TagBytes(tag, rec.wt) + rec.payload, WriteRecords(tag, rs), rest);
  }

  /** The first of several records of one field. */
  lemma {:induction false} FirstRecordStep(fs: seq<Field>, i: nat, rec: Record, rs: seq<Record>, rest: seq<Byte>,
                        acc: seq<Val>, v: Val)
    requires Decodable(fs, acc) && i < |fs|
    requires DecodeArm(fs[i].kind, rec.wt, rec.payload + (WriteRecords(fs[i].tag, rs) + rest), acc[i])
          == Ok(Read(v, |rec.payload|))
    ensures DecodeFields(fs, WriteRecords(fs[i].tag, [rec] + rs) + rest, acc)
         == DecodeFields(fs, WriteRecords(fs[i].tag, rs) + rest, acc[i := v])
  {
    ConsRecords(fs[i].tag, rec, rs, rest);
    RecordStep(fs, i, rec, WriteRecords(fs[i].tag, rs) + rest, acc, v);
  }

  lemma {:induction false} OneRecordStep(fs: seq<Field>, i: nat, rec: Record, rest: seq<Byte>, acc: seq<Val>, v: Val)
    requires Decodable(fs, acc) && i < |fs|
    requires DecodeArm(fs[i].kind, rec.wt, rec.payload + rest, acc[i]) == Ok(Read(v, |rec.payload|))
    ensures DecodeFields(fs, WriteRecords(fs[i].tag, [rec]) + rest, acc)
         == DecodeFields(fs, rest, acc[i := v])
  {
    RecordStep(fs, i, rec, rest, acc, v);
    assert WriteRecords(fs[i].tag, [rec]) == TagBytes(fs[i].tag, rec.wt) + rec.payload by {
      assert [rec][1..] == [];
    }
  }

  // ---- one field through the struct loop ----

  lemma {:induction false} NoRecords(fs: seq<Field>, i: nat, rest: seq<Byte>, acc: seq<Val>)
    requires Decodable(fs, acc) && i < |fs|
    ensures DecodeFields(fs, WriteRecords(fs[i].tag, []) + rest, acc) == DecodeFields(fs, rest, acc[i := acc[i]])
  {
    assert WriteRecords(fs[i].tag, []) + rest == rest;
    assert acc[i := acc[i]] == acc;
  }

  lemma {:induction false} ScalarFieldStep(fs: seq<Field>, i: nat, v: Val, rest: seq<Byte>, acc: seq<Val>)
    requires Decodable(fs, acc) && i < |fs| && IsScalar(fs[i].kind) && HasKind(fs[i].kind, v)
    requires !IsLongBool(fs[i], v) && |EncodeField(fs[i], v)| < MAX_LEN
    ensures DecodeFields(fs, EncodeField(fs[i], v) + rest, acc)
         == DecodeFields(fs, rest, acc[i := if IsOmitted(fs[i].kind, v) then acc[i] else v])
  {
    var k := fs[i].kind;
    if IsOmitted(k, v) {
      NoRecords(fs, i, rest, acc);
      assert EncodeField(fs[i], v) == [];
    } else {
      var rec := Record(WireType(k), ScalarPayload(k, v));
      assert EncodeField(fs[i], v) == WriteRecords(fs[i].tag, [rec]) by {
        assert [rec][1..] == [];
      }
      ScalarInverts(k, v, rest);
      OneRecordStep(fs, i, rec, rest, acc, v);
    }
  }

  lemma {:induction false} OptionalFieldStep(fs: seq<Field>, i: nat, v: Val, rest: seq<Byte>, acc: seq<Val>)
    requires Decodable(fs, acc) && i < |fs| && fs[i].kind.Optional? && HasKind(fs[i].kind, v)
    requires |EncodeField(fs[i], v)| < MAX_LEN
    ensures DecodeFields(fs, EncodeField(fs[i], v) + rest, acc)
         == DecodeFields(fs, rest, acc[i := if v.Present? && HasArm(fs[i].kind.inner) then v else acc[i]])
  {
    var inner := fs[i].kind.inner;
    if v.Absent? || !IsScalar(inner) {
      NoRecords(fs, i, rest, acc);
    } else {
      var rec := Record(WireType(inner), ScalarPayload(inner, v.inner));
      assert |rec.payload| <= |WriteRecords(fs[i].tag, [rec])|;
      if HasArm(inner) {
        ScalarInverts(inner, v.inner, rest);
      } else {
        SkipBytes(v.inner.data, rest);
      }
      OneRecordStep(fs, i, rec, rest, acc, if HasArm(inner) then v else acc[i]);
    }
  }

  /** An optional `Vec<u8>` is written, but its record is skipped on the way back. */
  lemma {:induction false} SkipBytes(data: seq<Byte>, rest: seq<Byte>)
    requires |LenPrefixed(data)| < MAX_LEN
    ensures SkipWireValue(LenPrefixed(data) + rest, 2) == Ok(|LenPrefixed(data)|)
  {
    ReadLenInverts(data, rest);
    SkipMatchesRead(LenPrefixed(data) + rest, 2);
  }

  lemma {:induction false} PackedFieldStep(fs: seq<Field>, i: nat, done: seq<Val>, v: Val, rest: seq<Byte>, acc: seq<Val>)
    requires Decodable(fs, acc) && i < |fs| && fs[i].kind.Repeated? && HasKind(fs[i].kind, v)
    requires IsPackable(fs[i].kind.inner) && acc[i] == List(done)
    requires |EncodeField(fs[i], v)| < MAX_LEN
    ensures DecodeFields(fs, EncodeField(fs[i], v) + rest, acc) == DecodeFields(fs, rest, acc[i := List(done + v.items)])
  {
    if v.items == [] {
      NoRecords(fs, i, rest, acc);
      assert done + [] == done;
    } else {
      var inner := fs[i].kind.inner;
      var block := PackAll(inner, v.items);
      var rec := Record(2, LenPrefixed(block));
      assert |rec.payload| <= |WriteRecords(fs[i].tag, [rec])|;
      PackedArm(inner, done, v.items, rest);
      OneRecordStep(fs, i, rec, rest, acc, List(done + v.items));
    }
  }

  lemma {:induction false} PackedArm(inner: CodecKind, done: seq<Val>, items: seq<Val>, rest: seq<Byte>)
    requires IsPackable(inner) && AllTyped(inner, items)
    requires |PackAll(inner, items)| < MAX_LEN
    ensures var payload := LenPrefixed(PackAll(inner, items));
            RepeatedArm(inner, 2, payload + rest, done) == Ok(Read(List(done + items), |payload|))
  {
    PackedBlockInverts(inner, items, rest);
  }

  lemma {:induction false} PackedBlockInverts(k: CodecKind, items: seq<Val>, rest: seq<Byte>)
    requires IsPackable(k) && AllTyped(k, items)
    requires |PackAll(k, items)| < MAX_LEN
    ensures var payload := LenPrefixed(PackAll(k, items));
            ReadPackedBlock(k, payload + rest) == Ok(Read(items, |payload|))
  {
    hide ReadPacked, ScalarPayload, ReadScalar;
    var block := PackAll(k, items);
    var h := VarintBytes(|block|);
    Cut(h, block, rest);
    ReadVarintInverts(|block|, block + rest);
    PackedInverts(k, items, rest);
  }

  /** Records of unpacked items append to the list, one at a time. */
  lemma {:induction false} TextItemsStep(fs: seq<Field>, i: nat, done: seq<Val>, items: seq<Val>,
                                         rest: seq<Byte>, acc: seq<Val>)
    requires Decodable(fs, acc) && i < |fs| && fs[i].kind.Repeated? && IsText(fs[i].kind.inner)
    requires AllTyped(fs[i].kind.inner, items)
    requires acc[i] == List(done)
    requires |WriteRecords(fs[i].tag, EmitScalars(fs[i].kind.inner, items))| < MAX_LEN
    ensures DecodeFields(fs, WriteRecords(fs[i].tag, EmitScalars(fs[i].kind.inner, items)) + rest, acc)
         == DecodeFields(fs, rest, acc[i := List(done + items)])
    decreases |items|
  {
    hide ScalarPayload, ReadScalar, RepeatedArm, ScalarTyped, DecodeFields;
    var inner, tag := fs[i].kind.inner, fs[i].tag;
    if items == [] {
      NoRecords(fs, i, rest, acc);
      assert done + items == done;
    } else {
      var rec, rs := Record(WireType(inner), ScalarPayload(inner, items[0])), EmitScalars(inner, items[1..]);
      ConsRecords(tag, rec, rs, rest);
      TextArm(inner, rec.wt, items[0], WriteRecords(tag, rs) + rest, done);
      FirstRecordStep(fs, i, rec, rs, rest, acc, List(done + [items[0]]));
      TextItemsStep(fs, i, done + [items[0]], items[1..], rest, acc[i := List(done + [items[0]])]);
      assert done + [items[0]] + items[1..] == done + items;
      UpdateTwice(acc, i, List(done + [items[0]]), List(done + items));
    }
  }

  lemma {:induction false} UpdateTwice(acc: seq<Val>, i: nat, v: Val, w: Val)
    requires i < |acc|
    ensures acc[i := v][i := w] == acc[i := w]
  {
  }

  lemma {:induction false} TextArm(inner: CodecKind, wt: WireTy, v: Val, rest: seq<Byte>, items: seq<Val>)
    requires IsText(inner) && ScalarTyped(inner, v) && |ScalarPayload(inner, v)| < MAX_LEN
    ensures RepeatedArm(inner, wt, ScalarPayload(inner, v) + rest, items)
         == Ok(Read(List(items + [v]), |ScalarPayload(inner, v)|))
  {
    ScalarInverts(inner, v, rest);
  }

  lemma {:induction false} MessageArm(k: CodecKind, ty: MsgTy, nested: seq<Byte>, rest: seq<Byte>, cur: Val, v: Val)
    requires k == Message(ty) || k == OptionalMessage(ty) || k == RepeatedMessage(ty)
    requires Derivable(ty) && |nested| < MAX_LEN && Decode(ty, nested) == Ok(v)
    ensures DecodeArm(k, 2, LenPrefixed(nested) + rest, cur)
         == Ok(Read(match k
                    case Message(_) => v
                    case OptionalMessage(_) => Present(v)
                    case _ => List((if cur.List? then cur.items else []) + [v]),
                    |LenPrefixed(nested)|))
  {
    ReadLenInverts(nested, rest);
  }

  /** A nested message that does not decode fails its arm with the same error. */
  lemma {:induction false} MessageArmFails(k: CodecKind, ty: MsgTy, nested: seq<Byte>, rest: seq<Byte>, cur: Val, e: DecodeError)
    requires k == Message(ty) || k == OptionalMessage(ty) || k == RepeatedMessage(ty)
    requires Derivable(ty) && |nested| < MAX_LEN && Decode(ty, nested) == Err(e)
    ensures DecodeArm(k, 2, LenPrefixed(nested) + rest, cur) == Err(e)
  {
    ReadLenInverts(nested, rest);
  }

  /**
    What a field's records make of the field's variable `cur`, nested messages by their own decoder: the
    written value replaces a singular one and is appended to a repeated one.
  */
  function After(k: CodecKind, v: Val, cur: Val): (r: Result<Val, DecodeError>)
    requires HasKind(k, v) && DerivableKind(k)
  {
    if IsScalar(k) then Ok(if IsOmitted(k, v) then cur else v)
    else
      match k
      case Message(ty) => if Encode(ty, v) == [] then Ok(cur) else Decode(ty, Encode(ty, v))
      case OptionalMessage(ty) =>
        if v.Absent? then Ok(cur) else
        var w :- Decode(ty, Encode(ty, v.inner));
        Ok(Present(w))
      case RepeatedMessage(ty) =>
        var ws :- BackAll(ty, v.items);
        Ok(List((if cur.List? then cur.items else []) + ws))
      case Optional(inner) => Ok(if v.Present? && HasArm(inner) then v else cur)
      case Repeated(inner) => Ok(if HasArm(inner) && cur.List? then List(cur.items + v.items) else cur)
  }

  /** What one field's records are read as on their own. */
  function BackKind(k: CodecKind, v: Val): (r: Result<Val, DecodeError>)
    requires HasKind(k, v) && DerivableKind(k)
  {
    match k
    case Message(ty) => Decode(ty, Encode(ty, v))
    case OptionalMessage(ty) =>
      if v.Absent? then Ok(v) else
      var w :- Decode(ty, Encode(ty, v.inner));
      Ok(Present(w))
    case RepeatedMessage(ty) =>
      var ws :- BackAll(ty, v.items);
      Ok(List(ws))
    case _ => Ok(NormKind(k, v))
  }

  lemma {:induction false} AfterZero(k: CodecKind, v: Val)
    requires HasKind(k, v) && DerivableKind(k)
    ensures After(k, v, Zero(k)) == BackKind(k, v)
  {
    hide Decode, HasType, BackAll;
    match k
    case Message(ty) => EmptyDecodesToDefault(ty);
    case RepeatedMessage(ty) =>
      if BackAll(ty, v.items).Ok? { assert [] + BackAll(ty, v.items).value == BackAll(ty, v.items).value; }
    case Repeated(_) => assert [] + v.items == v.items;
    case _ =>
  }

  /** The variables of repeated fields are lists. */
  predicate ListsIn(fs: seq<Field>, acc: seq<Val>) {
    |acc| == |fs| && forall i :: 0 <= i < |fs| && (fs[i].kind.Repeated? || fs[i].kind.RepeatedMessage?) ==> acc[i].List?
  }

  function BackAll(ty: MsgTy, items: seq<Val>): (r: Result<seq<Val>, DecodeError>)
    requires Derivable(ty) && forall i :: 0 <= i < |items| ==> HasType(ty, items[i])
  {
    if items == [] then Ok([]) else
    var w :- Decode(ty, Encode(ty, items[0]));
    var ws :- BackAll(ty, items[1..]);
    Ok([w] + ws)
  }

  /** The loop goes on with the field's new value, or stops at its error. */
  function GoOn(fs: seq<Field>, i: nat, r: Result<Val, DecodeError>, rest: seq<Byte>, acc: seq<Val>)
    : (after: Result<seq<Val>, DecodeError>)
    requires Decodable(fs, acc) && i < |fs|
  {
    match r
    case Ok(w) => DecodeFields(fs, rest, acc[i := w])
    case Err(e) => Err(e)
  }

  lemma {:induction false} MessageItemsStep(fs: seq<Field>, i: nat, done: seq<Val>, items: seq<Val>,
                                            rest: seq<Byte>, acc: seq<Val>)
    requires Decodable(fs, acc) && i < |fs| && fs[i].kind.RepeatedMessage?
    requires forall j :: 0 <= j < |items| ==> HasType(fs[i].kind.ty, items[j])
    requires acc[i] == List(done)
    requires |WriteRecords(fs[i].tag, EmitMessages(fs[i].kind.ty, items))| < MAX_LEN
    ensures var back := BackAll(fs[i].kind.ty, items);
            (DecodeFields(fs, WriteRecords(fs[i].tag, EmitMessages(fs[i].kind.ty, items)) + rest, acc)
             == GoOn(fs, i, if back.Ok? then Ok(List(done + back.value)) else Err(back.error), rest, acc))
    decreases |items|
  {
    hide Decode, Encode, DecodeFields, HasType;
    var ty, tag := fs[i].kind.ty, fs[i].tag;
    if items == [] {
      NoRecords(fs, i, rest, acc);
      assert done + [] == done;
    } else {
      var nested := Encode(ty, items[0]);
      var rec, rs := Record(2, LenPrefixed(nested)), EmitMessages(ty, items[1..]);
      ConsRecords(tag, rec, rs, rest);
      match Decode(ty, nested) {
        case Ok(w) =>
          MessageArm(fs[i].kind, ty, nested, WriteRecords(tag, rs) + rest, acc[i], w);
          FirstRecordStep(fs, i, rec, rs, rest, acc, List(done + [w]));
          MessageItemsStep(fs, i, done + [w], items[1..], rest, acc[i := List(done + [w])]);
          AppendBack(fs, i, done, w, BackAll(ty, items[1..]), rest, acc);
        case Err(e) =>
          MessageArmFails(fs[i].kind, ty, nested, WriteRecords(tag, rs) + rest, acc[i], e);
          RecordFails(fs, i, rec, WriteRecords(tag, rs) + rest, acc, e);
      }
    }
  }

  lemma {:induction false} AppendBack(fs: seq<Field>, i: nat, done: seq<Val>, w: Val, back: Result<seq<Val>, DecodeError>,
                                      rest: seq<Byte>, acc: seq<Val>)
    requires Decodable(fs, acc) && i < |fs|
    ensures GoOn(fs, i, if back.Ok? then Ok(List(done + [w] + back.value)) else Err(back.error), rest, acc[i := List(done + [w])])
         == GoOn(fs, i, if back.Ok? then Ok(List(done + ([w] + back.value))) else Err(back.error), rest, acc)
  {
    hide DecodeFields;
    if back.Ok? {
      Cut(done, [w], back.value);
      UpdateTwice(acc, i, List(done + [w]), List(done + ([w] + back.value)));
    }
  }

  lemma {:induction false} MessageFieldStep(fs: seq<Field>, i: nat, v: Val, rest: seq<Byte>, acc: seq<Val>)
    requires Decodable(fs, acc) && i < |fs| && HasKind(fs[i].kind, v)
    requires fs[i].kind.Message? || fs[i].kind.OptionalMessage?
    requires |EncodeField(fs[i], v)| < MAX_LEN
    ensures DecodeFields(fs, EncodeField(fs[i], v) + rest, acc) == GoOn(fs, i, After(fs[i].kind, v, acc[i]), rest, acc)
  {
    hide Decode, DecodeFields, HasType;
    var k := fs[i].kind;
    if k.OptionalMessage? && v.Absent? {
      NoRecords(fs, i, rest, acc);
    } else {
      var inner := if k.Message? then v else v.inner;
      var nested := Encode(k.ty, inner);
      var rec := Record(2, LenPrefixed(nested));
      if k.Message? && nested == [] {
        NoRecords(fs, i, rest, acc);
      } else {
        assert EncodeField(fs[i], v) == WriteRecords(fs[i].tag, [rec]);
        assert |rec.payload| <= |WriteRecords(fs[i].tag, [rec])|;
        match Decode(k.ty, nested) {
          case Ok(w) =>
            MessageArm(k, k.ty, nested, rest, acc[i], w);
            OneRecordStep(fs, i, rec, rest, acc, if k.Message? then w else Present(w));
          case Err(e) =>
            MessageArmFails(k, k.ty, nested, rest, acc[i], e);
            RecordFails(fs, i, rec, rest, acc, e);
            assert WriteRecords(fs[i].tag, [rec]) == TagBytes(fs[i].tag, rec.wt) + rec.payload by {
              assert [rec][1..] == [];
            }
        }
      }
    }
  }

  lemma {:induction false} EmptyDecodesToDefault(ty: MsgTy)
    requires Derivable(ty)
    ensures Decode(ty, []) == Ok(Default(ty))
  {
  }

  /** One field's bytes, wherever they stand: the loop reads them as `After` says and goes on. */
  lemma {:induction false} FieldStep(fs: seq<Field>, i: nat, v: Val, rest: seq<Byte>, acc: seq<Val>)
    requires Decodable(fs, acc) && ListsIn(fs, acc) && i < |fs| && HasKind(fs[i].kind, v) && !IsLongBool(fs[i], v)
    requires |EncodeField(fs[i], v)| < MAX_LEN
    ensures DecodeFields(fs, EncodeField(fs[i], v) + rest, acc) == GoOn(fs, i, After(fs[i].kind, v, acc[i]), rest, acc)
  {
    hide DecodeFields, BackAll;
    match fs[i].kind
    case Optional(_) => OptionalFieldStep(fs, i, v, rest, acc);
    case Repeated(inner) =>
      if IsPackable(inner) {
        PackedFieldStep(fs, i, acc[i].items, v, rest, acc);
      } else if IsText(inner) {
        TextItemsStep(fs, i, acc[i].items, v.items, rest, acc);
      } else {
        NoRecords(fs, i, rest, acc);
      }
    case RepeatedMessage(ty) => MessageItemsStep(fs, i, acc[i].items, v.items, rest, acc);
    case Message(_) => MessageFieldStep(fs, i, v, rest, acc);
    case OptionalMessage(_) => MessageFieldStep(fs, i, v, rest, acc);
    case _ => ScalarFieldStep(fs, i, v, rest, acc);
  }

  lemma {:induction false} AfterIsListed(fs: seq<Field>, i: nat, v: Val, acc: seq<Val>)
    requires Decodable(fs, acc) && ListsIn(fs, acc) && i < |fs| && HasKind(fs[i].kind, v)
    ensures var r := After(fs[i].kind, v, acc[i]); r.Ok? ==> ListsIn(fs, acc[i := r.value])
  {
    hide Decode, Encode, BackAll, ScalarTyped, DerivableKind;
  }

  // ---- whole messages ----

  /** A struct comes back field by field, and as a whole exactly when every field does. */
  lemma {:induction false} FieldsBack(fs: seq<Field>, vals: seq<Val>, i: nat, acc: seq<Val>)
    requires FieldsTyped(fs, vals) && i <= |fs| && Decodable(fs, acc) && ListsIn(fs, acc)
    requires forall j :: i <= j < |fs| ==> acc[j] == Zero(fs[j].kind) && !IsLongBool(fs[j], vals[j])
    requires |EncodeFrom(fs, vals, i)| < MAX_LEN
    ensures var r := DecodeFields(fs, EncodeFrom(fs, vals, i), acc);
            && (r.Ok? <==> forall j :: i <= j < |fs| ==> BackKind(fs[j].kind, vals[j]).Ok?)
            && (r.Ok? ==> r.value[..i] == acc[..i])
            && (r.Ok? ==> forall j :: i <= j < |fs| ==> BackKind(fs[j].kind, vals[j]) == Ok(r.value[j]))
    decreases |fs| - i
  {
    hide EncodeField, HasKind, BackKind, DecodeOne, Zero, DerivableKind, ListsIn, After;
    if i < |fs| {
      FieldStep(fs, i, vals[i], EncodeFrom(fs, vals, i + 1), acc);
      AfterZero(fs[i].kind, vals[i]);
      AfterIsListed(fs, i, vals[i], acc);
      var back := BackKind(fs[i].kind, vals[i]);
      if back.Ok? {
        FieldsBack(fs, vals, i + 1, acc[i := back.value]);
        TakeNext(fs, vals, i, acc, back.value);
      }
    }
  }

  lemma {:induction false} TakeNext(fs: seq<Field>, vals: seq<Val>, i: nat, acc: seq<Val>, w: Val)
    requires FieldsTyped(fs, vals) && i < |fs| == |acc|
    ensures forall r: seq<Val> :: |r| == |fs| && r[..i + 1] == acc[i := w][..i + 1] ==> r[..i] == acc[..i] && r[i] == w
  {
    forall r: seq<Val> | |r| == |fs| && r[..i + 1] == acc[i := w][..i + 1] ensures r[..i] == acc[..i] && r[i] == w {
      assert r[..i + 1][..i] == r[..i] && acc[i := w][..i + 1][..i] == acc[..i];
      assert r[..i + 1][i] == r[i];
    }
  }

  /** Nested messages are shorter than what holds them. */
  ghost predicate Fits(k: CodecKind, v: Val)
    requires HasKind(k, v)
  {
    match k
    case Message(ty) => |Encode(ty, v)| < MAX_LEN
    case OptionalMessage(ty) => v.Present? ==> |Encode(ty, v.inner)| < MAX_LEN
    case RepeatedMessage(ty) => forall i :: 0 <= i < |v.items| ==> |Encode(ty, v.items[i])| < MAX_LEN
    case _ => true
  }

  lemma {:induction false} ItemsFit(tag: U32, ty: MsgTy, items: seq<Val>)
    requires forall i :: 0 <= i < |items| ==> HasType(ty, items[i])
    requires |WriteRecords(tag, EmitMessages(ty, items))| < MAX_LEN
    ensures forall i :: 0 <= i < |items| ==> |Encode(ty, items[i])| < MAX_LEN
    decreases |items|
  {
    hide Encode, HasType;
    if items != [] {
      var nested := Encode(ty, items[0]);
      ConsRecords(tag, Record(2, LenPrefixed(nested)), EmitMessages(ty, items[1..]), []);
      ItemsFit(tag, ty, items[1..]);
      forall i | 0 <= i < |items| ensures |Encode(ty, items[i])| < MAX_LEN {
        if i > 0 { assert items[i] == items[1..][i - 1]; }
      }
    }
  }

  lemma {:induction false} FieldFits(f: Field, v: Val)
    requires HasKind(f.kind, v) && |EncodeField(f, v)| < MAX_LEN
    ensures Fits(f.kind, v)
  {
    hide Encode, HasType;
    if f.kind.RepeatedMessage? { ItemsFit(f.tag, f.kind.ty, v.items); }
    else if f.kind.Message? && Encode(f.kind.ty, v) != [] {
      ConsRecords(f.tag, Record(2, LenPrefixed(Encode(f.kind.ty, v))), [], []);
    } else if f.kind.OptionalMessage? && v.Present? {
      ConsRecords(f.tag, Record(2, LenPrefixed(Encode(f.kind.ty, v.inner))), [], []);
    }
  }

  lemma {:induction false} FieldsFit(fs: seq<Field>, vals: seq<Val>, i: nat)
    requires FieldsTyped(fs, vals) && i <= |fs| && |EncodeFrom(fs, vals, i)| < MAX_LEN
    ensures forall j :: i <= j < |fs| ==> Fits(fs[j].kind, vals[j])
    decreases |fs| - i
  {
    hide EncodeField, HasKind, Fits;
    if i < |fs| {
      FieldFits(fs[i], vals[i]);
      FieldsFit(fs, vals, i + 1);
    }
  }

  lemma {:induction false} ZerosListed(fs: seq<Field>)
    requires forall i :: 0 <= i < |fs| ==> DerivableKind(fs[i].kind)
    ensures ListsIn(fs, Zeros(fs))
  {
  }

  lemma {:induction false} StructBack(fs: seq<Field>, v: Val)
    requires Derivable(Struct(fs)) && HasType(Struct(fs), v) && |Encode(Struct(fs), v)| < MAX_LEN
    requires FieldsTyped(fs, v.vals) && forall j :: 0 <= j < |fs| ==> !IsLongBool(fs[j], v.vals[j])
    ensures var r := Decode(Struct(fs), Encode(Struct(fs), v));
            && (r.Ok? <==> forall j :: 0 <= j < |fs| ==> BackKind(fs[j].kind, v.vals[j]).Ok?)
            && (r.Ok? ==> r.value.Rec? && |r.value.vals| == |fs|)
            && (r.Ok? ==> forall j :: 0 <= j < |fs| ==> BackKind(fs[j].kind, v.vals[j]) == Ok(r.value.vals[j]))
    ensures forall j :: 0 <= j < |fs| ==> Fits(fs[j].kind, v.vals[j])
  {
    hide DecodeFields, EncodeFrom, BackKind, Fits, Zero, ListsIn;
    ZerosListed(fs);
    FieldsBack(fs, v.vals, 0, Zeros(fs));
    FieldsFit(fs, v.vals, 0);
  }

  // ---- enums ----

  /** A fieldless variant comes back if and only if no earlier variant has its tag. */
  lemma {:induction false} EnumRoundTrip(tags: seq<U32>, v: Val)
    requires HasType(Enum(tags), v)
    ensures Decode(Enum(tags), Encode(Enum(tags), v)) == Ok(v) <==> IsFirst(tags, v.index)
  {
    var bs := VarintBytes(tags[v.index]);
    ReadVarintInverts(tags[v.index], []);
    assert bs + [] == bs;
    var j := FindVariant(tags, tags[v.index]);
    assert j <= v.index;
  }

  /** The bytes of one variant with no earlier namesake: its payload's own result. */
  lemma {:induction false} CaseBack(vs: seq<Field>, v: Val)
    requires HasType(OneOf(vs), v) && Derivable(OneOf(vs)) && IsFirstTag(vs, v.index)
    requires |Encode(OneOf(vs), v)| < MAX_LEN
    ensures var k := vs[v.index].kind;
            && Fits(k, v.payload)
            && Decode(OneOf(vs), Encode(OneOf(vs), v))
            == if k.Message? then
                 match Decode(k.ty, Encode(k.ty, v.payload)) case Ok(w) => Ok(Case(v.index, w)) case Err(e) => Err(e)
               else Ok(v)
  {
    hide Decode, Encode, DecodeCases;
    var f := vs[v.index];
    CaseBytes(vs, v);
    if f.kind.Message? {
      var nested := Encode(f.kind.ty, v.payload);
      assert LenPrefixed(nested) + [] == LenPrefixed(nested);
      match Decode(f.kind.ty, nested)
      case Ok(w) =>
        MessageArm(f.kind, f.kind.ty, nested, [], Default(OneOf(vs)), w);
        CaseStep(vs, v.index, LenPrefixed(nested), Default(OneOf(vs)), w);
      case Err(e) =>
        MessageArmFails(f.kind, f.kind.ty, nested, [], Default(OneOf(vs)), e);
        CaseFails(vs, v.index, LenPrefixed(nested), Default(OneOf(vs)), e);
    } else {
      var payload := ScalarPayload(f.kind, v.payload);
      assert payload + [] == payload;
      ScalarInverts(f.kind, v.payload, []);
      CaseStep(vs, v.index, payload, Default(OneOf(vs)), v.payload);
    }
  }

  lemma {:induction false} CaseBytes(vs: seq<Field>, v: Val)
    requires HasType(OneOf(vs), v) && Derivable(OneOf(vs))
    ensures var k, tag := vs[v.index].kind, TagBytes(vs[v.index].tag, WireType(vs[v.index].kind));
            && HasKind(k, v.payload) && (k.Message? ==> HasType(k.ty, v.payload))
            && Encode(OneOf(vs), v)
            == tag + (if k.Message? then LenPrefixed(Encode(k.ty, v.payload)) else ScalarPayload(k, v.payload))
            && forall bs :: Decode(OneOf(vs), bs) == DecodeCases(vs, bs, Default(OneOf(vs)))
  {
  }

  lemma {:induction false} CaseStep(vs: seq<Field>, i: nat, payload: seq<Byte>, cur: Val, v: Val)
    requires Derivable(OneOf(vs)) && i < |vs| && IsFirstTag(vs, i)
    requires DecodeArm(vs[i].kind, WireType(vs[i].kind), payload, cur) == Ok(Read(v, |payload|))
    ensures DecodeCases(vs, TagBytes(vs[i].tag, WireType(vs[i].kind)) + payload, cur) == Ok(Case(i, v))
  {
    var tag := TagBytes(vs[i].tag, WireType(vs[i].kind));
    Cut(tag, payload, []);
    assert payload + [] == payload && tag + payload + [] == tag + payload;
    ReadTagInverts(vs[i].tag, WireType(vs[i].kind), payload);
    assert payload[|payload|..] == [];
  }

  lemma {:induction false} CaseFails(vs: seq<Field>, i: nat, payload: seq<Byte>, cur: Val, e: DecodeError)
    requires Derivable(OneOf(vs)) && i < |vs| && IsFirstTag(vs, i)
    requires DecodeArm(vs[i].kind, WireType(vs[i].kind), payload, cur) == Err(e)
    ensures DecodeCases(vs, TagBytes(vs[i].tag, WireType(vs[i].kind)) + payload, cur) == Err(e)
  {
    ReadTagInverts(vs[i].tag, WireType(vs[i].kind), payload);
  }

  /** A oneof variant whose tag an earlier variant already uses is never the result of decoding. */
  lemma {:induction false} ShadowedVariantLost(vs: seq<Field>, i: nat, j: nat, bs: seq<Byte>, cur: Val)
    requires Derivable(OneOf(vs)) && i < j < |vs| && vs[i].tag == vs[j].tag
    requires cur.Case? && cur.index != j
    ensures var r := DecodeCases(vs, bs, cur); r.Ok? ==> r.value.Case? && r.value.index != j
    decreases |bs|
  {
    hide DecodeArm, SkipWireValue, ReadVarint;
    if bs != [] {
      var step := DecodeOneCase(vs, bs, cur);
      if step.Ok? {
        ShadowedVariantLost(vs, i, j, bs[step.value.consumed..], step.value.value);
      }
    }
  }

  /** A simple-enum variant whose tag an earlier variant already uses is never decoded. */
  lemma {:induction false} ShadowedEnumLost(tags: seq<U32>, i: nat, j: nat, bs: seq<Byte>)
    requires i < j < |tags| && tags[i] == tags[j]
    ensures Decode(Enum(tags), bs) != Ok(Unit(j))
  {
  }

  /** The decoder never gives the index of a shadowed variant. */
  lemma {:induction false} ShadowedCase(vs: seq<Field>, v: Val)
    requires HasType(OneOf(vs), v) && Derivable(OneOf(vs)) && !IsFirstTag(vs, v.index)
    ensures var r := Decode(OneOf(vs), Encode(OneOf(vs), v)); r.Ok? ==> r.value.Case? && r.value.index != v.index
  {
    hide DecodeCases, Encode;
    var i :| 0 <= i < v.index && vs[i].tag == vs[v.index].tag;
    ShadowedVariantLost(vs, i, v.index, Encode(OneOf(vs), v), Default(OneOf(vs)));
  }

  /** A variant with a payload that comes back does so itself if and only if no earlier variant has its tag. */
  lemma {:induction false} CaseRoundTrip(vs: seq<Field>, v: Val)
    requires HasType(OneOf(vs), v) && Derivable(OneOf(vs)) && ShortBools(OneOf(vs), v)
    requires UnshadowedKind(vs[v.index].kind, v.payload) && |Encode(OneOf(vs), v)| < MAX_LEN
    ensures Decode(OneOf(vs), Encode(OneOf(vs), v)) == Ok(Norm(OneOf(vs), v)) <==> IsFirstTag(vs, v.index)
    decreases vs
  {
    hide Decode, Encode;
    if IsFirstTag(vs, v.index) {
      CaseBack(vs, v);
      if vs[v.index].kind.Message? { RoundTrip(vs[v.index].kind.ty, v.payload); }
    } else {
      ShadowedCase(vs, v);
    }
  }

  // ---- every value without a set bool under a long tag ----

  lemma {:induction false} KindBack(k: CodecKind, v: Val)
    requires HasKind(k, v) && DerivableKind(k) && ShortBoolsKind(k, v) && UnshadowedKind(k, v) && Fits(k, v)
    ensures BackKind(k, v) == Ok(NormKind(k, v))
    decreases k, 1
  {
    hide Decode, Encode, HasType;
    match k
    case Message(ty) => RoundTrip(ty, v);
    case OptionalMessage(ty) => if v.Present? { RoundTrip(ty, v.inner); }
    case RepeatedMessage(ty) => ItemsBack(ty, v.items);
    case _ =>
  }

  lemma {:induction false} ItemsBack(ty: MsgTy, items: seq<Val>)
    requires Derivable(ty) && forall i :: 0 <= i < |items| ==> HasType(ty, items[i]) && |Encode(ty, items[i])| < MAX_LEN
    requires forall i :: 0 <= i < |items| ==> ShortBools(ty, items[i]) && Unshadowed(ty, items[i])
    ensures BackAll(ty, items) == Ok(NormAll(ty, items))
    decreases ty, |items| + 1
  {
    hide Decode, Encode, HasType, ShortBools, Unshadowed;
    if items != [] {
      RoundTrip(ty, items[0]);
      ItemsBack(ty, items[1..]);
      assert NormAll(ty, items) == [Norm(ty, items[0])] + NormAll(ty, items[1..]);
    }
  }

  /** Decoding an encoding that fits a `usize` consumes it all and returns what survives of the value. */
  lemma {:induction false} RoundTrip(ty: MsgTy, v: Val)
    requires Derivable(ty) && HasType(ty, v) && ShortBools(ty, v) && Unshadowed(ty, v)
    requires |Encode(ty, v)| < MAX_LEN
    ensures Decode(ty, Encode(ty, v)) == Ok(Norm(ty, v))
    decreases ty, 0
  {
    hide Decode, Encode;
    match ty
    case Struct(fs) =>
      StructBack(fs, v);
      forall i | 0 <= i < |fs| ensures BackKind(fs[i].kind, v.vals[i]) == Ok(NormKind(fs[i].kind, v.vals[i])) {
        KindBack(fs[i].kind, v.vals[i]);
      }
      assert Decode(ty, Encode(ty, v)).value.vals == Norm(ty, v).vals;
    case OneOf(vs) => CaseRoundTrip(vs, v);
    case Enum(tags) => EnumRoundTrip(tags, v);
  }

  lemma {:induction false} BackAt(ty: MsgTy, items: seq<Val>, i: nat)
    requires Derivable(ty) && i < |items| && forall j :: 0 <= j < |items| ==> HasType(ty, items[j])
    ensures var back := BackAll(ty, items);
            back.Ok? ==> |back.value| == |items| && Decode(ty, Encode(ty, items[i])) == Ok(back.value[i])
  {
    hide Decode, Encode, HasType;
    BackCount(ty, items);
    if i > 0 { BackAt(ty, items[1..], i - 1); }
  }

  lemma {:induction false} BackCount(ty: MsgTy, items: seq<Val>)
    requires Derivable(ty) && forall j :: 0 <= j < |items| ==> HasType(ty, items[j])
    ensures var back := BackAll(ty, items); back.Ok? ==> |back.value| == |items|
  {
    hide Decode, Encode, HasType;
    if items != [] { BackCount(ty, items[1..]); }
  }

  // ---- exactly which values come back unchanged ----

  /** No singular `-0.0`, and nothing stored under an optional or repeated shape without an arm. */
  predicate IntactKind(k: CodecKind, v: Val)
    requires HasKind(k, v)
  {
    match k
    case Fixed32 => IsZeroFloat(v.bits) ==> v.bits[3] == 0
    case Fixed64 => IsZeroFloat(v.bits) ==> v.bits[7] == 0
    case Optional(inner) => HasArm(inner) || v.Absent?
    case Repeated(inner) => HasArm(inner) || v.items == []
    case Message(ty) => Intact(ty, v)
    case OptionalMessage(ty) => v.Present? ==> Intact(ty, v.inner)
    case RepeatedMessage(ty) => forall i :: 0 <= i < |v.items| ==> Intact(ty, v.items[i])
    case _ => true
  }

  predicate Intact(ty: MsgTy, v: Val)
    requires HasType(ty, v)
  {
    match ty
    case Struct(fs) => IntactFields(fs, v.vals)
    case OneOf(vs) => IntactPayload(vs[v.index].kind, v.payload)
    case Enum(_) => true
  }

  predicate IntactFields(fs: seq<Field>, vals: seq<Val>)
    requires FieldsTyped(fs, vals)
  {
    forall i :: 0 <= i < |fs| ==> IntactKind(fs[i].kind, vals[i])
  }

  predicate IntactPayload(k: CodecKind, v: Val)
    requires HasKind(k, v)
  {
    k.Message? ==> Intact(k.ty, v)
  }

  lemma {:induction false} NormKindIdentity(k: CodecKind, v: Val)
    requires HasKind(k, v)
    ensures NormKind(k, v) == v <==> IntactKind(k, v)
    decreases k, 0
  {
    match k
    case Message(ty) => NormIdentity(ty, v);
    case OptionalMessage(ty) => if v.Present? { NormIdentity(ty, v.inner); }
    case RepeatedMessage(ty) =>
      forall i | 0 <= i < |v.items| ensures Norm(ty, v.items[i]) == v.items[i] <==> Intact(ty, v.items[i]) {
        NormIdentity(ty, v.items[i]);
      }
    case _ =>
  }

  lemma {:induction false} NormIdentity(ty: MsgTy, v: Val)
    requires HasType(ty, v)
    ensures Norm(ty, v) == v <==> Intact(ty, v)
    decreases ty, 0
  {
    match ty
    case Struct(fs) =>
      forall i | 0 <= i < |fs|
        ensures NormKind(fs[i].kind, v.vals[i]) == v.vals[i] <==> IntactKind(fs[i].kind, v.vals[i]) {
        NormKindIdentity(fs[i].kind, v.vals[i]);
      }
    case OneOf(vs) =>
      var k := vs[v.index].kind;
      if k.Message? { NormIdentity(k.ty, v.payload); }
    case Enum(_) =>
  }

  // ---- a set bool under a long tag ----

  /** Nothing shorter than two bytes sets a field with a two-byte tag. */
  lemma {:induction false} OneByteSetsNothing(fs: seq<Field>, i: nat, bs: seq<Byte>, acc: seq<Val>)
    requires Decodable(fs, acc) && i < |fs| && fs[i].tag >= 16 && |bs| <= 1
    ensures var r := DecodeFields(fs, bs, acc); r.Ok? ==> r.value[i] == acc[i]
  {
    hide DecodeArm, SkipWireValue;
    if bs != [] {
      var step := DecodeOne(fs, bs, acc);
      if step.Ok? {
        assert bs[step.value.consumed..] == [];
        ShortTag(bs);
      }
    }
  }

  lemma {:induction false} ShortTag(bs: seq<Byte>)
    requires bs != []
    ensures bs[0] < 0x80 ==> ReadVarint(bs) == Ok(Read(bs[0] as nat, 1))
    ensures bs[0] >= 0x80 && |bs| == 1 ==> ReadVarint(bs).Err?
    ensures bs[0] >= 0x80 && |bs| == 2 && bs[1] == 1 ==> ReadVarint(bs) == Ok(Read(bs[0] as nat, 2))
  {
    if |bs| == 2 && bs[1] == 1 {
      assert bs[1..] == [1];
      assert RawVarint([1], 9) == Ok(Read(1, 1));
    }
  }

  /** An arm needs at least one byte. */
  lemma {:induction false} ArmNeedsBytes(k: CodecKind, cur: Val)
    requires DerivableKind(k)
    ensures DecodeArm(k, 0, [], cur).Err? && SkipWireValue([], 0).Err?
  {
    assert ReadVarint([]).Err?;
  }

  /** The two bytes written for such a bool do not set it. */
  lemma {:induction false} TwoBytesLost(fs: seq<Field>, i: nat, acc: seq<Val>)
    requires Decodable(fs, acc) && i < |fs| && fs[i].tag >= 16
    ensures var r := DecodeFields(fs, [8 * fs[i].tag % 256, 1], acc); r.Ok? ==> r.value[i] == acc[i]
  {
    hide DecodeArm, SkipWireValue, ReadVarint;
    var b: Byte := 8 * fs[i].tag % 256;
    var bs := [b, 1];
    assert bs[1..] == [1] && bs[2..] == [];
    ShortTag(bs);
    var j := FindTag(fs, FieldNumber(b));
    if b < 0x80 {
      assert j != i;
      var step := DecodeOne(fs, bs, acc);
      if step.Ok? {
        assert step.value.value[i] == acc[i];
        OneByteSetsNothing(fs, i, bs[step.value.consumed..], step.value.value);
      }
    } else {
      if j < |fs| { ArmNeedsBytes(fs[j].kind, acc[j]); } else { ArmNeedsBytes(Bool, Absent); }
      assert DecodeOne(fs, bs, acc).Err?;
    }
  }

  // ---- long tags that are read in step ----

  /** Arms that read, or skip, exactly one varint. */
  predicate TakesVarint(k: CodecKind) {
    match k
    case Varint(_) => true
    case Bool => true
    case Optional(inner) => inner.Varint? || inner.Bool? || !HasArm(inner)
    case Repeated(inner) => IsPackable(inner) || !HasArm(inner)
    case _ => false
  }

  /**
    The single tag byte is a whole tag, and names no field or one that takes a varint: the two bytes written
    are one record, of another field.
  */
  predicate ReadsInStep(fs: seq<Field>, tag: U32) {
    tag % 32 < 16 && forall j :: 0 <= j < |fs| && fs[j].tag == tag % 32 ==> TakesVarint(fs[j].kind)
  }

  lemma {:induction false} ArmTakesVarint(k: CodecKind, rest: seq<Byte>, cur: Val)
    requires DerivableKind(k) && TakesVarint(k) && (k.Repeated? ==> cur.List?)
    ensures var r := DecodeArm(k, 0, [1] + rest, cur); r.Ok? ==> r.value.consumed == 1 && (k.Repeated? ==> r.value.value.List?)
  {
    ShortTag([1] + rest);
  }

  /** The single tag byte is read as a tag of its own. */
  lemma {:induction false} ShortTagRead(tag: U32, rest: seq<Byte>)
    requires tag % 32 < 16
    ensures var bs: seq<Byte> := [8 * tag % 256, 1] + rest;
            && ReadVarint(bs) == Ok(Read(8 * (tag % 32), 1)) && FieldNumber(8 * (tag % 32)) == tag % 32
            && bs[1..] == [1] + rest && bs[2..] == rest && 8 * (tag % 32) % 8 == 0
  {
    assert 8 * tag % 256 == 8 * (tag % 32);
    ShortTag([8 * tag % 256, 1] + rest);
  }

  /** One turn of the loop on the two bytes: an error, or one varint for a field with a short tag. */
  lemma {:induction false} InStepOne(fs: seq<Field>, i: nat, rest: seq<Byte>, acc: seq<Val>) returns (after: seq<Val>)
    requires Decodable(fs, acc) && ListsIn(fs, acc) && i < |fs| && fs[i].tag >= 16 && ReadsInStep(fs, fs[i].tag)
    ensures Decodable(fs, after) && ListsIn(fs, after)
    ensures forall j :: 0 <= j < |fs| && fs[j].tag >= 16 ==> after[j] == acc[j]
    ensures var r := DecodeOne(fs, [8 * fs[i].tag % 256, 1] + rest, acc); r.Err? || r == Ok(Read(after, 2))
  {
    hide DecodeArm, SkipWireValue, ReadVarint, DerivableKind;
    ShortTagRead(fs[i].tag, rest);
    var j := FindTag(fs, fs[i].tag % 32);
    after := acc;
    if j < |fs| {
      ArmTakesVarint(fs[j].kind, rest, acc[j]);
      var r := DecodeArm(fs[j].kind, 0, [1] + rest, acc[j]);
      if r.Ok? { after := acc[j := r.value.value]; }
    } else {
      SkipOne(rest);
    }
  }

  lemma {:induction false} SkipOne(rest: seq<Byte>)
    ensures SkipWireValue([1] + rest, 0) == Ok(1)
  {
    ShortTag([1] + rest);
  }

  /** The loop goes past the two bytes, and no field with a long tag has changed. */
  lemma {:induction false} InStep(fs: seq<Field>, i: nat, rest: seq<Byte>, acc: seq<Val>) returns (after: seq<Val>)
    requires Decodable(fs, acc) && ListsIn(fs, acc) && i < |fs| && fs[i].tag >= 16 && ReadsInStep(fs, fs[i].tag)
    ensures Decodable(fs, after) && ListsIn(fs, after)
    ensures forall j :: 0 <= j < |fs| && fs[j].tag >= 16 ==> after[j] == acc[j]
    ensures var r := DecodeFields(fs, [8 * fs[i].tag % 256, 1] + rest, acc); r.Err? || r == DecodeFields(fs, rest, after)
  {
    hide DecodeOne, ReadsInStep, ListsIn, DerivableKind;
    after := InStepOne(fs, i, rest, acc);
    assert ([8 * fs[i].tag % 256, 1] + rest)[2..] == rest;
  }

  /** If all the bools set under long tags are read in step, not one of them is set, whatever else is written. */
  lemma {:induction false} LongTagsInStep(fs: seq<Field>, vals: seq<Val>, k: nat, acc: seq<Val>)
    requires FieldsTyped(fs, vals) && k <= |fs| && Decodable(fs, acc) && ListsIn(fs, acc)
    requires forall j :: k <= j < |fs| && IsLongBool(fs[j], vals[j]) ==> ReadsInStep(fs, fs[j].tag)
    requires |EncodeFrom(fs, vals, k)| < MAX_LEN
    ensures var r := DecodeFields(fs, EncodeFrom(fs, vals, k), acc);
            r.Ok? ==> forall j :: 0 <= j < |fs| && fs[j].kind.Bool? && fs[j].tag >= 16 ==> r.value[j] == acc[j]
    decreases |fs| - k
  {
    hide HasKind, After, DecodeOne, DerivableKind, DecodeFields, ListsIn, ReadsInStep;
    if k == |fs| {
      NothingLeft(fs, acc);
    } else {
      var rest := EncodeFrom(fs, vals, k + 1);
      if IsLongBool(fs[k], vals[k]) {
        var after := InStep(fs, k, rest, acc);
        LongTagsInStep(fs, vals, k + 1, after);
      } else {
        FieldStep(fs, k, vals[k], rest, acc);
        AfterIsListed(fs, k, vals[k], acc);
        AfterLongBool(fs[k], vals[k], acc[k]);
        var back := After(fs[k].kind, vals[k], acc[k]);
        if back.Ok? { LongTagsInStep(fs, vals, k + 1, acc[k := back.value]); }
      }
    }
  }

  lemma {:induction false} NothingLeft(fs: seq<Field>, acc: seq<Val>)
    requires Decodable(fs, acc)
    ensures DecodeFields(fs, [], acc) == Ok(acc)
  {
  }

  lemma {:induction false} AfterLongBool(f: Field, v: Val, cur: Val)
    requires HasKind(f.kind, v) && DerivableKind(f.kind) && !IsLongBool(f, v)
    ensures f.kind.Bool? && f.tag >= 16 ==> After(f.kind, v, cur) == Ok(cur)
  {
  }

  // ---- exactly which values come back ----

  /** Every bool set under a long tag, at any depth, is read in step. */
  predicate InStepBools(ty: MsgTy, v: Val)
    requires HasType(ty, v)
  {
    match ty
    case Struct(fs) => InStepFields(fs, v.vals)
    case OneOf(vs) => InStepKind(vs[v.index].kind, v.payload)
    case Enum(_) => true
  }

  predicate InStepFields(fs: seq<Field>, vals: seq<Val>)
    requires FieldsTyped(fs, vals)
  {
    forall i :: 0 <= i < |fs| ==>
      (IsLongBool(fs[i], vals[i]) ==> ReadsInStep(fs, fs[i].tag)) && InStepKind(fs[i].kind, vals[i])
  }

  predicate InStepKind(k: CodecKind, v: Val)
    requires HasKind(k, v)
  {
    match k
    case Message(ty) => InStepBools(ty, v)
    case OptionalMessage(ty) => v.Present? ==> InStepBools(ty, v.inner)
    case RepeatedMessage(ty) => forall i :: 0 <= i < |v.items| ==> InStepBools(ty, v.items[i])
    case _ => true
  }

  /** In particular where there is none. */
  lemma {:induction false} ShortIsInStep(ty: MsgTy, v: Val)
    requires HasType(ty, v) && ShortBools(ty, v)
    ensures InStepBools(ty, v)
    decreases ty, 0
  {
    hide ReadsInStep;
    match ty
    case Struct(fs) =>
      forall i | 0 <= i < |fs| ensures InStepKind(fs[i].kind, v.vals[i]) { ShortKindIsInStep(fs[i].kind, v.vals[i]); }
    case OneOf(vs) => ShortKindIsInStep(vs[v.index].kind, v.payload);
    case Enum(_) =>
  }

  lemma {:induction false} ShortKindIsInStep(k: CodecKind, v: Val)
    requires HasKind(k, v) && ShortBoolsKind(k, v)
    ensures InStepKind(k, v)
    decreases k, 1
  {
    match k
    case Message(ty) => ShortIsInStep(ty, v);
    case OptionalMessage(ty) => if v.Present? { ShortIsInStep(ty, v.inner); }
    case RepeatedMessage(ty) =>
      forall i | 0 <= i < |v.items| ensures InStepBools(ty, v.items[i]) { ShortIsInStep(ty, v.items[i]); }
    case _ =>
  }

  /** No set bool under a long tag, and no shadowed variant. */
  predicate Readable(ty: MsgTy, v: Val)
    requires HasType(ty, v)
  {
    ShortBools(ty, v) && Unshadowed(ty, v)
  }

  /** Otherwise neither the value nor what survives of it comes back. */
  lemma {:induction false} Lost(ty: MsgTy, v: Val)
    requires Derivable(ty) && HasType(ty, v) && InStepBools(ty, v) && !Readable(ty, v)
    requires |Encode(ty, v)| < MAX_LEN
    ensures var r := Decode(ty, Encode(ty, v)); r != Ok(v) && r != Ok(Norm(ty, v))
    decreases ty, 0
  {
    hide Decode, Encode, BackKind;
    match ty
    case Struct(fs) => StructLost(fs, v);
    case OneOf(vs) =>
      if IsFirstTag(vs, v.index) {
        CaseBack(vs, v);
        CaseReadable(vs, v);
        Lost(vs[v.index].kind.ty, v.payload);
      } else {
        ShadowedCase(vs, v);
      }
    case Enum(tags) => EnumRoundTrip(tags, v);
  }

  lemma {:induction false} StructLost(fs: seq<Field>, v: Val)
    requires Derivable(Struct(fs)) && HasType(Struct(fs), v) && InStepBools(Struct(fs), v) && !Readable(Struct(fs), v)
    requires |Encode(Struct(fs), v)| < MAX_LEN
    ensures var r := Decode(Struct(fs), Encode(Struct(fs), v)); r != Ok(v) && r != Ok(Norm(Struct(fs), v))
    decreases fs
  {
    hide Encode, BackKind, DecodeFields, ReadsInStep;
    if i :| 0 <= i < |fs| && IsLongBool(fs[i], v.vals[i]) {
      ZerosListed(fs);
      FieldsTotal(fs, v);
      LongTagsInStep(fs, v.vals, 0, Zeros(fs));
      assert Norm(Struct(fs), v).vals[i] == v.vals[i];
    } else {
      StructBack(fs, v);
      if forall i :: 0 <= i < |fs| ==> ShortBoolsKind(fs[i].kind, v.vals[i]) && UnshadowedKind(fs[i].kind, v.vals[i]) {
        StructReadable(fs, v);
      }
      var i :| 0 <= i < |fs| && !(ShortBoolsKind(fs[i].kind, v.vals[i]) && UnshadowedKind(fs[i].kind, v.vals[i]));
      KindLost(fs[i].kind, v.vals[i]);
    }
  }

  lemma {:induction false} StructReadable(fs: seq<Field>, v: Val)
    requires HasType(Struct(fs), v) && FieldsTyped(fs, v.vals)
    requires forall i :: 0 <= i < |fs| ==> !IsLongBool(fs[i], v.vals[i])
    requires forall i :: 0 <= i < |fs| ==> ShortBoolsKind(fs[i].kind, v.vals[i]) && UnshadowedKind(fs[i].kind, v.vals[i])
    ensures Readable(Struct(fs), v)
  {
    assert ShortBoolFields(fs, v.vals) && UnshadowedFields(fs, v.vals);
  }

  lemma {:induction false} CaseReadable(vs: seq<Field>, v: Val)
    requires HasType(OneOf(vs), v) && IsFirstTag(vs, v.index) && !Readable(OneOf(vs), v)
    ensures var k := vs[v.index].kind; k.Message? && HasType(k.ty, v.payload) && !Readable(k.ty, v.payload)
  {
    var k := vs[v.index].kind;
    assert !(ShortBoolsKind(k, v.payload) && UnshadowedKind(k, v.payload));
  }

  lemma {:induction false} FieldsTotal(fs: seq<Field>, v: Val)
    requires HasType(Struct(fs), v)
    ensures Encode(Struct(fs), v) == EncodeFrom(fs, v.vals, 0)
  {
  }

  lemma {:induction false} KindLost(k: CodecKind, v: Val)
    requires HasKind(k, v) && DerivableKind(k) && InStepKind(k, v) && Fits(k, v)
    requires !(ShortBoolsKind(k, v) && UnshadowedKind(k, v))
    ensures BackKind(k, v) != Ok(v) && BackKind(k, v) != Ok(NormKind(k, v))
    decreases k
  {
    hide Decode, Encode, HasType;
    match k
    case Message(ty) => Lost(ty, v);
    case OptionalMessage(ty) => Lost(ty, v.inner);
    case RepeatedMessage(ty) =>
      var i :| 0 <= i < |v.items| && !Readable(ty, v.items[i]);
      Lost(ty, v.items[i]);
      BackAt(ty, v.items, i);
  }

  /**
    Round trip, exactly: when every bool set under a long tag is read in step, what survives of the value
    comes back if and only if there is no such bool and no variant present is shadowed, and the value itself
    if and only if it is moreover intact.
  */
  lemma {:induction false} RoundTripIffIntact(ty: MsgTy, v: Val)
    requires Derivable(ty) && HasType(ty, v) && InStepBools(ty, v)
    requires |Encode(ty, v)| < MAX_LEN
    ensures Decode(ty, Encode(ty, v)) == Ok(Norm(ty, v)) <==> Readable(ty, v)
    ensures Decode(ty, Encode(ty, v)) == Ok(v) <==> Readable(ty, v) && Intact(ty, v)
  {
    hide Decode, Encode, Norm;
    if Readable(ty, v) {
      RoundTrip(ty, v);
      NormIdentity(ty, v);
    } else {
      Lost(ty, v);
    }
  }

  // ---- long tags that are read out of step ----

  /**
    Whatever its tag, such a bool is lost if the fields after it write nothing and those before it that are
    such bools are read in step.
  */
  lemma {:induction false} LongTagLost(fs: seq<Field>, vals: seq<Val>, i: nat, k: nat, acc: seq<Val>)
    requires FieldsTyped(fs, vals) && k <= i < |fs| && Decodable(fs, acc) && ListsIn(fs, acc)
    requires IsLongBool(fs[i], vals[i]) && EncodeFrom(fs, vals, i + 1) == [] && acc[i] == Flag(false)
    requires forall j :: k <= j < i && IsLongBool(fs[j], vals[j]) ==> ReadsInStep(fs, fs[j].tag)
    requires |EncodeFrom(fs, vals, k)| < MAX_LEN
    ensures var r := DecodeFields(fs, EncodeFrom(fs, vals, k), acc); r.Ok? ==> r.value[i] == Flag(false)
    decreases i - k
  {
    hide HasKind, After, DecodeOne, DerivableKind, DecodeFields, ListsIn, ReadsInStep;
    var rest := EncodeFrom(fs, vals, k + 1);
    if k == i {
      var bs: seq<Byte> := [8 * fs[i].tag % 256, 1];
      assert bs + [] == bs;
      TwoBytesLost(fs, i, acc);
    } else if IsLongBool(fs[k], vals[k]) {
      var after := InStep(fs, k, rest, acc);
      LongTagLost(fs, vals, i, k + 1, after);
    } else {
      FieldStep(fs, k, vals[k], rest, acc);
      AfterIsListed(fs, k, vals[k], acc);
      var back := After(fs[k].kind, vals[k], acc[k]);
      if back.Ok? { LongTagLost(fs, vals, i, k + 1, acc[k := back.value]); }
    }
  }

  /** So the last field to write, a set bool, comes back if and only if its tag is below 16. */
  lemma {:induction false} BoolNeedsShortTag(fs: seq<Field>, vals: seq<Val>, i: nat)
    requires Derivable(Struct(fs)) && FieldsTyped(fs, vals) && |EncodeFrom(fs, vals, 0)| < MAX_LEN
    requires i < |fs| && fs[i].kind.Bool? && vals[i] == Flag(true) && EncodeFrom(fs, vals, i + 1) == []
    requires forall j :: 0 <= j < |fs| ==> (j != i ==> !IsLongBool(fs[j], vals[j])) && ShortBoolsKind(fs[j].kind, vals[j])
    requires UnshadowedFields(fs, vals) && IntactFields(fs, vals)
    ensures Decode(Struct(fs), Encode(Struct(fs), Rec(vals))) == Ok(Rec(vals)) <==> fs[i].tag < 16
  {
    hide DecodeFields, EncodeFrom, UnshadowedFields, IntactFields, ShortBoolsKind, ListsIn;
    assert HasType(Struct(fs), Rec(vals));
    if fs[i].tag < 16 {
      RoundTrip(Struct(fs), Rec(vals));
      NormIdentity(Struct(fs), Rec(vals));
    } else {
      ZerosListed(fs);
      LongTagLost(fs, vals, i, 0, Zeros(fs));
    }
  }

  function AccidentFields(): (fs: seq<Field>) {
    [Field("b", 16, Bool), Field("e", 1, Message(Enum([0]))), Field("o", 2, Message(OneOf([Field("x", 1, CodecKind.Fixed32)])))]
  }

  const ACCIDENT_VALS := [Flag(true), Unit(0), Case(0, Bits([0, 0, 0, 0]))]

  const ACCIDENT_BYTES: seq<Byte> := [0x80, 1, 10, 1, 0, 18, 5, 13, 0, 0, 0, 0]

  /** A short nested message under a short tag. */
  lemma {:induction false} ShortMessageField(f: Field, v: Val)
    requires f.kind.Message? && HasType(f.kind.ty, v) && f.tag < 16 && 0 < |Encode(f.kind.ty, v)| < 0x80
    ensures HasKind(f.kind, v)
    ensures EncodeField(f, v) == [8 * f.tag + 2, |Encode(f.kind.ty, v)|] + Encode(f.kind.ty, v)
  {
    hide Encode;
    var nested := Encode(f.kind.ty, v);
    var rec := Record(2, LenPrefixed(nested));
    assert LenPrefixed(nested) == [|nested|] + nested;
    assert TagBytes(f.tag, 2) == [8 * f.tag + 2];
    assert Emits(f.kind, v) == [rec] && [rec][1..] == [];
    assert WriteRecords(f.tag, [rec]) == TagBytes(f.tag, 2) + LenPrefixed(nested);
    Cut([8 * f.tag + 2], [|nested|], nested);
  }

  lemma {:induction false} AccidentEncodes()
    ensures FieldsTyped(AccidentFields(), ACCIDENT_VALS)
    ensures EncodeFrom(AccidentFields(), ACCIDENT_VALS, 0) == ACCIDENT_BYTES
  {
    hide EncodeField, HasType;
    var fs, vals := AccidentFields(), ACCIDENT_VALS;
    AccidentParts();
    ShortMessageField(fs[1], vals[1]);
    ShortMessageField(fs[2], vals[2]);
    assert EncodeFrom(fs, vals, 3) == [];
    assert EncodeFrom(fs, vals, 2) == [18, 5, 13, 0, 0, 0, 0];
    assert EncodeFrom(fs, vals, 1) == [10, 1, 0] + [18, 5, 13, 0, 0, 0, 0];
  }

  lemma {:induction false} AccidentParts()
    ensures var fs, vals := AccidentFields(), ACCIDENT_VALS;
            && HasKind(fs[0].kind, vals[0]) && EncodeField(fs[0], vals[0]) == [0x80, 1]
            && HasType(fs[1].kind.ty, vals[1]) && Encode(fs[1].kind.ty, vals[1]) == [0]
            && HasType(fs[2].kind.ty, vals[2]) && Encode(fs[2].kind.ty, vals[2]) == [13, 0, 0, 0, 0]
  {
    var o := AccidentFields()[2].kind.ty;
    assert HasKind(o.variants[0].kind, Bits([0, 0, 0, 0]));
    assert TagBytes(1, 5) == [13];
  }

  lemma {:induction false} AccidentTags()
    ensures ReadVarint(ACCIDENT_BYTES) == Ok(Read(128, 2)) && ReadVarint(ACCIDENT_BYTES[2..]) == Ok(Read(10, 1))
    ensures FieldNumber(128) == 16
  {
    var bs := ACCIDENT_BYTES;
    assert bs[1..][0] == 1 && bs[2..][0] == 10;
    assert RawVarint(bs[1..], 9) == Ok(Read(1, 1));
  }

  /** The first turn reads the tag of `b`, and the tag byte of `e` as its value. */
  lemma {:induction false} AccidentFirst()
    ensures Derivable(Struct(AccidentFields())) && Zeros(AccidentFields()) == ACCIDENT_VALS[0 := Flag(false)]
    ensures DecodeOne(AccidentFields(), ACCIDENT_BYTES, ACCIDENT_VALS[0 := Flag(false)]) == Ok(Read(ACCIDENT_VALS, 3))
  {
    hide ReadVarint;
    var fs, bs := AccidentFields(), ACCIDENT_BYTES;
    assert Derivable(fs[1].kind.ty) && Derivable(fs[2].kind.ty);
    AccidentTags();
    assert FindTag(fs, 16) == 0;
    var acc := ACCIDENT_VALS[0 := Flag(false)];
    assert acc[0 := Flag(true)] == ACCIDENT_VALS;
    assert DecodeArm(fs[0].kind, 0, bs[2..], acc[0]) == Ok(Read(Flag(true), 1));
  }

  /** The second turn skips the rest as one unknown field. */
  lemma {:induction false} AccidentSecond()
    requires Derivable(Struct(AccidentFields()))
    ensures DecodeOne(AccidentFields(), ACCIDENT_BYTES[3..], ACCIDENT_VALS) == Ok(Read(ACCIDENT_VALS, 9))
  {
    var fs, rest := AccidentFields(), ACCIDENT_BYTES[3..];
    assert rest[0] == 1 && |rest[1..]| == 8;
    assert ReadVarint(rest) == Ok(Read(1, 1));
    assert FieldNumber(1) == 0 && FindTag(fs, 0) == 3;
  }

  lemma {:induction false} AccidentDecodes()
    ensures Derivable(Struct(AccidentFields()))
    ensures DecodeFields(AccidentFields(), ACCIDENT_BYTES, Zeros(AccidentFields())) == Ok(ACCIDENT_VALS)
  {
    hide DecodeOne, Zeros;
    AccidentFirst();
    AccidentSecond();
    assert ACCIDENT_BYTES[3..][9..] == [];
  }

  /** With fields behind it such a bool can come back by accident: the bytes of one are read as its value. */
  lemma {:induction false} LongTagByAccident()
    ensures var ty, v := Struct(AccidentFields()), Rec(ACCIDENT_VALS);
            && Derivable(ty) && HasType(ty, v) && IsLongBool(AccidentFields()[0], v.vals[0])
            && Decode(ty, Encode(ty, v)) == Ok(v)
  {
    hide DecodeFields, EncodeFrom;
    AccidentEncodes();
    AccidentDecodes();
  }
}
