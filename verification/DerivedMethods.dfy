/**
  The loops the generated code consists of (typeway-macros/src/lib.rs): field-by-field encoders over a
  growing buffer, the batch writer of packed varints with its patched length, and the offset-driven
  decoders. Each is proved equal to the interpreter's function.
*/
module DerivedMethods {
  import opened Bytes
  import opened Varint
  import opened Wire
  import opened ByteVecs
  import opened DerivedCodec
  import opened DerivedLen

  lemma {:induction false} PackAllSnoc(k: CodecKind, items: seq<Val>, v: Val)
    requires IsScalar(k) && AllTyped(k, items) && ScalarTyped(k, v)
    ensures AllTyped(k, items + [v])
    ensures PackAll(k, items + [v]) == PackAll(k, items) + ScalarPayload(k, v)
  {
    hide ScalarTyped, ScalarPayload;
    if items == [] {
      assert items + [v] == [v] && [v][1..] == [];
    } else {
      PackAllSnoc(k, items[1..], v);
      assert (items + [v])[1..] == items[1..] + [v];
    }
  }

  lemma {:induction false} VarintFits(v: U64)
    ensures |VarintBytes(v)| <= 10
  {
    ReadVarintInverts(v, []);
  }

  /** The unchecked inner write: at most ten bytes at `start`, nothing else touched. */
  method WriteVarintAt(a: array<Byte>, start: nat, value: U64) returns (pos: nat)
    requires start + 10 <= a.Length
    modifies a
    ensures start <= pos <= start + 10
    ensures a[..pos] == old(a[..start]) + VarintBytes(value)
  {
    VarintFits(value);
    pos := start;
    var v: U64 := value;
    while v >= 0x80
      invariant start <= pos && pos + |VarintBytes(v)| == start + |VarintBytes(value)|
      invariant a[..pos] + VarintBytes(v) == old(a[..start]) + VarintBytes(value)
    {
      ghost var before := a[..pos];
      assert before + VarintBytes(v) == before + [v % 0x80 + 0x80] + VarintBytes(v / 0x80);
      a[pos] := v % 0x80 + 0x80;
      v := v / 0x80;
      pos := pos + 1;
      assert a[..pos] == before + [a[pos - 1]];
    }
    ghost var before := a[..pos];
    a[pos] := v;
    pos := pos + 1;
    assert a[..pos] == before + [v];
  }

  /** The batch loop: every item through `WriteVarintAt`, ten bytes of reservation per item. */
  method WriteVarints(a: array<Byte>, start: nat, t: IntTy, items: seq<Val>) returns (pos: nat)
    requires AllTyped(CodecKind.Varint(t), items) && start + 10 * |items| <= a.Length
    modifies a
    ensures start <= pos <= start + 10 * |items|
    ensures a[..pos] == old(a[..start]) + PackAll(CodecKind.Varint(t), items)
  {
    hide ScalarTyped, PackAll, AllTyped;
    ghost var k := CodecKind.Varint(t);
    pos := start;
    EmptyPack(k);
    for j := 0 to |items|
      invariant start <= pos <= start + 10 * j
      invariant AllTyped(k, items[..j]) && a[..pos] == old(a[..start]) + PackAll(k, items[..j])
    {
      PackedPrefix(k, items, j);
      pos := WriteVarintAt(a, pos, WrapU64(items[j].n));
    }
    assert items[..|items|] == items;
  }

  lemma {:induction false} EmptyPack(k: CodecKind)
    requires IsScalar(k)
    ensures AllTyped(k, []) && PackAll(k, []) == []
  {
  }

  lemma {:induction false} PackedPrefix(k: CodecKind, items: seq<Val>, j: nat)
    requires IsScalar(k) && AllTyped(k, items) && j < |items|
    ensures ScalarTyped(k, items[j]) && AllTyped(k, items[..j]) && AllTyped(k, items[..j + 1])
    ensures PackAll(k, items[..j + 1]) == PackAll(k, items[..j]) + ScalarPayload(k, items[j])
    ensures k.Varint? ==> items[j].Int? && ScalarPayload(k, items[j]) == VarintBytes(WrapU64(items[j].n))
  {
    hide PackAll;
    PackAllSnoc(k, items[..j], items[j]);
    assert items[..j + 1] == items[..j] + [items[j]];
  }

  /** The length byte patched in place, or the block re-appended behind a longer prefix. */
  method PatchLength(buf: ByteVec, lenPos: nat, ghost head: seq<Byte>, ghost block: seq<Byte>)
    requires buf.Valid() && lenPos == |head| && buf.View() == head + [0] + block
    requires |block| < 0x1_0000_0000_0000_0000
    modifies buf, buf.data
    ensures buf.Valid() && (buf.data == old(buf.data) || fresh(buf.data))
    ensures buf.View() == head + LenPrefixed(block)
  {
    var dataStart := lenPos + 1;
    var packedLen: nat := buf.len - dataStart;
    if packedLen < 0x80 {
      buf.data[lenPos] := packedLen;
      assert buf.View() == head + ([packedLen] + block);
    } else {
      var moved := buf.data[dataStart..buf.len];
      assert moved == block;
      buf.Truncate(lenPos);
      assert buf.View() == head;
      PushVarint(buf, packedLen);
      buf.Extend(moved);
      assert buf.View() == head + (VarintBytes(packedLen) + block);
    }
  }

  /** Placeholder length byte, one reservation for the worst case, then the batch write. */
  method WriteBlock(buf: ByteVec, t: IntTy, items: seq<Val>) returns (lenPos: nat)
    requires buf.Valid() && AllTyped(CodecKind.Varint(t), items)
    modifies buf, buf.data
    ensures buf.Valid() && (buf.data == old(buf.data) || fresh(buf.data))
    ensures lenPos == old(buf.len)
    ensures buf.View() == old(buf.View()) + [0] + PackAll(CodecKind.Varint(t), items)
  {
    lenPos := buf.len;
    buf.Push(0);
    buf.Reserve(|items| * 10);
    var pos := WriteVarints(buf.data, buf.len, t, items);
    buf.len := pos;
  }

  /** A packed varint field leaves exactly tag, length and concatenated varints after the old contents. */
  method WritePackedVarints(buf: ByteVec, f: Field, v: Val)
    requires buf.Valid() && f.kind.Repeated? && f.kind.inner.Varint? && HasKind(f.kind, v)
    requires |PackAll(f.kind.inner, v.items)| < 0x1_0000_0000_0000_0000
    modifies buf, buf.data
    ensures buf.Valid() && (buf.data == old(buf.data) || fresh(buf.data))
    ensures buf.View() == old(buf.View()) + EncodeField(f, v)
  {
    hide PackAll, ScalarTyped;
    if v.items == [] {
      assert EncodeField(f, v) == [];
      return;
    }
    ghost var start := buf.View();
    PushTag(buf, f.tag, 2);
    ghost var head := buf.View();
    var lenPos := WriteBlock(buf, f.kind.inner.width, v.items);
    PatchLength(buf, lenPos, head, PackAll(f.kind.inner, v.items));
    PackedFieldBytes(f, v, start);
  }

  lemma {:induction false} PackedFieldBytes(f: Field, v: Val, start: seq<Byte>)
    requires f.kind.Repeated? && IsPackable(f.kind.inner) && HasKind(f.kind, v) && v.items != []
    ensures var block := PackAll(f.kind.inner, v.items);
            start + TagBytes(f.tag, 2) + LenPrefixed(block) == start + EncodeField(f, v)
  {
    OneRecordLen(f.tag, Record(2, LenPrefixed(PackAll(f.kind.inner, v.items))));
  }

  /** `tw_encode_varint` on the buffer. */
  method PushVarint(buf: ByteVec, value: U64)
    requires buf.Valid()
    modifies buf, buf.data
    ensures buf.Valid() && (buf.data == old(buf.data) || fresh(buf.data))
    ensures buf.View() == old(buf.View()) + VarintBytes(value)
  {
    if value < 0x80 {
      buf.Push(value);
      return;
    }
    buf.Reserve(10);
    var pos := WriteVarintAt(buf.data, buf.len, value);
    buf.len := pos;
  }

  /** `emit_tag_push`: a constant byte below tag 16, the varint encoder above. */
  method PushTag(buf: ByteVec, tag: U32, wt: WireTy)
    requires buf.Valid()
    modifies buf, buf.data
    ensures buf.Valid() && (buf.data == old(buf.data) || fresh(buf.data))
    ensures buf.View() == old(buf.View()) + TagBytes(tag, wt)
  {
    if tag < 16 {
      var byte: Byte := (8 * tag + wt) % 256;
      buf.Push(byte);
      assert VarintBytes(8 * tag + wt) == [byte];
    } else {
      PushVarint(buf, 8 * tag + wt);
    }
  }

  // ---- encode_to ----

  method PushScalar(buf: ByteVec, k: CodecKind, v: Val)
    requires buf.Valid() && IsScalar(k) && ScalarTyped(k, v) && |ScalarPayload(k, v)| < MAX_LEN
    modifies buf, buf.data
    ensures buf.Valid() && (buf.data == old(buf.data) || fresh(buf.data))
    ensures buf.View() == old(buf.View()) + ScalarPayload(k, v)
  {
    if k.Varint? {
      PushVarint(buf, WrapU64(v.n));
    } else if k.Bool? {
      buf.Push(if v.on then 1 else 0);
    } else if k.Fixed32? || k.Fixed64? {
      buf.Extend(v.bits);
    } else {
      PushPrefixed(buf, v.data);
    }
  }

  method PushPrefixed(buf: ByteVec, bytes: seq<Byte>)
    requires buf.Valid() && |bytes| < MAX_LEN
    modifies buf, buf.data
    ensures buf.Valid() && (buf.data == old(buf.data) || fresh(buf.data))
    ensures buf.View() == old(buf.View()) + LenPrefixed(bytes)
  {
    ghost var start := buf.View();
    PushVarint(buf, |bytes|);
    buf.Extend(bytes);
    assert start + VarintBytes(|bytes|) + bytes == start + LenPrefixed(bytes);
  }

  /** Per-item loop of a packed block of bools or floats. */
  method PushPacked(buf: ByteVec, k: CodecKind, items: seq<Val>)
    requires buf.Valid() && IsPackable(k) && AllTyped(k, items) && |PackAll(k, items)| < MAX_LEN
    modifies buf, buf.data
    ensures buf.Valid() && (buf.data == old(buf.data) || fresh(buf.data))
    ensures buf.View() == old(buf.View()) + PackAll(k, items)
  {
    hide PackAll, ScalarPayload, ScalarTyped;
    EmptyPack(k);
    for j := 0 to |items|
      invariant buf.Valid() && (buf.data == old(buf.data) || fresh(buf.data))
      invariant AllTyped(k, items[..j]) && buf.View() == old(buf.View()) + PackAll(k, items[..j])
    {
      PackedPrefix(k, items, j);
      PackAllBound(k, items, j);
      PushScalar(buf, k, items[j]);
    }
    assert items[..|items|] == items;
  }

  lemma {:induction false} PackAllBound(k: CodecKind, items: seq<Val>, j: nat)
    requires IsScalar(k) && AllTyped(k, items) && j < |items|
    ensures ScalarTyped(k, items[j]) && |ScalarPayload(k, items[j])| <= |PackAll(k, items)|
  {
    if j > 0 {
      PackAllBound(k, items[1..], j - 1);
    }
  }

  /** One text item: tag, length and bytes. */
  method PushText(buf: ByteVec, tag: U32, k: CodecKind, v: Val)
    requires buf.Valid() && IsText(k) && ScalarTyped(k, v) && |ScalarPayload(k, v)| < MAX_LEN
    modifies buf, buf.data
    ensures buf.Valid() && (buf.data == old(buf.data) || fresh(buf.data))
    ensures buf.View() == old(buf.View()) + (TagBytes(tag, WireType(k)) + ScalarPayload(k, v))
  {
    hide ScalarPayload, ScalarTyped;
    ghost var before := buf.View();
    PushTag(buf, tag, WireType(k));
    PushScalar(buf, k, v);
    Cut(before, TagBytes(tag, WireType(k)), ScalarPayload(k, v));
  }

  method PushTexts(buf: ByteVec, tag: U32, k: CodecKind, items: seq<Val>)
    requires buf.Valid() && IsText(k) && AllTyped(k, items)
    requires |WriteRecords(tag, EmitScalars(k, items))| < MAX_LEN
    modifies buf, buf.data
    ensures buf.Valid() && (buf.data == old(buf.data) || fresh(buf.data))
    ensures buf.View() == old(buf.View()) + WriteRecords(tag, EmitScalars(k, items))
  {
    hide ScalarPayload, ScalarTyped, WriteRecords, EmitScalars;
    ghost var whole := WriteRecords(tag, EmitScalars(k, items));
    assert items[0..] == items;
    for j := 0 to |items|
      invariant buf.Valid() && (buf.data == old(buf.data) || fresh(buf.data))
      invariant |WriteRecords(tag, EmitScalars(k, items[j..]))| <= |whole|
      invariant buf.View() + WriteRecords(tag, EmitScalars(k, items[j..])) == old(buf.View()) + whole
    {
      TextsHead(tag, k, items, j);
      PushText(buf, tag, k, items[j]);
    }
    assert items[|items|..] == [];
    NoTexts(tag, k);
    assert buf.View() + [] == buf.View();
  }

  lemma {:induction false} TextsHead(tag: U32, k: CodecKind, items: seq<Val>, j: nat)
    requires IsText(k) && AllTyped(k, items) && j < |items|
    ensures WriteRecords(tag, EmitScalars(k, items[j..]))
         == TagBytes(tag, WireType(k)) + ScalarPayload(k, items[j]) + WriteRecords(tag, EmitScalars(k, items[j + 1..]))
  {
    hide ScalarPayload, ScalarTyped;
    var rest := items[j..];
    assert rest[1..] == items[j + 1..] && rest[0] == items[j];
  }

  lemma {:induction false} NoTexts(tag: U32, k: CodecKind)
    requires IsText(k)
    ensures WriteRecords(tag, EmitScalars(k, [])) == []
  {
  }

  method PushMessages(buf: ByteVec, tag: U32, ty: MsgTy, items: seq<Val>)
    requires buf.Valid() && forall i :: 0 <= i < |items| ==> HasType(ty, items[i])
    requires |WriteRecords(tag, EmitMessages(ty, items))| < MAX_LEN
    modifies buf, buf.data
    ensures buf.Valid() && (buf.data == old(buf.data) || fresh(buf.data))
    ensures buf.View() == old(buf.View()) + WriteRecords(tag, EmitMessages(ty, items))
    decreases ty, 3
  {
    hide HasType, Encode, WriteRecords, EmitMessages;
    ghost var whole := WriteRecords(tag, EmitMessages(ty, items));
    assert items[0..] == items;
    for j := 0 to |items|
      invariant buf.Valid() && (buf.data == old(buf.data) || fresh(buf.data))
      invariant |WriteRecords(tag, EmitMessages(ty, items[j..]))| <= |whole|
      invariant buf.View() + WriteRecords(tag, EmitMessages(ty, items[j..])) == old(buf.View()) + whole
    {
      MessagesHead(tag, ty, items, j);
      var nested := EncodeToVec(ty, items[j]);
      PushNested(buf, tag, nested);
    }
    assert items[|items|..] == [];
    NoMessages(tag, ty);
  }

  lemma {:induction false} NoMessages(tag: U32, ty: MsgTy)
    ensures WriteRecords(tag, EmitMessages(ty, [])) == []
  {
  }

  lemma {:induction false} MessagesHead(tag: U32, ty: MsgTy, items: seq<Val>, j: nat)
    requires j < |items| && forall i :: 0 <= i < |items| ==> HasType(ty, items[i])
    ensures var head := WriteRecords(tag, [Record(2, LenPrefixed(Encode(ty, items[j])))]);
            && WriteRecords(tag, EmitMessages(ty, items[j..])) == head + WriteRecords(tag, EmitMessages(ty, items[j + 1..]))
            && |Encode(ty, items[j])| <= |head|
  {
    hide HasType, Encode;
    var rest, rec := items[j..], Record(2, LenPrefixed(Encode(ty, items[j])));
    assert rest[1..] == items[j + 1..] && rest[0] == items[j];
    OneRecordLen(tag, rec);
  }

  /** `encode_to_vec`: a fresh buffer of the computed capacity. */
  method EncodeToVec(ty: MsgTy, v: Val) returns (bytes: seq<Byte>)
    requires HasType(ty, v) && |Encode(ty, v)| < MAX_LEN
    ensures bytes == Encode(ty, v)
    decreases ty, 2
  {
    var buf := new ByteVec.WithCapacity(EncodedLen(ty, v));
    EncodeTo(buf, ty, v);
    bytes := buf.data[..buf.len];
  }

  /** Tag and payload of a field that emits a single record. */
  method PushOne(buf: ByteVec, f: Field, wt: WireTy, k: CodecKind, v: Val)
    requires buf.Valid() && IsScalar(k) && ScalarTyped(k, v)
    requires |WriteRecords(f.tag, [Record(wt, ScalarPayload(k, v))])| < MAX_LEN
    modifies buf, buf.data
    ensures buf.Valid() && (buf.data == old(buf.data) || fresh(buf.data))
    ensures buf.View() == old(buf.View()) + WriteRecords(f.tag, [Record(wt, ScalarPayload(k, v))])
  {
    hide ScalarPayload, ScalarTyped, WriteRecords, TagBytes;
    OneRecordLen(f.tag, Record(wt, ScalarPayload(k, v)));
    ghost var start := buf.View();
    Cut(start, TagBytes(f.tag, wt), ScalarPayload(k, v));
    PushTag(buf, f.tag, wt);
    PushScalar(buf, k, v);
  }

  method PushNested(buf: ByteVec, tag: U32, nested: seq<Byte>)
    requires buf.Valid() && |nested| < MAX_LEN
    modifies buf, buf.data
    ensures buf.Valid() && (buf.data == old(buf.data) || fresh(buf.data))
    ensures buf.View() == old(buf.View()) + WriteRecords(tag, [Record(2, LenPrefixed(nested))])
  {
    hide WriteRecords, TagBytes, LenPrefixed;
    OneRecordLen(tag, Record(2, LenPrefixed(nested)));
    ghost var start := buf.View();
    Cut(start, TagBytes(tag, 2), LenPrefixed(nested));
    PushTag(buf, tag, 2);
    PushPrefixed(buf, nested);
  }

  method PushPackedBlock(buf: ByteVec, f: Field, v: Val)
    requires buf.Valid() && f.kind.Repeated? && IsPackable(f.kind.inner) && HasKind(f.kind, v)
    requires |PackAll(f.kind.inner, v.items)| < MAX_LEN
    modifies buf, buf.data
    ensures buf.Valid() && (buf.data == old(buf.data) || fresh(buf.data))
    ensures buf.View() == old(buf.View()) + EncodeField(f, v)
  {
    hide PackAll, ScalarTyped;
    if f.kind.inner.Varint? {
      WritePackedVarints(buf, f, v);
      return;
    }
    if v.items == [] {
      assert EncodeField(f, v) == [];
      return;
    }
    ghost var start := buf.View();
    ghost var block := PackAll(f.kind.inner, v.items);
    PackedLenExact(f.kind.inner, v.items);
    PushTag(buf, f.tag, 2);
    PushVarint(buf, PackedLen(f.kind.inner, v.items));
    PushPacked(buf, f.kind.inner, v.items);
    assert start + TagBytes(f.tag, 2) + VarintBytes(|block|) + block == start + TagBytes(f.tag, 2) + LenPrefixed(block);
    PackedFieldBytes(f, v, start);
  }

  /** The statement `gen_encode_field` emits for one field. */
  method EncodeFieldTo(buf: ByteVec, f: Field, v: Val)
    requires buf.Valid() && HasKind(f.kind, v) && |EncodeField(f, v)| < MAX_LEN
    modifies buf, buf.data
    ensures buf.Valid() && (buf.data == old(buf.data) || fresh(buf.data))
    ensures buf.View() == old(buf.View()) + EncodeField(f, v)
    decreases f.kind, 4
  {
    hide ScalarTyped, ScalarPayload, WriteRecords, PackAll;
    EmptyRecords(f.tag);
    if f.kind.Bool? {
      FlagTyped(v);
      if v.on { buf.Extend([8 * f.tag % 256, 1]); }
    } else if IsScalar(f.kind) {
      if !IsOmitted(f.kind, v) { PushOne(buf, f, WireType(f.kind), f.kind, v); }
    } else if f.kind.Optional? {
      if v.Present? && IsScalar(f.kind.inner) { PushOne(buf, f, WireType(f.kind.inner), f.kind.inner, v.inner); }
    } else if f.kind.Repeated? {
      EncodeRepeatedTo(buf, f, v);
    } else if f.kind.RepeatedMessage? {
      PushMessages(buf, f.tag, f.kind.ty, v.items);
    } else if !v.Absent? {
      var inner := if f.kind.Message? then v else v.inner;
      NestedBound(f, v);
      var nested := EncodeToVec(f.kind.ty, inner);
      if nested != [] || f.kind.OptionalMessage? { PushNested(buf, f.tag, nested); }
    }
  }

  lemma {:induction false} FlagTyped(v: Val)
    ensures ScalarTyped(CodecKind.Bool, v) <==> v.Flag?
  {
  }

  lemma {:induction false} EmptyRecords(tag: U32)
    ensures WriteRecords(tag, []) == []
  {
  }

  lemma {:induction false} NestedBound(f: Field, v: Val)
    requires f.kind.Message? || (f.kind.OptionalMessage? && v.Present?)
    requires HasKind(f.kind, v) && |EncodeField(f, v)| < MAX_LEN
    ensures var inner := if f.kind.Message? then v else v.inner;
            HasType(f.kind.ty, inner) && |Encode(f.kind.ty, inner)| < MAX_LEN
  {
    var inner := if f.kind.Message? then v else v.inner;
    OneRecordLen(f.tag, Record(2, LenPrefixed(Encode(f.kind.ty, inner))));
  }

  method EncodeRepeatedTo(buf: ByteVec, f: Field, v: Val)
    requires buf.Valid() && f.kind.Repeated? && HasKind(f.kind, v) && |EncodeField(f, v)| < MAX_LEN
    modifies buf, buf.data
    ensures buf.Valid() && (buf.data == old(buf.data) || fresh(buf.data))
    ensures buf.View() == old(buf.View()) + EncodeField(f, v)
  {
    hide ScalarTyped, ScalarPayload, PackAll;
    if IsPackable(f.kind.inner) {
      PackedBound(f, v);
      PushPackedBlock(buf, f, v);
    } else if IsText(f.kind.inner) {
      PushTexts(buf, f.tag, f.kind.inner, v.items);
    }
  }

  lemma {:induction false} PackedBound(f: Field, v: Val)
    requires f.kind.Repeated? && IsPackable(f.kind.inner) && HasKind(f.kind, v)
    requires |EncodeField(f, v)| < MAX_LEN
    ensures |PackAll(f.kind.inner, v.items)| < MAX_LEN
  {
    if v.items != [] {
      OneRecordLen(f.tag, Record(2, LenPrefixed(PackAll(f.kind.inner, v.items))));
    } else {
      EmptyPack(f.kind.inner);
    }
  }

  method EncodeCaseTo(buf: ByteVec, f: Field, v: Val)
    requires buf.Valid() && IsVariantKind(f.kind) && HasKind(f.kind, v) && |EncodeCase(f, v)| < MAX_LEN
    modifies buf, buf.data
    ensures buf.Valid() && (buf.data == old(buf.data) || fresh(buf.data))
    ensures buf.View() == old(buf.View()) + EncodeCase(f, v)
    decreases f.kind, 4
  {
    hide ScalarTyped, ScalarPayload, EncodeCase, Encode, LenPrefixed, TagBytes;
    ghost var start, tag := buf.View(), TagBytes(f.tag, WireType(f.kind));
    CaseParts(f, v);
    PushTag(buf, f.tag, WireType(f.kind));
    if f.kind.Message? {
      var nested := EncodeToVec(f.kind.ty, v);
      PushPrefixed(buf, nested);
      Cut(start, tag, LenPrefixed(Encode(f.kind.ty, v)));
    } else {
      PushScalar(buf, f.kind, v);
      Cut(start, tag, ScalarPayload(f.kind, v));
    }
  }

  lemma {:induction false} CaseParts(f: Field, v: Val)
    requires IsVariantKind(f.kind) && HasKind(f.kind, v) && |EncodeCase(f, v)| < MAX_LEN
    ensures f.kind.Message? ==>
              && HasType(f.kind.ty, v) && |LenPrefixed(Encode(f.kind.ty, v))| < MAX_LEN && |Encode(f.kind.ty, v)| < MAX_LEN
              && EncodeCase(f, v) == TagBytes(f.tag, WireType(f.kind)) + LenPrefixed(Encode(f.kind.ty, v))
    ensures !f.kind.Message? ==>
              && IsScalar(f.kind) && ScalarTyped(f.kind, v) && |ScalarPayload(f.kind, v)| < MAX_LEN
              && EncodeCase(f, v) == TagBytes(f.tag, WireType(f.kind)) + ScalarPayload(f.kind, v)
  {
    hide Encode, ScalarTyped, ScalarPayload;
  }

  /** The generated `encode_to`: fields in declaration order, appended to whatever the buffer holds. */
  method EncodeTo(buf: ByteVec, ty: MsgTy, v: Val)
    requires buf.Valid() && HasType(ty, v) && |Encode(ty, v)| < MAX_LEN
    modifies buf, buf.data
    ensures buf.Valid() && (buf.data == old(buf.data) || fresh(buf.data))
    ensures buf.View() == old(buf.View()) + Encode(ty, v)
    decreases ty, 1
  {
    match ty
    case Struct(fs) =>
      for i := 0 to |fs|
        invariant buf.Valid() && (buf.data == old(buf.data) || fresh(buf.data))
        invariant |EncodeFrom(fs, v.vals, i)| <= |Encode(ty, v)|
        invariant buf.View() + EncodeFrom(fs, v.vals, i) == old(buf.View()) + Encode(ty, v)
      {
        EncodeFieldTo(buf, fs[i], v.vals[i]);
      }
    case OneOf(vs) => EncodeCaseTo(buf, vs[v.index], v.payload);
    case Enum(tags) => PushVarint(buf, tags[v.index]);
  }

  // ---- typeway_decode ----

  /** What the packed loop still has to read at an absolute offset. */
  function PackedFrom(k: CodecKind, bytes: seq<Byte>, offset: nat, end: nat)
    : (r: Result<Read<seq<Val>>, DecodeError>)
    requires IsScalar(k) && offset <= |bytes|
  {
    ReadPacked(k, bytes[offset..], if offset < end then end - offset else 0)
  }

  /** Items already read, put in front of the rest. */
  function Resume(items: seq<Val>, done: nat, rest: Result<Read<seq<Val>>, DecodeError>)
    : (r: Result<Read<seq<Val>>, DecodeError>)
  {
    if rest.Err? then rest else Ok(Read(items + rest.value.value, done + rest.value.consumed))
  }

  lemma {:induction false} ResumeLaws(items: seq<Val>, v: Val, done: nat, n: nat,
                                      rest: Result<Read<seq<Val>>, DecodeError>)
    ensures Resume([], 0, rest) == rest
    ensures Resume(items, done, Resume([v], n, rest)) == Resume(items + [v], done + n, rest)
    ensures Resume(items, done, Ok(Read([], 0))) == Ok(Read(items, done))
  {
    if rest.Ok? {
      assert [] + rest.value.value == rest.value.value;
      assert items + ([v] + rest.value.value) == items + [v] + rest.value.value;
    }
    assert items + [] == items;
  }

  /** One unfolding of the packed loop at an absolute offset. */
  lemma {:induction false} PackedTurn(k: CodecKind, bytes: seq<Byte>, offset: nat, end: nat, item: Read<Val>)
    requires IsScalar(k) && offset < end <= |bytes| && ReadScalar(k, bytes[offset..]) == Ok(item)
    ensures PackedFrom(k, bytes, offset, end)
         == Resume([item.value], item.consumed, PackedFrom(k, bytes, offset + item.consumed, end))
  {
    hide ReadScalar;
  }

  /** The offset-driven packed loop with its one-byte fast path. */
  method DecodePacked(k: CodecKind, bytes: seq<Byte>, start: nat, end: nat)
    returns (r: Result<Read<seq<Val>>, DecodeError>)
    requires IsPackable(k) && start <= end <= |bytes|
    ensures r == ReadPacked(k, bytes[start..], end - start)
  {
    hide ReadScalar, Resume;
    var offset, items := start, [];
    ResumeLaws([], Absent, 0, 0, PackedFrom(k, bytes, start, end));
    while offset < end
      invariant start <= offset <= |bytes|
      invariant PackedFrom(k, bytes, start, end) == Resume(items, offset - start, PackedFrom(k, bytes, offset, end))
      decreases |bytes| - offset
    {
      var b := bytes[offset];
      var item := ReadPackedItem(k, bytes, offset, b);
      if item.Err? {
        PackedStop(k, bytes, offset, end, item.error, items, offset - start);
        return Err(item.error);
      }
      PackedTurn(k, bytes, offset, end, item.value);
      ResumeLaws(items, item.value.value, offset - start, item.value.consumed,
                 PackedFrom(k, bytes, offset + item.value.consumed, end));
      items := items + [item.value.value];
      offset := offset + item.value.consumed;
    }
    ResumeLaws(items, Absent, offset - start, 0, Err(UnexpectedEof));
    r := Ok(Read(items, offset - start));
  }

  lemma {:induction false} PackedStop(k: CodecKind, bytes: seq<Byte>, offset: nat, end: nat, e: DecodeError,
                                      items: seq<Val>, done: nat)
    requires IsScalar(k) && offset < end <= |bytes| && ReadScalar(k, bytes[offset..]) == Err(e)
    ensures Resume(items, done, PackedFrom(k, bytes, offset, end)) == Err(e)
  {
    hide ReadScalar;
  }

  /** One packed item: a byte below 0x80 is the value itself for varints and bools. */
  method ReadPackedItem(k: CodecKind, bytes: seq<Byte>, offset: nat, b: Byte)
    returns (r: Result<Read<Val>, DecodeError>)
    requires IsPackable(k) && offset < |bytes| && b == bytes[offset]
    ensures r == ReadScalar(k, bytes[offset..])
  {
    if (k.Varint? || k.Bool?) && b < 0x80 {
      r := Ok(Read(if k.Bool? then Flag(b != 0) else Int(FromWire(k.width, b)), 1));
    } else {
      r := ReadScalar(k, bytes[offset..]);
    }
  }

  /** A length prefix and the slice it delimits, checked against the end of input. */
  method DecodeSlice(bytes: seq<Byte>, offset: nat) returns (r: Result<Read<seq<Byte>>, DecodeError>)
    requires offset <= |bytes|
    ensures r == ReadLen(bytes[offset..])
  {
    var h := TwDecodeVarint(bytes[offset..]);
    if h.Err? { return Err(h.error); }
    var at, len: nat := offset + h.value.consumed, h.value.value;
    if at + len > |bytes| { return Err(UnexpectedEof); }
    assert bytes[offset..][h.value.consumed..h.value.consumed + len] == bytes[at..at + len];
    r := Ok(Read(bytes[at..at + len], h.value.consumed + len));
  }

  /** The arm generated for one field, at an absolute offset. */
  method RunArm(k: CodecKind, wt: WireTy, bytes: seq<Byte>, offset: nat, cur: Val)
    returns (r: Result<Read<Val>, DecodeError>)
    requires DerivableKind(k) && offset <= |bytes|
    ensures r == DecodeArm(k, wt, bytes[offset..], cur)
    decreases k, 1
  {
    hide ReadScalar, RepeatedArm, SkipWireValue, ReadLen;
    if IsScalar(k) {
      r := ReadScalar(k, bytes[offset..]);
    } else if k.Repeated? {
      r := RunRepeatedArm(k.inner, wt, bytes, offset, if cur.List? then cur.items else []);
    } else if k.Optional? {
      if HasArm(k.inner) {
        var x := ReadScalar(k.inner, bytes[offset..]);
        if x.Err? { return Err(x.error); }
        r := Ok(Read(Present(x.value.value), x.value.consumed));
      } else {
        var n := SkipWireValue(bytes[offset..], wt);
        if n.Err? { return Err(n.error); }
        r := Ok(Read(cur, n.value));
      }
    } else {
      var slice := DecodeSlice(bytes, offset);
      if slice.Err? { return Err(slice.error); }
      var v := TypewayDecode(k.ty, slice.value.value);
      if v.Err? { return Err(v.error); }
      var next := if k.Message? then v.value
                  else if k.OptionalMessage? then Present(v.value)
                  else List((if cur.List? then cur.items else []) + [v.value]);
      r := Ok(Read(next, slice.value.consumed));
    }
  }

  method RunRepeatedArm(inner: CodecKind, wt: WireTy, bytes: seq<Byte>, offset: nat, items: seq<Val>)
    returns (r: Result<Read<Val>, DecodeError>)
    requires offset <= |bytes|
    ensures r == RepeatedArm(inner, wt, bytes[offset..], items)
  {
    hide ReadScalar, SkipWireValue, ReadPacked;
    if IsPackable(inner) && wt == 2 {
      var h := TwDecodeVarint(bytes[offset..]);
      if h.Err? { return Err(h.error); }
      var at, len: nat := offset + h.value.consumed, h.value.value;
      if at + len > |bytes| { return Err(UnexpectedEof); }
      var block := DecodePacked(inner, bytes, at, at + len);
      if block.Err? { return Err(block.error); }
      r := Ok(Read(List(items + block.value.value), h.value.consumed + block.value.consumed));
    } else {
      r := RepeatedArm(inner, wt, bytes[offset..], items);
    }
  }

  /** The generated `typeway_decode`: an offset walks the input, field variables are overwritten as records arrive. */
  method TypewayDecode(ty: MsgTy, bytes: seq<Byte>) returns (r: Result<Val, DecodeError>)
    requires Derivable(ty)
    ensures r == Decode(ty, bytes)
    decreases ty, 3
  {
    match ty
    case Struct(fs) =>
      var vals := DecodeStruct(fs, bytes);
      r := if vals.Err? then Err(vals.error) else Ok(Rec(vals.value));
    case OneOf(vs) => r := DecodeOneOf(vs, bytes);
    case Enum(tags) =>
      if bytes == [] { return Ok(Unit(0)); }
      var t := TwDecodeVarint(bytes);
      if t.Err? { return Err(t.error); }
      var i := FindVariant(tags, WrapU32(t.value.value));
      r := Ok(Unit(if i < |tags| then i else 0));
  }

  method DecodeStruct(fs: seq<Field>, bytes: seq<Byte>) returns (r: Result<seq<Val>, DecodeError>)
    requires forall i :: 0 <= i < |fs| ==> DerivableKind(fs[i].kind)
    ensures r == DecodeFields(fs, bytes, Zeros(fs))
    decreases fs, 2
  {
    hide DecodeArm, SkipWireValue, ReadVarint, DerivableKind;
    var acc, offset := Zeros(fs), 0;
    assert bytes[0..] == bytes;
    while offset < |bytes|
      invariant offset <= |bytes| && |acc| == |fs|
      invariant DecodeFields(fs, bytes, Zeros(fs)) == DecodeFields(fs, bytes[offset..], acc)
      decreases |bytes| - offset
    {
      var step := DecodeStep(fs, bytes, offset, acc);
      if step.Err? { return Err(step.error); }
      acc := step.value.value;
      offset := offset + step.value.consumed;
    }
    r := Ok(acc);
  }

  /** One turn of the struct loop: tag, then the matching arm or a skip. */
  method DecodeStep(fs: seq<Field>, bytes: seq<Byte>, offset: nat, acc: seq<Val>)
    returns (r: Result<Read<seq<Val>>, DecodeError>)
    requires |acc| == |fs| && offset < |bytes| && forall i :: 0 <= i < |fs| ==> DerivableKind(fs[i].kind)
    ensures r == DecodeOne(fs, bytes[offset..], acc)
    decreases fs, 1
  {
    hide DecodeArm, SkipWireValue, ReadVarint, DerivableKind;
    var t := TwDecodeVarint(bytes[offset..]);
    if t.Err? { return Err(t.error); }
    var at, wt: WireTy := offset + t.value.consumed, t.value.value % 8;
    var i := FindTag(fs, FieldNumber(t.value.value));
    if i < |fs| {
      var x := RunArm(fs[i].kind, wt, bytes, at, acc[i]);
      if x.Err? { return Err(x.error); }
      r := Ok(Read(acc[i := x.value.value], t.value.consumed + x.value.consumed));
    } else {
      var n := SkipWireValue(bytes[at..], wt);
      if n.Err? { return Err(n.error); }
      r := Ok(Read(acc, t.value.consumed + n.value));
    }
  }

  method DecodeOneOf(vs: seq<Field>, bytes: seq<Byte>) returns (r: Result<Val, DecodeError>)
    requires Derivable(OneOf(vs))
    ensures r == Decode(OneOf(vs), bytes)
    decreases vs, 2
  {
    hide DecodeOneCase;
    var cur, offset := Default(OneOf(vs)), 0;
    assert bytes[0..] == bytes;
    while offset < |bytes|
      invariant offset <= |bytes|
      invariant DecodeCases(vs, bytes, Default(OneOf(vs))) == DecodeCases(vs, bytes[offset..], cur)
      decreases |bytes| - offset
    {
      var step := CaseStep(vs, bytes, offset, cur);
      if step.Err? { return Err(step.error); }
      cur := step.value.value;
      offset := offset + step.value.consumed;
    }
    r := Ok(cur);
  }

  /** One turn of the oneof loop. */
  method CaseStep(vs: seq<Field>, bytes: seq<Byte>, offset: nat, cur: Val)
    returns (r: Result<Read<Val>, DecodeError>)
    requires Derivable(OneOf(vs)) && offset < |bytes|
    ensures r == DecodeOneCase(vs, bytes[offset..], cur)
    decreases vs, 1
  {
    hide DecodeArm, SkipWireValue, ReadVarint, DerivableKind;
    var t := TwDecodeVarint(bytes[offset..]);
    if t.Err? { return Err(t.error); }
    var at, wt: WireTy := offset + t.value.consumed, t.value.value % 8;
    var i := FindTag(vs, FieldNumber(t.value.value));
    if i < |vs| {
      var x := RunArm(vs[i].kind, wt, bytes, at, cur);
      if x.Err? { return Err(x.error); }
      r := Ok(Read(Case(i, x.value.value), t.value.consumed + x.value.consumed));
    } else {
      var n := SkipWireValue(bytes[at..], wt);
      if n.Err? { return Err(n.error); }
      r := Ok(Read(cur, t.value.consumed + n.value));
    }
  }
}
