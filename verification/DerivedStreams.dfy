/** The generated struct decoder on any bytes. */
module DerivedStreams {
  // Source: typeway-macros/src/lib.rs

  import opened Bytes
  import opened Varint
  import opened Wire
  import opened DerivedCodec
  import opened DerivedRoundTrip

  // ---- appended bytes never change what is read ----

  lemma {:induction false} ScalarExtends(k: CodecKind, a: seq<Byte>, b: seq<Byte>)
    requires IsScalar(k) && ReadScalar(k, a).Ok?
    ensures ReadScalar(k, a + b) == ReadScalar(k, a)
  {
    hide ReadVarint, ReadLen, ReadFixed;
    match k
    case Varint(_) => ReadVarintExtends(a, b);
    case Bool => ReadVarintExtends(a, b);
    case Fixed32 => ReadFixedExtends(a, b, 4);
    case Fixed64 => ReadFixedExtends(a, b, 8);
    case _ => ReadLenExtends(a, b);
  }

  lemma {:induction false} PackedUnfold(k: CodecKind, bs: seq<Byte>, n: nat)
    requires IsScalar(k)
    ensures ReadPacked(k, bs, n) ==
            if n == 0 then Ok(Read([], 0))
            else match ReadScalar(k, bs)
                 case Err(e) => Err(e)
                 case Ok(item) =>
                   match ReadPacked(k, bs[item.consumed..], if item.consumed < n then n - item.consumed else 0)
                   case Err(e) => Err(e)
                   case Ok(rest) => Ok(Read([item.value] + rest.value, item.consumed + rest.consumed))
  {
    hide ReadScalar;
  }

  lemma {:induction false} PackedExtends(k: CodecKind, a: seq<Byte>, b: seq<Byte>, n: nat)
    requires IsScalar(k) && ReadPacked(k, a, n).Ok?
    ensures ReadPacked(k, a + b, n) == ReadPacked(k, a, n)
    decreases n
  {
    hide ReadScalar, ReadPacked;
    PackedUnfold(k, a, n);
    PackedUnfold(k, a + b, n);
    if n > 0 {
      var item := ReadScalar(k, a).value;
      ScalarExtends(k, a, b);
      assert (a + b)[item.consumed..] == a[item.consumed..] + b;
      PackedExtends(k, a[item.consumed..], b, if item.consumed < n then n - item.consumed else 0);
    }
  }

  lemma {:induction false} BlockExtends(k: CodecKind, a: seq<Byte>, b: seq<Byte>)
    requires IsScalar(k) && ReadPackedBlock(k, a).Ok?
    ensures ReadPackedBlock(k, a + b) == ReadPackedBlock(k, a)
  {
    hide ReadPacked, ReadVarint;
    ReadVarintExtends(a, b);
    var h := ReadVarint(a).value;
    assert (a + b)[h.consumed..] == a[h.consumed..] + b;
    PackedExtends(k, a[h.consumed..], b, h.value);
  }

  lemma {:induction false} SkipExtends(a: seq<Byte>, b: seq<Byte>, wt: WireTy)
    requires SkipWireValue(a, wt).Ok?
    ensures SkipWireValue(a + b, wt) == SkipWireValue(a, wt)
  {
    hide SkipWireValue, ReadWireValue;
    SkipMatchesRead(a, wt);
    SkipMatchesRead(a + b, wt);
    ReadWireValueExtends(a, b, wt);
  }

  lemma {:induction false} RepeatedExtends(inner: CodecKind, wt: WireTy, a: seq<Byte>, b: seq<Byte>, items: seq<Val>)
    requires RepeatedArm(inner, wt, a, items).Ok?
    ensures RepeatedArm(inner, wt, a + b, items) == RepeatedArm(inner, wt, a, items)
  {
    hide ReadPackedBlock, ReadScalar, SkipWireValue, ReadVarint;
    if IsPackable(inner) && wt == 2 { BlockExtends(inner, a, b); }
    else if IsPackable(inner) || IsText(inner) { if !(inner.Fixed32? || inner.Fixed64?) { ScalarExtends(inner, a, b); } }
    else { SkipExtends(a, b, wt); }
  }

  lemma {:induction false} ArmExtends(k: CodecKind, wt: WireTy, a: seq<Byte>, b: seq<Byte>, cur: Val)
    requires DerivableKind(k) && DecodeArm(k, wt, a, cur).Ok?
    ensures DecodeArm(k, wt, a + b, cur) == DecodeArm(k, wt, a, cur)
  {
    hide RepeatedArm, ReadScalar, SkipWireValue, ReadLen, Decode;
    if IsScalar(k) { ScalarExtends(k, a, b); }
    else {
      match k
      case Message(_) => ReadLenExtends(a, b);
      case OptionalMessage(_) => ReadLenExtends(a, b);
      case RepeatedMessage(_) => ReadLenExtends(a, b);
      case Optional(inner) => if HasArm(inner) { ScalarExtends(inner, a, b); } else { SkipExtends(a, b, wt); }
      case Repeated(inner) => RepeatedExtends(inner, wt, a, b, if cur.List? then cur.items else []);
    }
  }

  lemma {:induction false} OneExtends(fs: seq<Field>, a: seq<Byte>, b: seq<Byte>, acc: seq<Val>)
    requires Decodable(fs, acc) && DecodeOne(fs, a, acc).Ok?
    ensures DecodeOne(fs, a + b, acc) == DecodeOne(fs, a, acc)
  {
    hide DecodeArm, ReadVarint, SkipWireValue, DerivableKind;
    ReadVarintExtends(a, b);
    var t := ReadVarint(a).value;
    assert (a + b)[t.consumed..] == a[t.consumed..] + b;
    var i := FindTag(fs, FieldNumber(t.value));
    if i < |fs| { ArmExtends(fs[i].kind, t.value % 8, a[t.consumed..], b, acc[i]); }
    else { SkipExtends(a[t.consumed..], b, t.value % 8); }
  }

  /** Decoding a concatenation goes on from where the first part ended. */
  lemma {:induction false} DecodeConcat(fs: seq<Field>, a: seq<Byte>, b: seq<Byte>, acc: seq<Val>)
    requires Decodable(fs, acc) && DecodeFields(fs, a, acc).Ok?
    ensures DecodeFields(fs, a + b, acc) == DecodeFields(fs, b, DecodeFields(fs, a, acc).value)
    decreases |a|
  {
    hide DecodeOne, DerivableKind;
    if a == [] {
      assert a + b == b;
    } else {
      var step := DecodeOne(fs, a, acc).value;
      OneExtends(fs, a, b, acc);
      assert (a + b)[step.consumed..] == a[step.consumed..] + b;
      DecodeConcat(fs, a[step.consumed..], b, step.value);
    }
  }

  // ---- repeated fields append, singular ones are replaced ----

  predicate IsList(k: CodecKind) { k.Repeated? || k.RepeatedMessage? }

  /** Two states of the loop: `x` with more in front of its lists, or with other singular values not yet replaced. */
  predicate Ahead(fs: seq<Field>, front: seq<Val>, x: seq<Val>, y: seq<Val>) {
    && ListsIn(fs, front) && ListsIn(fs, x) && ListsIn(fs, y)
    && forall i :: 0 <= i < |fs| ==>
         if IsList(fs[i].kind) then x[i] == List(front[i].items + y[i].items)
         else x[i] == y[i] || (x[i] == front[i] && DerivableKind(fs[i].kind) && y[i] == Zero(fs[i].kind))
  }

  /** An arm of a list appends to whatever is there. */
  lemma {:induction false} ArmOnLists(k: CodecKind, wt: WireTy, bs: seq<Byte>, front: seq<Val>, items: seq<Val>)
    requires DerivableKind(k) && IsList(k)
    ensures var r := DecodeArm(k, wt, bs, List(items));
            && (r.Ok? ==> r.value.value.List?)
            && DecodeArm(k, wt, bs, List(front + items))
            == if r.Ok? then Ok(Read(List(front + r.value.value.items), r.value.consumed)) else Err(r.error)
  {
    hide ReadScalar, SkipWireValue, ReadLen, Decode, ReadPackedBlock, ReadVarint;
    if k.Repeated? {
      RepeatedOnLists(k.inner, wt, bs, front, items);
    } else {
      var n := ReadLen(bs);
      if n.Ok? && Decode(k.ty, n.value.value).Ok? { Cut(front, items, [Decode(k.ty, n.value.value).value]); }
    }
  }

  lemma {:induction false} RepeatedOnLists(inner: CodecKind, wt: WireTy, bs: seq<Byte>, front: seq<Val>, items: seq<Val>)
    ensures var r := RepeatedArm(inner, wt, bs, items);
            && (r.Ok? ==> r.value.value.List?)
            && RepeatedArm(inner, wt, bs, front + items)
            == if r.Ok? then Ok(Read(List(front + r.value.value.items), r.value.consumed)) else Err(r.error)
  {
    hide ReadScalar, SkipWireValue, ReadPackedBlock, ReadVarint;
    if IsPackable(inner) && wt == 2 {
      var block := ReadPackedBlock(inner, bs);
      if block.Ok? { Cut(front, items, block.value.value); }
    } else if HasArm(inner) {
      var item := ReadScalar(inner, bs);
      if item.Ok? { Cut(front, items, [item.value.value]); }
    }
  }

  /** Every other arm replaces what is there, or leaves it alone. */
  lemma {:induction false} ArmOnOthers(k: CodecKind, wt: WireTy, bs: seq<Byte>, x: Val, y: Val)
    requires DerivableKind(k) && !IsList(k)
    ensures var a, b := DecodeArm(k, wt, bs, x), DecodeArm(k, wt, bs, y);
            && (a.Err? ==> b == a) && (a.Ok? ==> b.Ok? && b.value.consumed == a.value.consumed)
            && (a.Ok? ==> a.value.value == b.value.value || (a.value.value == x && b.value.value == y))
  {
    hide ReadScalar, SkipWireValue, ReadLen, Decode;
  }

  lemma {:induction false} OneAhead(fs: seq<Field>, front: seq<Val>, bs: seq<Byte>, x: seq<Val>, y: seq<Val>)
    requires Decodable(fs, x) && Decodable(fs, y) && Ahead(fs, front, x, y)
    ensures var a, b := DecodeOne(fs, bs, x), DecodeOne(fs, bs, y);
            && (b.Err? ==> a == Err(b.error))
            && (b.Ok? ==> a.Ok? && a.value.consumed == b.value.consumed && Ahead(fs, front, a.value.value, b.value.value))
  {
    hide DecodeArm, SkipWireValue, ReadVarint, Zero, DerivableKind;
    var t := ReadVarint(bs);
    if t.Ok? {
      var i, body := FindTag(fs, FieldNumber(t.value.value)), bs[t.value.consumed..];
      if i < |fs| {
        if IsList(fs[i].kind) { ArmOnLists(fs[i].kind, t.value.value % 8, body, front[i].items, y[i].items); }
        else { ArmOnOthers(fs[i].kind, t.value.value % 8, body, x[i], y[i]); }
      }
    }
  }

  lemma {:induction false} LoopAhead(fs: seq<Field>, front: seq<Val>, bs: seq<Byte>, x: seq<Val>, y: seq<Val>)
    requires Decodable(fs, x) && Decodable(fs, y) && Ahead(fs, front, x, y)
    ensures var a, b := DecodeFields(fs, bs, x), DecodeFields(fs, bs, y);
            && (b.Err? ==> a == b) && (b.Ok? ==> a.Ok? && Ahead(fs, front, a.value, b.value))
    decreases |bs|
  {
    hide DecodeOne, Ahead, DerivableKind;
    if bs != [] {
      OneAhead(fs, front, bs, x, y);
      var b := DecodeOne(fs, bs, y);
      if b.Ok? { LoopAhead(fs, front, bs[b.value.consumed..], DecodeOne(fs, bs, x).value.value, b.value.value); }
    }
  }

  lemma {:induction false} AheadOfZeros(fs: seq<Field>, front: seq<Val>)
    requires ListsIn(fs, front) && forall i :: 0 <= i < |fs| ==> DerivableKind(fs[i].kind)
    ensures Ahead(fs, front, front, Zeros(fs))
  {
    hide DerivableKind;
    forall i | 0 <= i < |fs| && IsList(fs[i].kind) ensures front[i] == List(front[i].items + []) {
      assert front[i].items + [] == front[i].items;
    }
  }

  /**
    If two byte strings decode, so does their concatenation: repeated fields hold the items of the first and then
    of the second, whether packed, one by one or mixed, and a singular field holds what the second gives it, or
    is as the first left it where the second says nothing.
  */
  lemma {:induction false} ConcatMerges(fs: seq<Field>, a: seq<Byte>, b: seq<Byte>)
    requires Derivable(Struct(fs))
    requires DecodeFields(fs, a, Zeros(fs)).Ok? && DecodeFields(fs, b, Zeros(fs)).Ok?
    ensures var x, y, z := DecodeFields(fs, a, Zeros(fs)).value, DecodeFields(fs, b, Zeros(fs)).value, DecodeFields(fs, a + b, Zeros(fs));
            && z.Ok? && ListsIn(fs, x) && ListsIn(fs, y)
            && forall i :: 0 <= i < |fs| ==>
                 if IsList(fs[i].kind) then z.value[i] == List(x[i].items + y[i].items)
                 else z.value[i] == y[i] || (z.value[i] == x[i] && y[i] == Zero(fs[i].kind))
  {
    hide DecodeFields, Zero, DerivableKind;
    var zeros, x := Zeros(fs), DecodeFields(fs, a, Zeros(fs)).value;
    ZerosListed(fs);
    AheadOfZeros(fs, zeros);
    LoopAhead(fs, zeros, a, zeros, zeros);
    AheadOfZeros(fs, x);
    LoopAhead(fs, x, b, x, zeros);
    DecodeConcat(fs, a, b, zeros);
  }

  // ---- packed blocks and single items, mixed ----

  /** A stretch of a repeated field: a packed block, or one item in a record of its own. */
  datatype Stretch = Block(items: seq<Val>) | Single(item: Val)

  predicate StretchTyped(k: CodecKind, s: Stretch)
    requires IsScalar(k)
  {
    match s
    case Block(items) => IsPackable(k) && AllTyped(k, items)
    case Single(item) => (k.Varint? || k.Bool? || IsText(k)) && ScalarTyped(k, item)
  }

  function StretchBytes(tag: U32, k: CodecKind, s: Stretch): (bs: seq<Byte>)
    requires IsScalar(k) && StretchTyped(k, s)
  {
    match s
    case Block(items) => TagBytes(tag, 2) + LenPrefixed(PackAll(k, items))
    case Single(item) => TagBytes(tag, if IsText(k) then 2 else 0) + ScalarPayload(k, item)
  }

  function StretchesBytes(tag: U32, k: CodecKind, ss: seq<Stretch>): (bs: seq<Byte>)
    requires IsScalar(k) && forall j :: 0 <= j < |ss| ==> StretchTyped(k, ss[j])
  {
    if ss == [] then [] else StretchBytes(tag, k, ss[0]) + StretchesBytes(tag, k, ss[1..])
  }

  function AllItems(ss: seq<Stretch>): (items: seq<Val>) {
    if ss == [] then [] else (match ss[0] case Block(items) => items case Single(item) => [item]) + AllItems(ss[1..])
  }

  lemma {:induction false} StretchReads(fs: seq<Field>, i: nat, done: seq<Val>, s: Stretch, rest: seq<Byte>, acc: seq<Val>)
    requires Decodable(fs, acc) && i < |fs| && fs[i].kind.Repeated? && IsScalar(fs[i].kind.inner) && acc[i] == List(done)
    requires StretchTyped(fs[i].kind.inner, s) && |StretchBytes(fs[i].tag, fs[i].kind.inner, s)| < MAX_LEN
    ensures DecodeFields(fs, StretchBytes(fs[i].tag, fs[i].kind.inner, s) + rest, acc)
         == DecodeFields(fs, rest, acc[i := List(done + match s case Block(items) => items case Single(item) => [item])])
  {
    hide DecodeFields, PackAll, ScalarPayload, ScalarTyped, ReadScalar, ReadPackedBlock;
    var k := fs[i].kind.inner;
    match s
    case Block(items) =>
      PackedArm(k, done, items, rest);
      RecordStep(fs, i, Record(2, LenPrefixed(PackAll(k, items))), rest, acc, List(done + items));
    case Single(item) =>
      ScalarInverts(k, item, rest);
      RecordStep(fs, i, Record(if IsText(k) then 2 else 0, ScalarPayload(k, item)), rest, acc, List(done + [item]));
  }

  /** Records of one repeated field, packed, one by one or mixed, give exactly their items in order. */
  lemma {:induction false} MixedReads(fs: seq<Field>, i: nat, done: seq<Val>, ss: seq<Stretch>, rest: seq<Byte>, acc: seq<Val>)
    requires Decodable(fs, acc) && i < |fs| && fs[i].kind.Repeated? && IsScalar(fs[i].kind.inner) && acc[i] == List(done)
    requires forall j :: 0 <= j < |ss| ==> StretchTyped(fs[i].kind.inner, ss[j])
    requires |StretchesBytes(fs[i].tag, fs[i].kind.inner, ss)| < MAX_LEN
    ensures DecodeFields(fs, StretchesBytes(fs[i].tag, fs[i].kind.inner, ss) + rest, acc)
         == DecodeFields(fs, rest, acc[i := List(done + AllItems(ss))])
    decreases |ss|
  {
    hide DecodeFields, StretchBytes, StretchTyped;
    var k, tag := fs[i].kind.inner, fs[i].tag;
    if ss == [] {
      assert [] + rest == rest && done + [] == done && acc[i := acc[i]] == acc;
    } else {
      var head, tail := StretchBytes(tag, k, ss[0]), StretchesBytes(tag, k, ss[1..]);
      var items := match ss[0] case Block(items) => items case Single(item) => [item];
      Cut(head, tail, rest);
      StretchReads(fs, i, done, ss[0], tail + rest, acc);
      MixedReads(fs, i, done + items, ss[1..], rest, acc[i := List(done + items)]);
      Cut(done, items, AllItems(ss[1..]));
      UpdateTwice(acc, i, List(done + items), List(done + AllItems(ss)));
    }
  }

  // ---- fields the struct does not have ----

  ghost predicate WholeValue(wt: WireTy, payload: seq<Byte>) {
    || (wt == 0 && exists u: U64 :: payload == VarintBytes(u))
    || (wt == 1 && |payload| == 8)
    || (wt == 2 && exists data: seq<Byte> :: |LenPrefixed(data)| < MAX_LEN && payload == LenPrefixed(data))
    || (wt == 5 && |payload| == 4)
  }

  lemma {:induction false} WholeSkipped(wt: WireTy, payload: seq<Byte>, rest: seq<Byte>)
    requires WholeValue(wt, payload)
    ensures SkipWireValue(payload + rest, wt) == Ok(|payload|)
  {
    hide ReadVarint;
    if wt == 0 {
      var u: U64 :| payload == VarintBytes(u);
      ReadVarintInverts(u, rest);
    } else if wt == 2 {
      var data: seq<Byte> :| |LenPrefixed(data)| < MAX_LEN && payload == LenPrefixed(data);
      SkipBytes(data, rest);
    }
  }

  /** A record of a field the struct does not have is passed over, wherever it stands and whatever it holds. */
  lemma {:induction false} UnknownSkipped(fs: seq<Field>, tag: U32, wt: WireTy, payload: seq<Byte>, rest: seq<Byte>, acc: seq<Val>)
    requires Decodable(fs, acc) && WholeValue(wt, payload)
    requires forall i :: 0 <= i < |fs| ==> fs[i].tag != tag
    ensures DecodeFields(fs, TagBytes(tag, wt) + payload + rest, acc) == DecodeFields(fs, rest, acc)
  {
    hide SkipWireValue, ReadVarint, TagBytes, WholeValue, DerivableKind;
    var t := TagBytes(tag, wt);
    Cut(t, payload, rest);
    ReadTagInverts(tag, wt, payload + rest);
    WholeSkipped(wt, payload, rest);
    var bs := t + payload + rest;
    assert bs[|t|..] == payload + rest;
    assert FindTag(fs, tag) == |fs|;
    assert DecodeOne(fs, bs, acc) == Ok(Read(acc, |t| + |payload|));
    assert bs[|t| + |payload|..] == rest;
  }

  // ---- oneofs: the last recognised variant wins ----

  predicate Variants(vs: seq<Field>) { forall i :: 0 <= i < |vs| ==> IsVariantKind(vs[i].kind) && DerivableKind(vs[i].kind) }

  /** One record, whatever variant was there before: its own variant, or nothing changes. */
  lemma {:induction false} OneCase(vs: seq<Field>, bs: seq<Byte>, x: Val, y: Val)
    requires Variants(vs)
    ensures var r, s := DecodeOneCase(vs, bs, x), DecodeOneCase(vs, bs, y);
            && (r.Err? ==> s == r)
            && (r.Ok? ==> s.Ok? && s.value.consumed == r.value.consumed)
            && (r.Ok? ==> r.value.value == s.value.value || (r.value.value == x && s.value.value == y))
  {
    hide DecodeArm, ReadVarint, SkipWireValue, DerivableKind;
    var t := ReadVarint(bs);
    if t.Ok? {
      var i := FindTag(vs, FieldNumber(t.value.value));
      if i < |vs| { VariantArm(vs[i].kind, t.value.value % 8, bs[t.value.consumed..], x, y); }
    }
  }

  lemma {:induction false} CaseExtends(vs: seq<Field>, a: seq<Byte>, b: seq<Byte>, cur: Val)
    requires Variants(vs) && DecodeOneCase(vs, a, cur).Ok?
    ensures DecodeOneCase(vs, a + b, cur) == DecodeOneCase(vs, a, cur)
  {
    hide DecodeArm, ReadVarint, SkipWireValue, DerivableKind;
    ReadVarintExtends(a, b);
    var t := ReadVarint(a).value;
    assert (a + b)[t.consumed..] == a[t.consumed..] + b;
    var i := FindTag(vs, FieldNumber(t.value));
    if i < |vs| { ArmExtends(vs[i].kind, t.value % 8, a[t.consumed..], b, cur); }
    else { SkipExtends(a[t.consumed..], b, t.value % 8); }
  }

  lemma {:induction false} VariantArm(k: CodecKind, wt: WireTy, bs: seq<Byte>, x: Val, y: Val)
    requires IsVariantKind(k) && DerivableKind(k)
    ensures DecodeArm(k, wt, bs, x) == DecodeArm(k, wt, bs, y)
  {
    hide ReadScalar, ReadLen, Decode;
  }

  lemma {:induction false} CasesAlike(vs: seq<Field>, bs: seq<Byte>, x: Val, y: Val)
    requires Variants(vs)
    ensures var r, s := DecodeCases(vs, bs, x), DecodeCases(vs, bs, y);
            && (r.Err? ==> s == r) && (r.Ok? ==> s.Ok? && (r.value == s.value || (r.value == x && s.value == y)))
    decreases |bs|
  {
    hide DecodeOneCase;
    if bs != [] {
      OneCase(vs, bs, x, y);
      var r, s := DecodeOneCase(vs, bs, x), DecodeOneCase(vs, bs, y);
      if r.Ok? { CasesAlike(vs, bs[r.value.consumed..], r.value.value, s.value.value); }
    }
  }

  lemma {:induction false} CasesConcat(vs: seq<Field>, a: seq<Byte>, b: seq<Byte>, cur: Val)
    requires Variants(vs) && DecodeCases(vs, a, cur).Ok?
    ensures DecodeCases(vs, a + b, cur) == DecodeCases(vs, b, DecodeCases(vs, a, cur).value)
    decreases |a|
  {
    hide DecodeOneCase;
    if a == [] {
      assert a + b == b;
    } else {
      var step := DecodeOneCase(vs, a, cur).value;
      CaseExtends(vs, a, b, cur);
      assert (a + b)[step.consumed..] == a[step.consumed..] + b;
      CasesConcat(vs, a[step.consumed..], b, step.value);
    }
  }

  /** Of two decodable strings the second decides; if it comes to the default alone, the first may stand. */
  lemma {:induction false} CasesMerge(vs: seq<Field>, a: seq<Byte>, b: seq<Byte>)
    requires Derivable(OneOf(vs)) && Decode(OneOf(vs), a).Ok? && Decode(OneOf(vs), b).Ok?
    ensures var x, y, z := Decode(OneOf(vs), a).value, Decode(OneOf(vs), b).value, Decode(OneOf(vs), a + b);
            z.Ok? && (z.value == y || (z.value == x && y == Default(OneOf(vs))))
  {
    hide DecodeCases, Default, DerivableKind;
    var d := Default(OneOf(vs));
    CasesConcat(vs, a, b, d);
    CasesAlike(vs, b, DecodeCases(vs, a, d).value, d);
  }

  /** A written variant wins over whatever comes before it. */
  lemma {:induction false} LastVariantWins(vs: seq<Field>, a: seq<Byte>, i: nat, v: Val)
    requires Derivable(OneOf(vs)) && Decode(OneOf(vs), a).Ok?
    requires i < |vs| && IsFirstTag(vs, i) && IsScalar(vs[i].kind) && ScalarTyped(vs[i].kind, v)
    requires |ScalarPayload(vs[i].kind, v)| < MAX_LEN
    ensures Decode(OneOf(vs), a + (TagBytes(vs[i].tag, WireType(vs[i].kind)) + ScalarPayload(vs[i].kind, v))) == Ok(Case(i, v))
  {
    hide DecodeCases, Default, DerivableKind, ScalarPayload, ScalarTyped, ReadScalar;
    var d, payload := Default(OneOf(vs)), ScalarPayload(vs[i].kind, v);
    var x := DecodeCases(vs, a, d).value;
    assert payload + [] == payload;
    ScalarInverts(vs[i].kind, v, []);
    CasesConcat(vs, a, TagBytes(vs[i].tag, WireType(vs[i].kind)) + payload, d);
    CaseStep(vs, i, payload, x, v);
  }

  // ---- enums ----

  /** Any number, cut to 32 bits: the first variant with that tag, or the first variant of all. */
  lemma {:induction false} EnumNumbers(tags: seq<U32>, u: U64, rest: seq<Byte>, i: nat)
    requires Derivable(Enum(tags)) && i <= |tags| && forall j :: 0 <= j < i ==> tags[j] != u % 0x1_0000_0000
    ensures i < |tags| && tags[i] == u % 0x1_0000_0000 ==> Decode(Enum(tags), VarintBytes(u) + rest) == Ok(Unit(i))
    ensures i == |tags| ==> Decode(Enum(tags), VarintBytes(u) + rest) == Ok(Unit(0))
  {
    hide ReadVarint;
    ReadVarintInverts(u, rest);
    assert FindVariant(tags, u % 0x1_0000_0000) >= i;
  }
}
