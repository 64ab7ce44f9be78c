/** Both decoders on bytes that neither encoder writes. */
module ForeignBytes {
  // Source: typeway-macros/src/lib.rs, typeway-grpc/src/proto_codec.rs

  import opened Bytes
  import opened Varint
  import opened Wire
  import opened TextCodecs
  import D = DerivedCodec
  import R = DerivedRoundTrip
  import T = RuntimeCodec
  import L = RuntimeLaws

  // ---- the generated decoder ----

  /** The integer of the field's width that a varint stands for. */
  predicate IntMeans(w: D.IntTy, u: U64, n: int) {
    match w
    case U32Ty => 0 <= n < 0x1_0000_0000 && (u - n) % 0x1_0000_0000 == 0
    case U64Ty => n == u
    case I32Ty => -0x8000_0000 <= n < 0x8000_0000 && (u - n) % 0x1_0000_0000 == 0
    case I64Ty => -0x8000_0000_0000_0000 <= n < 0x8000_0000_0000_0000 && (u - n) % 0x1_0000_0000_0000_0000 == 0
  }

  predicate VarintMeans(k: D.CodecKind, u: U64, v: D.Val) {
    match k
    case Varint(w) => v.Int? && IntMeans(w, u, v.n)
    case Bool => v == D.Flag(u > 0)
    case _ => false
  }

  lemma {:induction false} Narrow32(u: int)
    ensures (u - WrapU32(u)) % 0x1_0000_0000 == 0
    ensures (u - WrapI32(u)) % 0x1_0000_0000 == 0 && -0x8000_0000 <= WrapI32(u) < 0x8000_0000
  {
    var q := u / 0x1_0000_0000;
    assert u - WrapU32(u) == q * 0x1_0000_0000;
    assert u - WrapI32(u) == q * 0x1_0000_0000 || u - WrapI32(u) == (q + 1) * 0x1_0000_0000;
  }

  lemma {:induction false} Narrow64(u: int)
    ensures (u - WrapI64(u)) % 0x1_0000_0000_0000_0000 == 0
  {
    var q := u / 0x1_0000_0000_0000_0000;
    assert u - WrapI64(u) == q * 0x1_0000_0000_0000_0000 || u - WrapI64(u) == (q + 1) * 0x1_0000_0000_0000_0000;
  }

  /** Any varint, in range or not, is cut to the field's width; every number but zero is true. */
  lemma {:induction false} ScalarMeans(k: D.CodecKind, u: U64, rest: seq<Byte>) returns (v: D.Val)
    requires k.Varint? || k.Bool?
    ensures VarintMeans(k, u, v) && D.ReadScalar(k, VarintBytes(u) + rest) == Ok(Read(v, |VarintBytes(u)|))
  {
    hide WrapI32, WrapU32, WrapI64, VarintBytes, ReadVarint;
    ReadVarintInverts(u, rest);
    Narrow32(u);
    Narrow64(u);
    v := D.ReadScalar(k, VarintBytes(u) + rest).value.value;
  }

  /** A varint record of a field: singular, optional or repeated. */
  lemma {:induction false} VarintField(fs: seq<D.Field>, i: nat, u: U64, rest: seq<Byte>, acc: seq<D.Val>) returns (v: D.Val)
    requires R.Decodable(fs, acc) && i < |fs|
    requires var k := fs[i].kind; k.Varint? || k.Bool? || ((k.Optional? || k.Repeated?) && (k.inner.Varint? || k.inner.Bool?))
    ensures VarintMeans(if fs[i].kind.Optional? || fs[i].kind.Repeated? then fs[i].kind.inner else fs[i].kind, u, v)
    ensures var now := if fs[i].kind.Optional? then D.Present(v)
                       else if fs[i].kind.Repeated? then D.List((if acc[i].List? then acc[i].items else []) + [v])
                       else v;
            D.DecodeFields(fs, TagBytes(fs[i].tag, 0) + VarintBytes(u) + rest, acc) == D.DecodeFields(fs, rest, acc[i := now])
  {
    hide D.DecodeFields, D.ReadScalar, VarintMeans, VarintBytes;
    var k := fs[i].kind;
    v := ScalarMeans(if k.Optional? || k.Repeated? then k.inner else k, u, rest);
    var now := if k.Optional? then D.Present(v)
               else if k.Repeated? then D.List((if acc[i].List? then acc[i].items else []) + [v])
               else v;
    R.RecordStep(fs, i, D.Record(0, VarintBytes(u)), rest, acc, now);
  }

  /** Text that is no UTF-8 is an error; bytes take anything. */
  lemma {:induction false} TextField(fs: seq<D.Field>, i: nat, data: seq<Byte>, rest: seq<Byte>, acc: seq<D.Val>)
    requires R.Decodable(fs, acc) && i < |fs| && |data| < MAX_LEN
    requires fs[i].kind.LenString? || fs[i].kind.LenBytesStr? || fs[i].kind.LenBytes?
    ensures D.DecodeFields(fs, TagBytes(fs[i].tag, 2) + LenPrefixed(data) + rest, acc)
         == if fs[i].kind.LenBytes? || ValidUtf8(data) then D.DecodeFields(fs, rest, acc[i := D.Text(data)]) else Err(InvalidUtf8)
  {
    hide D.DecodeFields, ValidUtf8, ReadLen;
    ReadLenInverts(data, rest);
    var rec := D.Record(2, LenPrefixed(data));
    if fs[i].kind.LenBytes? || ValidUtf8(data) {
      R.RecordStep(fs, i, rec, rest, acc, D.Text(data));
    } else {
      R.RecordFails(fs, i, rec, rest, acc, InvalidUtf8);
    }
  }

  /** A length beyond the end of the input is an error, for texts, messages and packed blocks alike. */
  lemma {:induction false} CutField(fs: seq<D.Field>, i: nat, n: nat, rest: seq<Byte>, acc: seq<D.Val>)
    requires R.Decodable(fs, acc) && i < |fs| && |rest| < n < 0x1_0000_0000_0000_0000
    requires var k := fs[i].kind;
             || D.IsText(k) || k.LenBytes? || k.Message? || k.OptionalMessage? || k.RepeatedMessage?
             || (k.Repeated? && D.IsPackable(k.inner))
    ensures D.DecodeFields(fs, TagBytes(fs[i].tag, 2) + VarintBytes(n) + rest, acc) == Err(UnexpectedEof)
  {
    hide D.DecodeFields, D.ReadPacked, D.Decode, ReadVarint;
    ReadVarintInverts(n, rest);
    R.RecordFails(fs, i, D.Record(2, VarintBytes(n)), rest, acc, UnexpectedEof);
  }

  /** An item that runs over the end of its block is still read whole, and is the last. */
  lemma {:induction false} CrossingReads(k: D.CodecKind, items: seq<D.Val>, last: D.Val, n: nat, rest: seq<Byte>)
    requires D.IsPackable(k) && D.AllTyped(k, items) && D.ScalarTyped(k, last)
    requires |D.PackAll(k, items)| < n <= |D.PackAll(k, items)| + |D.ScalarPayload(k, last)| < MAX_LEN
    ensures var all := D.PackAll(k, items) + D.ScalarPayload(k, last);
            D.ReadPacked(k, all + rest, n) == Ok(Read(items + [last], |all|))
    decreases |items|
  {
    hide D.ReadScalar, D.ScalarPayload, D.ReadPacked;
    var end := D.ScalarPayload(k, last);
    if items == [] {
      R.ScalarInverts(k, last, rest);
      PackedTurn(k, last, end, rest, n);
      EmptyBlock(k, rest);
      assert [] + end == end && [] + [last] == [last] + [];
    } else {
      var head, tail := D.ScalarPayload(k, items[0]), D.PackAll(k, items[1..]);
      assert D.PackAll(k, items) == head + tail;
      R.ScalarInverts(k, items[0], tail + end + rest);
      PackedTurn(k, items[0], head, tail + end + rest, n);
      CrossingReads(k, items[1..], last, n - |head|, rest);
      assert head + tail + end + rest == head + (tail + end + rest);
      assert [items[0]] + (items[1..] + [last]) == items + [last];
    }
  }

  lemma {:induction false} EmptyBlock(k: D.CodecKind, bs: seq<Byte>)
    requires D.IsScalar(k)
    ensures D.ReadPacked(k, bs, 0) == Ok(Read([], 0))
  {
  }

  /** One turn of the packed loop. */
  lemma {:induction false} PackedTurn(k: D.CodecKind, v: D.Val, head: seq<Byte>, rest: seq<Byte>, n: nat)
    requires D.IsScalar(k) && 0 < n && D.ReadScalar(k, head + rest) == Ok(Read(v, |head|))
    ensures D.ReadPacked(k, head + rest, n) ==
            match D.ReadPacked(k, rest, if |head| < n then n - |head| else 0)
            case Err(e) => Err(e)
            case Ok(more) => Ok(Read([v] + more.value, |head| + more.consumed))
  {
    hide D.ReadScalar;
    assert (head + rest)[|head|..] == rest;
  }

  // ---- the table-driven decoder ----

  function Halved(u: U64): (n: int) { if u % 2 == 0 then u / 2 else -((u + 1) / 2) }

  predicate JsonMeans(t: T.ProtoType, u: U64, j: T.Json) {
    match t
    case TUint32 => j == T.JInt(u)
    case TUint64 => j == T.JInt(u)
    case TEnum => j == T.JInt(u)
    case TInt32 => j.JInt? && IntMeans(D.I32Ty, u, j.n)
    case TInt64 => j.JInt? && IntMeans(D.I64Ty, u, j.n)
    case TSint32 => j.JInt? && -0x8000_0000 <= j.n < 0x8000_0000 && (Halved(u) - j.n) % 0x1_0000_0000 == 0
    case TSint64 => j.JInt? && j.n == Halved(u)
    case TBool => j == T.JBool(u > 0)
    case _ => false
  }

  function Stored(f: T.FieldDef, j: T.Json, st: T.State): (next: T.State) {
    if f.repeated then st.(many := st.many[f.name := (if f.name in st.many then st.many[f.name] else []) + [j]])
    else st.(single := st.single[f.name := j])
  }

  lemma {:induction false} NumberMeans(t: T.ProtoType, u: U64) returns (j: T.Json)
    requires T.WireTypeFor(t) == 0
    ensures T.VarintToJson(u, t) == Ok(j) && JsonMeans(t, u, j)
  {
    hide WrapI32, WrapI64;
    Narrow32(u);
    Narrow64(u);
    Narrow32(Halved(u));
    assert T.ZigzagDecode(u) == Halved(u);
    j := T.VarintToJson(u, t).value;
  }

  /** A varint record of a varint field. */
  lemma {:induction false} VarintMember(fields: seq<T.FieldDef>, i: nat, u: U64, rest: seq<Byte>, st: T.State) returns (j: T.Json)
    requires L.UniqueTags(fields) && i < |fields| && T.WireTypeFor(fields[i].ptype) == 0
    ensures JsonMeans(fields[i].ptype, u, j)
    ensures T.DecodeLoop(fields, TagBytes(fields[i].tag, 0) + VarintBytes(u) + rest, st)
         == T.DecodeLoop(fields, rest, Stored(fields[i], j, st))
  {
    hide T.DecodeLoop, T.VarintToJson, JsonMeans, VarintBytes;
    j := NumberMeans(fields[i].ptype, u);
    ReadVarintInverts(u, rest);
    L.RecordStep(fields, i, 0, VarintBytes(u), VarintValue(u), rest, st, Stored(fields[i], j, st));
  }

  predicate WordMeans(t: T.ProtoType, bits: seq<Byte>, j: T.Json)
    requires |bits| == if T.WireTypeFor(t) == 1 then 8 else 4
  {
    match t
    case TDouble => j == if T.Finite64(bits) then T.JFloat64(bits) else T.JNull
    case TFloat => j == if T.Finite32(bits) then T.JFloat32(bits) else T.JNull
    case TFixed64 => j.JInt? && j.n == FromLe(bits)
    case TFixed32 => j.JInt? && j.n == FromLe(bits)
    case TSfixed64 => j.JInt? && IntMeans(D.I64Ty, WrapU64(FromLe(bits)), j.n)
    case TSfixed32 => j.JInt? && IntMeans(D.I32Ty, WrapU64(FromLe(bits)), j.n)
    case _ => false
  }

  /** Words: floats that are not finite are null, and integers are read with or without a sign. */
  lemma {:induction false} WordMember(fields: seq<T.FieldDef>, i: nat, bits: seq<Byte>, rest: seq<Byte>, st: T.State) returns (j: T.Json)
    requires L.UniqueTags(fields) && i < |fields|
    requires var wt := T.WireTypeFor(fields[i].ptype); (wt == 1 && |bits| == 8) || (wt == 5 && |bits| == 4)
    ensures WordMeans(fields[i].ptype, bits, j)
    ensures T.DecodeLoop(fields, TagBytes(fields[i].tag, T.WireTypeFor(fields[i].ptype)) + bits + rest, st)
         == T.DecodeLoop(fields, rest, Stored(fields[i], j, st))
  {
    hide T.DecodeLoop, FromLe;
    T.LeBound(bits);
    ReadFixedInverts(bits, rest);
    if |bits| == 8 {
      j := T.Fixed64ToJson(bits, fields[i].ptype).value;
      L.RecordStep(fields, i, 1, bits, Fixed64(bits), rest, st, Stored(fields[i], j, st));
    } else {
      j := T.Fixed32ToJson(bits, fields[i].ptype).value;
      L.RecordStep(fields, i, 5, bits, Fixed32(bits), rest, st, Stored(fields[i], j, st));
    }
  }

  /** Text that is no UTF-8 is an error; bytes are shown in base64, whatever they are. */
  lemma {:induction false} TextMember(fields: seq<T.FieldDef>, i: nat, data: seq<Byte>, rest: seq<Byte>, st: T.State)
    requires L.UniqueTags(fields) && i < |fields| && |data| < MAX_LEN
    requires fields[i].ptype.TString? || fields[i].ptype.TBytes?
    ensures var r := T.DecodeLoop(fields, TagBytes(fields[i].tag, 2) + LenPrefixed(data) + rest, st);
            if fields[i].ptype.TBytes? then ValidUtf8(Base64(data)) && r == T.DecodeLoop(fields, rest, Stored(fields[i], T.JStr(Base64(data)), st))
            else if ValidUtf8(data) then r == T.DecodeLoop(fields, rest, Stored(fields[i], T.JStr(data), st))
            else r == Err(ValueConversion)
  {
    hide T.DecodeLoop, ValidUtf8, ReadLen, LenPrefixed, Base64;
    Base64IsText(data);
    ReadLenInverts(data, rest);
    var wv := LengthDelimited(data);
    if fields[i].ptype.TBytes? {
      L.RecordStep(fields, i, 2, LenPrefixed(data), wv, rest, st, Stored(fields[i], T.JStr(Base64(data)), st));
    } else if ValidUtf8(data) {
      L.RecordStep(fields, i, 2, LenPrefixed(data), wv, rest, st, Stored(fields[i], T.JStr(data), st));
    } else {
      MemberFails(fields, i, 2, LenPrefixed(data), wv, rest, st, ValueConversion);
    }
  }

  lemma {:induction false} MemberFails(fields: seq<T.FieldDef>, i: nat, wt: WireTy, payload: seq<Byte>, wv: WireValue,
                                       rest: seq<Byte>, st: T.State, e: DecodeError)
    requires L.UniqueTags(fields) && i < |fields| && T.WellSized(wv)
    requires ReadWireValue(payload + rest, wt) == Ok(Read(wv, |payload|))
    requires T.Apply(fields[i], wv, st) == Err(e)
    ensures T.DecodeLoop(fields, TagBytes(fields[i].tag, wt) + payload + rest, st) == Err(e)
  {
    hide ReadWireValue, T.Apply, ReadVarint;
    var tag := TagBytes(fields[i].tag, wt);
    Cut(tag, payload, rest);
    ReadTagInverts(fields[i].tag, wt, payload + rest);
    L.FindOwn(fields, i);
    assert T.DecodeRecord(fields, tag + payload + rest, st) == Err(e);
  }

  /** A number of another wire type than the field's is refused. */
  lemma {:induction false} OtherWireType(fields: seq<T.FieldDef>, i: nat, wt: WireTy, payload: seq<Byte>, rest: seq<Byte>, st: T.State)
    requires L.UniqueTags(fields) && i < |fields| && wt != T.WireTypeFor(fields[i].ptype)
    requires (wt == 0 && exists u: U64 :: payload == VarintBytes(u)) || (wt == 1 && |payload| == 8) || (wt == 5 && |payload| == 4)
    ensures T.DecodeLoop(fields, TagBytes(fields[i].tag, wt) + payload + rest, st) == Err(ValueConversion)
  {
    hide T.DecodeLoop, VarintBytes, FromLe, ReadVarint;
    if wt == 0 {
      var u: U64 :| payload == VarintBytes(u);
      ReadVarintInverts(u, rest);
      MemberFails(fields, i, wt, payload, VarintValue(u), rest, st, ValueConversion);
    } else {
      ReadFixedInverts(payload, rest);
      MemberFails(fields, i, wt, payload, if wt == 1 then Fixed64(payload) else Fixed32(payload), rest, st, ValueConversion);
    }
  }

  /** Input that ends inside a value, and wire types that are none, listed or not. */
  lemma {:induction false} BadRecord(fields: seq<T.FieldDef>, tag: U32, wt: WireTy, body: seq<Byte>, st: T.State)
    requires (wt == 2 && exists n: U64, rest: seq<Byte> :: n > |rest| && body == VarintBytes(n) + rest)
          || (wt == 1 && |body| < 8) || (wt == 5 && |body| < 4) || wt == 3 || wt == 4 || wt == 6 || wt == 7
    ensures T.DecodeLoop(fields, TagBytes(tag, wt) + body, st)
         == Err(if wt == 3 || wt == 4 || wt == 6 || wt == 7 then UnknownWireType(wt) else UnexpectedEof)
  {
    hide ReadVarint, VarintBytes;
    if wt == 2 {
      var n: U64, rest: seq<Byte> :| n > |rest| && body == VarintBytes(n) + rest;
      ReadVarintInverts(n, rest);
    }
    ReadTagInverts(tag, wt, body);
    var t := TagBytes(tag, wt);
    assert (t + body)[|t|..] == body;
    assert T.DecodeRecord(fields, t + body, st).Err?;
  }
}
