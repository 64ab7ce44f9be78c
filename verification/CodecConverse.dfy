/** The generated decoder reads what the table-driven encoder writes. */
module CodecConverse {
  // Source: typeway-grpc/src/proto_codec.rs, typeway-macros/src/lib.rs

  import opened Bytes
  import opened Varint
  import opened Wire
  import opened TextCodecs
  import opened RuntimeCodec
  import A = CodecAgreement
  import D = DerivedCodec
  import L = RuntimeLaws
  import R = DerivedRoundTrip

  // ---- values the table-driven encoder can write for the generated decoder ----

  predicate FiniteScalar(k: D.CodecKind, v: D.Val)
    requires D.IsScalar(k) && D.ScalarTyped(k, v)
  {
    match k
    case Fixed32 => Finite32(v.bits)
    case Fixed64 => Finite64(v.bits)
    case _ => true
  }

  /** Floats are finite, and no list of floats holds any: its items are written one record each. */
  predicate SendableKind(k: D.CodecKind, v: D.Val)
    requires D.HasKind(k, v)
  {
    if D.IsScalar(k) then FiniteScalar(k, v)
    else
      match k
      case Optional(inner) => v.Present? && D.IsScalar(inner) ==> FiniteScalar(inner, v.inner)
      case Repeated(inner) => inner.Fixed32? || inner.Fixed64? ==> v.items == []
      case Message(ty) => Sendable(ty, v)
      case OptionalMessage(ty) => v.Present? ==> Sendable(ty, v.inner)
      case RepeatedMessage(ty) => forall i :: 0 <= i < |v.items| ==> Sendable(ty, v.items[i])
  }

  predicate Sendable(ty: D.MsgTy, v: D.Val)
    requires D.HasType(ty, v)
  {
    match ty
    case Struct(fs) => SendableFields(fs, v.vals)
    case OneOf(vs) => SendableKind(vs[v.index].kind, v.payload)
    case Enum(_) => true
  }

  predicate SendableFields(fs: seq<D.Field>, vals: seq<D.Val>)
    requires D.FieldsTyped(fs, vals)
  {
    forall i :: 0 <= i < |fs| ==> SendableKind(fs[i].kind, vals[i])
  }

  // ---- what arrives ----

  /**
    Everything, but that defaults stand for nothing: an optional or oneof scalar that holds the default of its
    type is left out by the encoder, and optional bytes have no decode arm.
  */
  function ArrivesKind(k: D.CodecKind, v: D.Val): (r: D.Val)
    requires D.HasKind(k, v) && D.DerivableKind(k)
    decreases k, 0
  {
    if D.IsScalar(k) then if D.IsOmitted(k, v) then D.Zero(k) else v
    else
      match k
      case Optional(inner) =>
        if v.Present? && D.HasArm(inner) && !D.IsOmitted(inner, v.inner) then v else D.Absent
      case Repeated(inner) => if D.HasArm(inner) then v else D.List([])
      case Message(ty) => if D.Encode(ty, v) == [] then D.Default(ty) else Arrives(ty, v)
      case OptionalMessage(ty) => if v.Absent? then v else D.Present(Arrives(ty, v.inner))
      case RepeatedMessage(ty) => D.List(ArriveAll(ty, v.items))
  }

  function ArriveAll(ty: D.MsgTy, items: seq<D.Val>): (r: seq<D.Val>)
    requires D.Derivable(ty) && forall i :: 0 <= i < |items| ==> D.HasType(ty, items[i])
    ensures |r| == |items|
    decreases ty, |items| + 1
  {
    if items == [] then [] else [Arrives(ty, items[0])] + ArriveAll(ty, items[1..])
  }

  function Arrives(ty: D.MsgTy, v: D.Val): (r: D.Val)
    requires D.HasType(ty, v) && D.Derivable(ty)
    decreases ty, 0
  {
    match ty
    case Struct(fs) => D.Rec(ArriveFields(fs, v.vals))
    case OneOf(vs) =>
      var k := vs[v.index].kind;
      assert D.HasKind(k, v.payload) && D.DerivableKind(k);
      if k.Message? then D.Case(v.index, Arrives(k.ty, v.payload))
      else if D.IsOmitted(k, v.payload) then D.Default(ty)
      else v
    case Enum(_) => v
  }

  function ArriveFields(fs: seq<D.Field>, vals: seq<D.Val>): (r: seq<D.Val>)
    requires D.FieldsTyped(fs, vals) && forall i :: 0 <= i < |fs| ==> D.DerivableKind(fs[i].kind)
    ensures |r| == |fs|
    ensures forall i :: 0 <= i < |fs| ==> r[i] == ArrivesKind(fs[i].kind, vals[i])
    decreases fs, 1
  {
    seq(|fs|, i requires 0 <= i < |fs| => ArrivesKind(fs[i].kind, vals[i]))
  }

  // ---- scalars: the same payload from both encoders ----

  lemma {:induction false} IntWrites(w: D.IntTy, n: int)
    requires D.InRange(w, n)
    ensures IntPayload(A.TypeOf(D.CodecKind.Varint(w)), JInt(n)) == Ok(VarintBytes(WrapU64(n)))
  {
    hide VarintBytes;
    assert WrapI64(n) == n || w.U64Ty?;
  }

  lemma {:induction false} FlagWrites(on: bool)
    ensures IntPayload(TBool, JBool(on)) == Ok(if on then [1] else [0])
  {
    assert VarintBytes(1) == [1] && VarintBytes(0) == [0];
  }

  lemma {:induction false} BytesWrite(data: seq<Byte>)
    ensures Base64Json(data).JStr? && BytesOf(Base64Json(data).s) == data && (Base64Json(data).s == [] <==> data == [])
  {
    hide Unbase64, Base64;
    Base64RoundTrip(data);
    Base64IsText(data);
  }

  lemma {:induction false} ScalarWrites(k: D.CodecKind, v: D.Val)
    requires D.IsScalar(k) && D.ScalarTyped(k, v) && FiniteScalar(k, v)
    ensures Payload(A.TypeOf(k), NoTable, A.ScalarJson(k, v)) == Ok(D.ScalarPayload(k, v))
    ensures WireTypeFor(A.TypeOf(k)) == D.WireType(k) && !A.TypeOf(k).TNamed?
  {
    hide VarintBytes, IntPayload, Base64Json, BytesOf;
    match k
    case Varint(w) => IntWrites(w, v.n);
    case Bool => FlagWrites(v.on);
    case LenBytes => BytesWrite(v.data);
    case _ =>
  }

  /** Both encoders leave out the same scalars. */
  lemma {:induction false} SameOmissions(k: D.CodecKind, v: D.Val)
    requires D.IsScalar(k) && D.ScalarTyped(k, v) && FiniteScalar(k, v)
    ensures !A.ScalarJson(k, v).JNull? && !A.ScalarJson(k, v).JArr?
    ensures IsDefault(A.ScalarJson(k, v), A.TypeOf(k)) <==> D.IsOmitted(k, v)
  {
    hide Base64Json;
    if k.LenBytes? { BytesWrite(v.data); }
  }

  function ScalarDef(f: D.Field, k: D.CodecKind, repeated: bool): (d: FieldDef) {
    FieldDef(f.name, A.TypeOf(k), f.tag, repeated, NoTable)
  }

  lemma {:induction false} ScalarValue(f: D.Field, k: D.CodecKind, v: D.Val, repeated: bool)
    requires D.IsScalar(k) && D.ScalarTyped(k, v) && FiniteScalar(k, v)
    ensures EncodeValue(ScalarDef(f, k, repeated), A.ScalarJson(k, v)) == Ok(TagBytes(f.tag, D.WireType(k)) + D.ScalarPayload(k, v))
  {
    hide Payload, D.ScalarPayload, A.ScalarJson, D.ScalarTyped, FiniteScalar;
    ScalarWrites(k, v);
  }

  lemma {:induction false} ScalarMember(f: D.Field, k: D.CodecKind, v: D.Val)
    requires D.IsScalar(k) && D.ScalarTyped(k, v) && FiniteScalar(k, v)
    ensures EncodeMember(ScalarDef(f, k, false), A.ScalarJson(k, v))
         == Ok(if D.IsOmitted(k, v) then [] else TagBytes(f.tag, D.WireType(k)) + D.ScalarPayload(k, v))
  {
    hide Payload, D.ScalarPayload, A.ScalarJson, D.ScalarTyped, FiniteScalar, EncodeValue, IsDefault, D.IsOmitted;
    ScalarWrites(k, v);
    SameOmissions(k, v);
    ScalarValue(f, k, v, false);
  }

  // ---- one field: its member's bytes, and what the generated loop makes of them ----

  /** What the table-driven encoder writes for a field of a struct. */
  function MemberBytes(f: D.Field, v: D.Val): (r: Result<seq<Byte>, DecodeError>)
    requires A.TabularKind(f.kind) && D.HasKind(f.kind, v)
  {
    match A.MemberJson(f.kind, v)
    case None => Ok([])
    case Some(j) => EncodeMember(A.TableField(f), j)
  }

  lemma {:induction false} NothingRead(fs: seq<D.Field>, i: nat, rest: seq<Byte>, acc: seq<D.Val>)
    requires R.Decodable(fs, acc) && i < |fs|
    ensures D.DecodeFields(fs, [] + rest, acc) == D.DecodeFields(fs, rest, acc[i := acc[i]])
  {
    assert [] + rest == rest && acc[i := acc[i]] == acc;
  }

  lemma {:induction false} ScalarReads(fs: seq<D.Field>, i: nat, v: D.Val, rest: seq<Byte>, acc: seq<D.Val>)
    requires R.Decodable(fs, acc) && i < |fs| && D.IsScalar(fs[i].kind) && D.HasKind(fs[i].kind, v)
    requires A.TabularKind(fs[i].kind) && SendableKind(fs[i].kind, v) && acc[i] == D.Zero(fs[i].kind)
    ensures MemberBytes(fs[i], v).Ok?
    ensures |MemberBytes(fs[i], v).value| < MAX_LEN ==>
              (D.DecodeFields(fs, MemberBytes(fs[i], v).value + rest, acc)
               == D.DecodeFields(fs, rest, acc[i := ArrivesKind(fs[i].kind, v)]))
  {
    hide D.DecodeFields, EncodeMember, D.ScalarPayload, D.ScalarTyped, D.IsOmitted, A.ScalarJson, FiniteScalar, D.Zero;
    var k := fs[i].kind;
    if D.IsOmitted(k, v) {
      NothingRead(fs, i, rest, acc);
    } else {
      ScalarMember(fs[i], k, v);
      assert A.TableField(fs[i]) == ScalarDef(fs[i], k, false);
      if |MemberBytes(fs[i], v).value| < MAX_LEN {
        R.ScalarInverts(k, v, rest);
        R.RecordStep(fs, i, D.Record(D.WireType(k), D.ScalarPayload(k, v)), rest, acc, v);
      }
    }
  }

  lemma {:induction false} OptionalReads(fs: seq<D.Field>, i: nat, v: D.Val, rest: seq<Byte>, acc: seq<D.Val>)
    requires R.Decodable(fs, acc) && i < |fs| && fs[i].kind.Optional? && D.HasKind(fs[i].kind, v)
    requires A.TabularKind(fs[i].kind) && SendableKind(fs[i].kind, v) && acc[i] == D.Absent
    ensures MemberBytes(fs[i], v).Ok?
    ensures |MemberBytes(fs[i], v).value| < MAX_LEN ==>
              (D.DecodeFields(fs, MemberBytes(fs[i], v).value + rest, acc)
               == D.DecodeFields(fs, rest, acc[i := ArrivesKind(fs[i].kind, v)]))
  {
    hide D.DecodeFields, EncodeMember, D.ScalarPayload, D.ScalarTyped, D.IsOmitted, A.ScalarJson, FiniteScalar;
    var inner := fs[i].kind.inner;
    if v.Absent? || !D.IsScalar(inner) {
      NothingRead(fs, i, rest, acc);
    } else {
      var x := v.inner;
      ScalarMember(fs[i], inner, x);
      assert A.TableField(fs[i]) == ScalarDef(fs[i], inner, false);
      if D.IsOmitted(inner, x) {
        NothingRead(fs, i, rest, acc);
      } else if |MemberBytes(fs[i], v).value| < MAX_LEN {
        var rec := D.Record(D.WireType(inner), D.ScalarPayload(inner, x));
        if D.HasArm(inner) {
          R.ScalarInverts(inner, x, rest);
        } else {
          BytesPayload(x);
          R.SkipBytes(x.data, rest);
        }
        R.RecordStep(fs, i, rec, rest, acc, if D.HasArm(inner) then v else acc[i]);
      }
    }
  }

  lemma {:induction false} BytesPayload(v: D.Val)
    requires D.ScalarTyped(D.LenBytes, v)
    ensures v.Text? && D.ScalarPayload(D.LenBytes, v) == LenPrefixed(v.data)
  {
  }

  /** Items of numbers and texts: one record each, appended one after another. */
  lemma {:induction false} ItemsRead(fs: seq<D.Field>, i: nat, done: seq<D.Val>, items: seq<D.Val>,
                                     rest: seq<Byte>, acc: seq<D.Val>)
    requires R.Decodable(fs, acc) && i < |fs| && fs[i].kind.Repeated? && acc[i] == D.List(done)
    requires var k := fs[i].kind.inner; (k.Varint? || k.Bool? || D.IsText(k)) && D.AllTyped(k, items)
    ensures var def := ScalarDef(fs[i], fs[i].kind.inner, true);
            && EncodeItems(def, A.ScalarsJson(fs[i].kind.inner, items)).Ok?
            && (|EncodeItems(def, A.ScalarsJson(fs[i].kind.inner, items)).value| < MAX_LEN ==>
                  (D.DecodeFields(fs, EncodeItems(def, A.ScalarsJson(fs[i].kind.inner, items)).value + rest, acc)
                   == D.DecodeFields(fs, rest, acc[i := D.List(done + items)])))
    decreases |items|
  {
    hide D.DecodeFields, EncodeValue, D.ScalarPayload, D.ScalarTyped, A.ScalarJson, D.DecodeArm;
    var k, def := fs[i].kind.inner, ScalarDef(fs[i], fs[i].kind.inner, true);
    if items == [] {
      NothingRead(fs, i, rest, acc);
      assert done + [] == done;
    } else {
      var head, v := TagBytes(fs[i].tag, D.WireType(k)) + D.ScalarPayload(k, items[0]), items[0];
      ScalarValue(fs[i], k, v, true);
      var next := acc[i := D.List(done + [v])];
      var js := A.ScalarsJson(k, items[1..]);
      assert A.ScalarsJson(k, items)[1..] == js;
      ItemsRead(fs, i, done + [v], items[1..], rest, next);
      var all := EncodeItems(def, A.ScalarsJson(k, items));
      assert all == Ok(head + EncodeItems(def, js).value);
      if |all.value| < MAX_LEN {
        var tail := EncodeItems(def, js).value;
        ItemArm(k, v, tail + rest, done);
        Cut(head, tail, rest);
        R.RecordStep(fs, i, D.Record(D.WireType(k), D.ScalarPayload(k, v)), tail + rest, acc, D.List(done + [v]));
        Cut(done, [v], items[1..]);
        assert [v] + items[1..] == items;
        R.UpdateTwice(acc, i, D.List(done + [v]), D.List(done + items));
      }
    }
  }

  /** An unpacked item is appended to those before it. */
  lemma {:induction false} ItemArm(k: D.CodecKind, v: D.Val, rest: seq<Byte>, done: seq<D.Val>)
    requires (k.Varint? || k.Bool? || D.IsText(k)) && D.ScalarTyped(k, v) && |D.ScalarPayload(k, v)| < MAX_LEN
    ensures D.DecodeArm(D.Repeated(k), D.WireType(k), D.ScalarPayload(k, v) + rest, D.List(done))
         == Ok(Read(D.List(done + [v]), |D.ScalarPayload(k, v)|))
  {
    hide D.ScalarPayload, D.ReadScalar, D.ScalarTyped;
    R.ScalarInverts(k, v, rest);
  }

  lemma {:induction false} RepeatedReads(fs: seq<D.Field>, i: nat, v: D.Val, rest: seq<Byte>, acc: seq<D.Val>)
    requires R.Decodable(fs, acc) && i < |fs| && fs[i].kind.Repeated? && D.HasKind(fs[i].kind, v)
    requires A.TabularKind(fs[i].kind) && SendableKind(fs[i].kind, v) && acc[i] == D.List([])
    ensures MemberBytes(fs[i], v).Ok?
    ensures |MemberBytes(fs[i], v).value| < MAX_LEN ==>
              (D.DecodeFields(fs, MemberBytes(fs[i], v).value + rest, acc)
               == D.DecodeFields(fs, rest, acc[i := ArrivesKind(fs[i].kind, v)]))
  {
    hide D.DecodeFields, EncodeItems, D.ScalarTyped, A.ScalarJson;
    var k := fs[i].kind.inner;
    if D.HasArm(k) && v.items != [] {
      ItemsRead(fs, i, [], v.items, rest, acc);
      assert A.TableField(fs[i]) == ScalarDef(fs[i], k, true);
      assert [] + v.items == v.items;
    } else {
      NothingRead(fs, i, rest, acc);
    }
  }

  // ---- nested messages ----

  lemma {:induction false} NestedValue(f: D.Field, x: D.Val)
    requires f.kind.Message? || f.kind.OptionalMessage? || f.kind.RepeatedMessage?
    requires A.TabularKind(f.kind) && D.HasType(f.kind.ty, x)
    ensures var inner := JsonToProto(JObj(A.ObjectJson(f.kind.ty, x)), A.TableOf(A.FieldsOf(f.kind.ty)));
            EncodeValue(A.TableField(f), JObj(A.ObjectJson(f.kind.ty, x)))
            == if inner.Ok? then Ok(TagBytes(f.tag, 2) + LenPrefixed(inner.value)) else Err(inner.error)
  {
    hide JsonToProto, A.ObjectJson, D.HasType;
    A.NestedTableIs(f);
  }

  lemma {:induction false} MessageReads(fs: seq<D.Field>, i: nat, v: D.Val, rest: seq<Byte>, acc: seq<D.Val>)
    requires R.Decodable(fs, acc) && i < |fs| && (fs[i].kind.Message? || fs[i].kind.OptionalMessage?)
    requires D.HasKind(fs[i].kind, v) && A.TabularKind(fs[i].kind) && SendableKind(fs[i].kind, v) && acc[i] == D.Zero(fs[i].kind)
    ensures MemberBytes(fs[i], v).Ok?
    ensures |MemberBytes(fs[i], v).value| < MAX_LEN ==>
              (D.DecodeFields(fs, MemberBytes(fs[i], v).value + rest, acc)
               == D.DecodeFields(fs, rest, acc[i := ArrivesKind(fs[i].kind, v)]))
    decreases fs[i].kind, 0
  {
    hide D.DecodeFields, EncodeValue, A.ObjectJson, D.HasType, D.Encode, JsonToProto, D.Decode, Sendable, Arrives;
    var k := fs[i].kind;
    if v.Absent? || (k.Message? && D.Encode(k.ty, v) == []) {
      NoMessage(fs[i], v);
      NothingRead(fs, i, rest, acc);
    } else {
      var x := if k.Message? then v else v.inner;
      NestedValue(fs[i], x);
      TableBytesRead(k.ty, x);
      PresentMember(fs[i], v);
      var inner := JsonToProto(JObj(A.ObjectJson(k.ty, x)), A.TableOf(A.FieldsOf(k.ty))).value;
      if |MemberBytes(fs[i], v).value| < MAX_LEN {
        R.MessageArm(k, k.ty, inner, rest, acc[i], Arrives(k.ty, x));
        R.RecordStep(fs, i, D.Record(2, LenPrefixed(inner)), rest, acc, ArrivesKind(k, v));
      }
    }
  }

  lemma {:induction false} NoMessage(f: D.Field, v: D.Val)
    requires (f.kind.Message? || f.kind.OptionalMessage?) && D.HasKind(f.kind, v) && A.TabularKind(f.kind) && D.DerivableKind(f.kind)
    requires v.Absent? || (f.kind.Message? && D.Encode(f.kind.ty, v) == [])
    ensures MemberBytes(f, v) == Ok([]) && ArrivesKind(f.kind, v) == D.Zero(f.kind)
  {
    hide D.Encode, D.Default, Arrives;
    if f.kind.Message? { AbsentHasNoType(f.kind.ty, v); }
  }

  lemma {:induction false} AbsentHasNoType(ty: D.MsgTy, v: D.Val)
    requires D.HasType(ty, v)
    ensures !v.Absent?
  {
  }

  lemma {:induction false} PresentMember(f: D.Field, v: D.Val)
    requires (f.kind.Message? || f.kind.OptionalMessage?) && D.HasKind(f.kind, v) && A.TabularKind(f.kind)
    requires !v.Absent? && (f.kind.Message? ==> D.Encode(f.kind.ty, v) != [])
    ensures MemberBytes(f, v) == EncodeValue(A.TableField(f), JObj(A.ObjectJson(f.kind.ty, if f.kind.Message? then v else v.inner)))
  {
    hide EncodeValue, A.ObjectJson, D.Encode, A.TableOf, A.NestedTable;
  }

  lemma {:induction false} MessagesRead(fs: seq<D.Field>, i: nat, done: seq<D.Val>, items: seq<D.Val>,
                                        rest: seq<Byte>, acc: seq<D.Val>)
    requires R.Decodable(fs, acc) && i < |fs| && fs[i].kind.RepeatedMessage? && A.TabularKind(fs[i].kind)
    requires forall j :: 0 <= j < |items| ==> D.HasType(fs[i].kind.ty, items[j]) && Sendable(fs[i].kind.ty, items[j])
    requires acc[i] == D.List(done)
    ensures var all := EncodeItems(A.TableField(fs[i]), A.MessagesJson(fs[i].kind.ty, items));
            && all.Ok?
            && (|all.value| < MAX_LEN ==>
                  (D.DecodeFields(fs, all.value + rest, acc)
                   == D.DecodeFields(fs, rest, acc[i := D.List(done + ArriveAll(fs[i].kind.ty, items))])))
    decreases fs[i].kind, 0, |items|
  {
    hide D.DecodeFields, EncodeValue, A.ObjectJson, D.HasType, JsonToProto, D.Decode, Sendable, Arrives, A.TableField;
    var k, def := fs[i].kind, A.TableField(fs[i]);
    if items == [] {
      NothingRead(fs, i, rest, acc);
      assert done + [] == done;
    } else {
      var x, w := items[0], Arrives(k.ty, items[0]);
      NestedValue(fs[i], x);
      TableBytesRead(k.ty, x);
      var inner := JsonToProto(JObj(A.ObjectJson(k.ty, x)), A.TableOf(A.FieldsOf(k.ty))).value;
      var head, js := TagBytes(fs[i].tag, 2) + LenPrefixed(inner), A.MessagesJson(k.ty, items[1..]);
      assert A.MessagesJson(k.ty, items)[1..] == js;
      MessagesRead(fs, i, done + [w], items[1..], rest, acc[i := D.List(done + [w])]);
      var all := EncodeItems(def, A.MessagesJson(k.ty, items));
      assert all == Ok(head + EncodeItems(def, js).value);
      if |all.value| < MAX_LEN {
        var tail := EncodeItems(def, js).value;
        Cut(head, tail, rest);
        R.MessageArm(k, k.ty, inner, tail + rest, acc[i], w);
        R.RecordStep(fs, i, D.Record(2, LenPrefixed(inner)), tail + rest, acc, D.List(done + [w]));
        Cut(done, [w], ArriveAll(k.ty, items[1..]));
        R.UpdateTwice(acc, i, D.List(done + [w]), D.List(done + ArriveAll(k.ty, items)));
      }
    }
  }

  lemma {:induction false} MessageListReads(fs: seq<D.Field>, i: nat, v: D.Val, rest: seq<Byte>, acc: seq<D.Val>)
    requires R.Decodable(fs, acc) && i < |fs| && fs[i].kind.RepeatedMessage? && D.HasKind(fs[i].kind, v)
    requires A.TabularKind(fs[i].kind) && SendableKind(fs[i].kind, v) && acc[i] == D.List([])
    ensures MemberBytes(fs[i], v).Ok?
    ensures |MemberBytes(fs[i], v).value| < MAX_LEN ==>
              (D.DecodeFields(fs, MemberBytes(fs[i], v).value + rest, acc)
               == D.DecodeFields(fs, rest, acc[i := ArrivesKind(fs[i].kind, v)]))
    decreases fs[i].kind, 1
  {
    hide D.DecodeFields, EncodeItems, A.ObjectJson, D.HasType, Sendable, Arrives;
    if v.items == [] {
      NothingRead(fs, i, rest, acc);
    } else {
      MessagesRead(fs, i, [], v.items, rest, acc);
      assert [] + ArriveAll(fs[i].kind.ty, v.items) == ArriveAll(fs[i].kind.ty, v.items);
    }
  }

  lemma {:induction false} FieldReads(fs: seq<D.Field>, i: nat, v: D.Val, rest: seq<Byte>, acc: seq<D.Val>)
    requires R.Decodable(fs, acc) && i < |fs| && D.HasKind(fs[i].kind, v)
    requires A.TabularKind(fs[i].kind) && SendableKind(fs[i].kind, v) && acc[i] == D.Zero(fs[i].kind)
    ensures MemberBytes(fs[i], v).Ok?
    ensures |MemberBytes(fs[i], v).value| < MAX_LEN ==>
              (D.DecodeFields(fs, MemberBytes(fs[i], v).value + rest, acc)
               == D.DecodeFields(fs, rest, acc[i := ArrivesKind(fs[i].kind, v)]))
    decreases fs[i].kind, 2
  {
    hide D.DecodeFields, MemberBytes, ArrivesKind, SendableKind, D.HasKind;
    match fs[i].kind
    case Optional(_) => OptionalReads(fs, i, v, rest, acc);
    case Repeated(_) => RepeatedReads(fs, i, v, rest, acc);
    case RepeatedMessage(_) => MessageListReads(fs, i, v, rest, acc);
    case Message(_) => MessageReads(fs, i, v, rest, acc);
    case OptionalMessage(_) => MessageReads(fs, i, v, rest, acc);
    case _ => ScalarReads(fs, i, v, rest, acc);
  }

  // ---- whole values ----

  /** The encoder's loop over the table meets the members one by one. */
  lemma {:induction false} LoopMembers(fs: seq<D.Field>, vals: seq<D.Val>, i: nat)
    requires A.TabularFields(fs) && D.FieldsTyped(fs, vals) && i < |fs|
    ensures var m, t := A.FieldsJson(fs, vals), A.TableOf(fs);
            (if t[i].name in m then EncodeMember(t[i], m[t[i].name]) else Ok([])) == MemberBytes(fs[i], vals[i])
  {
    hide EncodeMember, A.MemberJson, A.FieldsJson;
    A.FieldsJsonAt(fs, vals, i);
    assert A.TableOf(fs)[i] == A.TableField(fs[i]);
  }

  lemma {:induction false} FieldsRead(fs: seq<D.Field>, vals: seq<D.Val>, i: nat, acc: seq<D.Val>)
    requires A.TabularFields(fs) && D.FieldsTyped(fs, vals) && R.Decodable(fs, acc) && SendableFields(fs, vals) && i <= |fs|
    requires forall j :: i <= j < |fs| ==> acc[j] == D.Zero(fs[j].kind)
    ensures var all := EncodeFrom(A.FieldsJson(fs, vals), A.TableOf(fs), i);
            && all.Ok?
            && (|all.value| < MAX_LEN ==>
                  var r := D.DecodeFields(fs, all.value, acc);
                  && r.Ok? && r.value[..i] == acc[..i]
                  && forall j :: i <= j < |fs| ==> r.value[j] == ArrivesKind(fs[j].kind, vals[j]))
    decreases fs, 0, |fs| - i
  {
    hide D.DecodeFields, EncodeMember, ArrivesKind, SendableKind, D.HasKind, A.FieldsJson, A.TableOf, D.Zero, MemberBytes, D.DerivableKind;
    if i == |fs| {
      R.NothingLeft(fs, acc);
    } else {
      LoopMembers(fs, vals, i);
      var w := ArrivesKind(fs[i].kind, vals[i]);
      FieldsRead(fs, vals, i + 1, acc[i := w]);
      var tail := EncodeFrom(A.FieldsJson(fs, vals), A.TableOf(fs), i + 1).value;
      FieldReads(fs, i, vals[i], tail, acc);
      R.TakeNext(fs, vals, i, acc, w);
    }
  }

  /** The loop over a oneof's table writes the one member that is there. */
  lemma {:induction false} OneMember(t: seq<FieldDef>, k: nat, j: Json, i: nat)
    requires L.UniqueNames(t) && k < |t| && i <= |t|
    ensures EncodeFrom(map[t[k].name := j], t, i) == if i <= k then EncodeMember(t[k], j) else Ok([])
    decreases |t| - i
  {
    hide EncodeMember;
    if i < |t| {
      OneMember(t, k, j, i + 1);
      assert t[i].name == t[k].name <==> i == k;
      var bs: Result<seq<Byte>, DecodeError> := EncodeMember(t[k], j);
      var none: seq<Byte> := [];
      assert none + none == none;
      if bs.Ok? { assert bs.value + none == bs.value && none + bs.value == bs.value; }
    }
  }

  lemma {:induction false} TableNames(fs: seq<D.Field>)
    requires A.TabularFields(fs)
    ensures L.UniqueNames(A.TableOf(fs))
  {
    forall i, j | 0 <= i < j < |fs| ensures A.TableOf(fs)[i].name != A.TableOf(fs)[j].name {
      assert A.TableOf(fs)[i] == A.TableField(fs[i]) && A.TableOf(fs)[j] == A.TableField(fs[j]);
    }
  }

  lemma {:induction false} OneOfMember(vs: seq<D.Field>, v: D.Val)
    requires A.Tabular(D.OneOf(vs)) && D.HasType(D.OneOf(vs), v)
    ensures var f := vs[v.index];
            && D.IsVariantKind(f.kind) && D.HasKind(f.kind, v.payload) && A.TabularKind(f.kind)
            && JsonToProto(JObj(A.ObjectJson(D.OneOf(vs), v)), A.TableOf(vs))
            == EncodeMember(A.TableField(f), A.PayloadJson(f.kind, v.payload))
  {
    hide EncodeMember, A.PayloadJson;
    TableNames(vs);
    var k := v.index;
    assert A.TabularFields(vs) && A.TableOf(vs)[k] == A.TableField(vs[k]);
    OneMember(A.TableOf(vs), k, A.PayloadJson(vs[k].kind, v.payload), 0);
  }

  lemma {:induction false} OneOfReads(vs: seq<D.Field>, v: D.Val)
    requires A.Tabular(D.OneOf(vs)) && D.Derivable(D.OneOf(vs)) && D.HasType(D.OneOf(vs), v) && Sendable(D.OneOf(vs), v)
    ensures var bs := JsonToProto(JObj(A.ObjectJson(D.OneOf(vs), v)), A.TableOf(vs));
            && bs.Ok?
            && (|bs.value| < MAX_LEN ==> D.Decode(D.OneOf(vs), bs.value) == Ok(Arrives(D.OneOf(vs), v)))
    decreases D.OneOf(vs), 1
  {
    hide D.DecodeCases, EncodeMember, D.ScalarPayload, D.ScalarTyped, D.IsOmitted, A.ScalarJson, FiniteScalar, JsonToProto, D.Default;
    var f, x, cur := vs[v.index], v.payload, D.Default(D.OneOf(vs));
    OneOfMember(vs, v);
    assert A.TabularFields(vs) && R.IsFirstTag(vs, v.index);
    if f.kind.Message? {
      OneOfMessage(vs, v);
    } else {
      assert A.TableField(f) == ScalarDef(f, f.kind, false);
      ScalarMember(f, f.kind, x);
      var payload := D.ScalarPayload(f.kind, x);
      if D.IsOmitted(f.kind, x) {
        R.EmptyDecodesToDefault(D.OneOf(vs));
      } else if |TagBytes(f.tag, D.WireType(f.kind)) + payload| < MAX_LEN {
        R.ScalarInverts(f.kind, x, []);
        assert payload + [] == payload;
        R.CaseStep(vs, v.index, payload, cur, x);
      }
    }
  }

  lemma {:induction false} OneOfMessage(vs: seq<D.Field>, v: D.Val)
    requires A.Tabular(D.OneOf(vs)) && D.Derivable(D.OneOf(vs)) && D.HasType(D.OneOf(vs), v) && Sendable(D.OneOf(vs), v)
    requires vs[v.index].kind.Message? && R.IsFirstTag(vs, v.index)
    ensures var bs := JsonToProto(JObj(A.ObjectJson(D.OneOf(vs), v)), A.TableOf(vs));
            && bs.Ok?
            && (|bs.value| < MAX_LEN ==> D.Decode(D.OneOf(vs), bs.value) == Ok(Arrives(D.OneOf(vs), v)))
    decreases D.OneOf(vs), 0
  {
    hide D.DecodeCases, EncodeValue, JsonToProto, D.Default, D.Encode, A.ObjectJson;
    var f, x, cur := vs[v.index], v.payload, D.Default(D.OneOf(vs));
    OneOfMember(vs, v);
    NestedValue(f, x);
    TableBytesRead(f.kind.ty, x);
    var inner := JsonToProto(JObj(A.ObjectJson(f.kind.ty, x)), A.TableOf(A.FieldsOf(f.kind.ty))).value;
    PresentPayload(f, x);
    if |LenPrefixed(inner)| < MAX_LEN {
      assert LenPrefixed(inner) + [] == LenPrefixed(inner);
      R.MessageArm(f.kind, f.kind.ty, inner, [], cur, Arrives(f.kind.ty, x));
      R.CaseStep(vs, v.index, LenPrefixed(inner), cur, Arrives(f.kind.ty, x));
    }
  }

  lemma {:induction false} PresentPayload(f: D.Field, x: D.Val)
    requires f.kind.Message? && A.TabularKind(f.kind) && D.HasKind(f.kind, x)
    ensures EncodeMember(A.TableField(f), A.PayloadJson(f.kind, x)) == EncodeValue(A.TableField(f), JObj(A.ObjectJson(f.kind.ty, x)))
  {
    hide EncodeValue, A.ObjectJson, A.NestedTable;
  }

  /**
    The converse of `CodecsAgree`: the JSON view of a value, written by the table-driven encoder under the table
    of its type, always encodes, and the generated decoder reads it back, at every depth, but for optional and
    oneof scalars that hold their default, which the encoder leaves out.
  */
  lemma {:induction false} TableBytesRead(ty: D.MsgTy, v: D.Val)
    requires A.Tabular(ty) && D.Derivable(ty) && D.HasType(ty, v) && Sendable(ty, v)
    ensures var bs := JsonToProto(JObj(A.ObjectJson(ty, v)), A.TableOf(A.FieldsOf(ty)));
            && bs.Ok?
            && (|bs.value| < MAX_LEN ==> D.Decode(ty, bs.value) == Ok(Arrives(ty, v)))
    decreases ty, 2
  {
    hide D.DecodeFields, EncodeFrom, A.FieldsJson, A.TableOf, ArrivesKind, D.Zero;
    match ty
    case Struct(fs) =>
      FieldsRead(fs, v.vals, 0, D.Zeros(fs));
      var bs := JsonToProto(JObj(A.ObjectJson(ty, v)), A.TableOf(fs)).value;
      if |bs| < MAX_LEN { assert D.DecodeFields(fs, bs, D.Zeros(fs)).value == ArriveFields(fs, v.vals); }
    case OneOf(vs) => OneOfReads(vs, v);
  }
}
