/** JSON to protobuf to JSON is normalisation. */
module RuntimeLaws {
  // Source: typeway-grpc/src/proto_codec.rs

  import opened Bytes
  import opened Varint
  import opened Wire
  import opened TextCodecs
  import opened RuntimeCodec

  // ---- tables ----

  predicate UniqueTags(fields: seq<FieldDef>) {
    forall i, j :: 0 <= i < j < |fields| ==> fields[i].tag != fields[j].tag
  }

  predicate UniqueNames(fields: seq<FieldDef>) {
    forall i, j :: 0 <= i < j < |fields| ==> fields[i].name != fields[j].name
  }

  /** Unique tags and names, and a table for every message-typed field, at every depth. */
  predicate WellFormed(fields: seq<FieldDef>) {
    UniqueTags(fields) && UniqueNames(fields) && forall i :: 0 <= i < |fields| ==> WellFormedField(fields[i])
  }

  predicate WellFormedField(f: FieldDef) {
    f.ptype.TNamed? ==> f.nested.Table? && WellFormed(f.nested.fields)
  }

  // ---- what survives ----

  /** A kept value as it comes back: integers wrapped to their width, bytes re-encoded, objects pruned. */
  function NormValue(t: ProtoType, nested: Nested, v: Json): (r: Json)
    decreases nested, 0
  {
    match t
    case TBool => JBool(v == JBool(true))
    case TString => v
    case TBytes => if v.JStr? then Base64Json(BytesOf(v.s)) else v
    case TNamed(_) => if nested.Table? then JObj(NormObject(v, nested.fields)) else v
    case TDouble => if v.JFloat64? && |v.bits| == 8 && Finite64(v.bits) then v else JNull
    case TFloat => if v.JFloat32? && |v.bits| == 4 && Finite32(v.bits) then v else JNull
    case TInt32 => if v.JInt? then JInt(WrapI32(v.n)) else v
    case TSint32 => if v.JInt? then JInt(WrapI32(v.n)) else v
    case TSfixed32 => if v.JInt? then JInt(WrapI32(v.n)) else v
    case TFixed32 => if v.JInt? then JInt(WrapU32(v.n)) else v
    case TInt64 => if v.JInt? then JInt(WrapI64(v.n)) else v
    case TSint64 => if v.JInt? then JInt(WrapI64(v.n)) else v
    case TSfixed64 => if v.JInt? then JInt(WrapI64(v.n)) else v
    case _ => if v.JInt? then JInt(WrapU64(v.n)) else v
  }

  function NormItems(t: ProtoType, nested: Nested, items: seq<Json>): (r: seq<Json>)
    ensures |r| == |items|
    decreases nested, 1
  {
    seq(|items|, i requires 0 <= i < |items| => NormValue(t, nested, items[i]))
  }

  function NormMember(f: FieldDef, v: Json): (r: Json)
    decreases f, 0
  {
    if f.repeated && v.JArr? then JArr(NormItems(f.ptype, f.nested, v.items)) else NormValue(f.ptype, f.nested, v)
  }

  function FindName(fields: seq<FieldDef>, name: string): (i: nat)
    ensures i <= |fields|
    ensures i < |fields| ==> fields[i].name == name
    ensures forall j :: 0 <= j < i ==> fields[j].name != name
  {
    if fields == [] then 0 else if fields[0].name == name then 0 else 1 + FindName(fields[1..], name)
  }

  /** The names that survive: listed, not null, not a proto3 default, not an empty or missing array. */
  predicate Survives(fields: seq<FieldDef>, m: map<string, Json>, name: string) {
    && name in m
    && FindName(fields, name) < |fields|
    && Kept(fields[FindName(fields, name)], m[name])
  }

  function NormObject(j: Json, fields: seq<FieldDef>): (r: map<string, Json>)
    decreases fields, 0
  {
    if j.JObj? then
      map name | name in j.m && Survives(fields, j.m, name) :: NormMember(fields[FindName(fields, name)], j.m[name])
    else map[]
  }

  // ---- one value through payload and wire ----

  lemma {:induction false} VarintReads(v: U64, rest: seq<Byte>)
    ensures ReadWireValue(VarintBytes(v) + rest, 0) == Ok(Read(VarintValue(v), |VarintBytes(v)|))
  {
    ReadVarintInverts(v, rest);
  }

  /** The varint an integer-like value is written as. */
  function IntWire(t: ProtoType, v: Json): (u: U64)
    requires WireTypeFor(t) == 0 && IntPayload(t, v).Ok?
  {
    match t
    case TBool => if v == JBool(true) then 1 else 0
    case TSint32 => ZigzagEncode(WrapI32(v.n))
    case TSint64 => ZigzagEncode(WrapI64(v.n))
    case TInt32 => WrapU64(WrapI64(v.n))
    case TInt64 => WrapU64(WrapI64(v.n))
    case _ => WrapU64(v.n)
  }

  lemma {:induction false} WrapLaws(n: JsonInt)
    ensures WrapI32(WrapI64(n)) == WrapI32(n) && WrapI64(WrapI64(n)) == WrapI64(n)
    ensures WrapI64(WrapU64(WrapI64(n))) == WrapI64(n)
    ensures WrapI32(WrapU64(WrapI64(n))) == WrapI32(n)
  {
    WrapShift(n);
  }

  lemma {:induction false} WrapShift(n: JsonInt)
    ensures WrapI64(n) == n || WrapI64(n) == n - 0x1_0000_0000_0000_0000
    ensures WrapU64(n) == n || WrapU64(n) == n + 0x1_0000_0000_0000_0000
    ensures (n + 0x1_0000_0000_0000_0000) % 0x1_0000_0000 == n % 0x1_0000_0000
    ensures (n - 0x1_0000_0000_0000_0000) % 0x1_0000_0000 == n % 0x1_0000_0000
  {
    Mod32(n, 0x1_0000_0000);
    Mod32(n, -0x1_0000_0000);
  }

  lemma {:induction false} Mod32(n: int, k: int)
    ensures (n + 0x1_0000_0000 * k) % 0x1_0000_0000 == n % 0x1_0000_0000
  {
  }

  lemma {:induction false} IntInverts(t: ProtoType, v: Json)
    requires WireTypeFor(t) == 0 && IntPayload(t, v).Ok?
    ensures IntPayload(t, v).value == VarintBytes(IntWire(t, v))
    ensures VarintToJson(IntWire(t, v), t) == Ok(NormValue(t, NoTable, v))
  {
    if v.JInt? {
      WrapLaws(v.n);
      ZigzagInverse(WrapI32(v.n), 0);
      ZigzagInverse(WrapI64(v.n), 0);
      I32Stable(v.n);
    }
  }

  lemma {:induction false} I32Stable(n: int)
    ensures WrapI32(WrapI32(n)) == WrapI32(n)
    ensures WrapI32(WrapU32(WrapI32(n))) == WrapI32(n)
  {
  }

  lemma {:induction false} LeWidths()
    ensures Pow256(4) == 0x1_0000_0000 && Pow256(8) == 0x1_0000_0000_0000_0000
  {
    assert Pow256(2) == 0x1_0000;
    assert Pow256(6) == 0x1_0000_0000_0000;
  }

  lemma {:induction false} Fixed64Inverts(t: ProtoType, v: Json)
    requires WireTypeFor(t) == 1 && Fixed64Payload(t, v).Ok?
    ensures Fixed64ToJson(Fixed64Payload(t, v).value, t) == Ok(NormValue(t, NoTable, v))
  {
    hide ToLe, FromLe;
    LeWidths();
    if v.JInt? {
      WrapLaws(v.n);
      LeRoundTrip(WrapU64(v.n), 8);
      LeRoundTrip(WrapU64(WrapI64(v.n)), 8);
    }
  }

  lemma {:induction false} Fixed32Inverts(t: ProtoType, v: Json)
    requires WireTypeFor(t) == 5 && Fixed32Payload(t, v).Ok?
    ensures Fixed32ToJson(Fixed32Payload(t, v).value, t) == Ok(NormValue(t, NoTable, v))
  {
    hide ToLe, FromLe;
    LeWidths();
    if v.JInt? {
      WrapLaws(v.n);
      I32Stable(v.n);
      U32OfU64(v.n);
      LeRoundTrip(WrapU32(WrapU64(v.n)), 4);
      LeRoundTrip(WrapU32(WrapI32(WrapI64(v.n))), 4);
    }
  }

  lemma {:induction false} U32OfU64(n: JsonInt)
    ensures WrapU32(WrapU64(n)) == WrapU32(n)
  {
    WrapShift(n);
  }

  /** The wire value a payload reads back as, whatever follows it. */
  lemma {:induction false} PayloadInverts(t: ProtoType, nested: Nested, v: Json, rest: seq<Byte>)
    returns (wv: WireValue)
    requires Payload(t, nested, v).Ok? && |Payload(t, nested, v).value| < MAX_LEN
    requires t.TNamed? ==> nested.Table? && WellFormed(nested.fields)
    ensures WellSized(wv) && (IsPackable(t) ==> !wv.LengthDelimited?)
    ensures ReadWireValue(Payload(t, nested, v).value + rest, WireTypeFor(t))
         == Ok(Read(wv, |Payload(t, nested, v).value|))
    ensures WireToJson(wv, t, nested) == Ok(NormValue(t, nested, v))
    decreases nested, 3
  {
    hide ReadVarint, ReadFixed, ReadLen, IntPayload, Fixed64Payload, Fixed32Payload;
    var payload := Payload(t, nested, v).value;
    if WireTypeFor(t) == 0 {
      IntInverts(t, v);
      VarintReads(IntWire(t, v), rest);
      wv := VarintValue(IntWire(t, v));
    } else if WireTypeFor(t) == 1 {
      Fixed64Inverts(t, v);
      ReadFixedInverts(payload, rest);
      wv := Fixed64(payload);
    } else if WireTypeFor(t) == 5 {
      Fixed32Inverts(t, v);
      ReadFixedInverts(payload, rest);
      wv := Fixed32(payload);
    } else {
      wv := DelimitedInverts(t, nested, v, rest);
    }
  }

  lemma {:induction false} DelimitedInverts(t: ProtoType, nested: Nested, v: Json, rest: seq<Byte>)
    returns (wv: WireValue)
    requires WireTypeFor(t) == 2 && Payload(t, nested, v).Ok? && |Payload(t, nested, v).value| < MAX_LEN
    requires t.TNamed? ==> nested.Table? && WellFormed(nested.fields)
    ensures WellSized(wv)
    ensures ReadWireValue(Payload(t, nested, v).value + rest, 2) == Ok(Read(wv, |Payload(t, nested, v).value|))
    ensures WireToJson(wv, t, nested) == Ok(NormValue(t, nested, v))
    decreases nested, 2
  {
    hide ReadLen;
    var data := if t.TString? then v.s else if t.TBytes? then BytesOf(v.s)
                else JsonToProto(v, nested.fields).value;
    ReadLenInverts(data, rest);
    wv := LengthDelimited(data);
    if t.TNamed? { Normalises(v, nested.fields); }
  }

  // ---- one field through the loop ----

  lemma {:induction false} FindOwn(fields: seq<FieldDef>, i: nat)
    requires i < |fields|
    ensures UniqueTags(fields) ==> FindDef(fields, fields[i].tag) == i
    ensures UniqueNames(fields) ==> FindName(fields, fields[i].name) == i
  {
    assert FindDef(fields, fields[i].tag) <= i;
    assert FindName(fields, fields[i].name) <= i;
  }

  /** A record of a listed field moves the loop past it, into the applied state. */
  lemma {:induction false} RecordStep(fields: seq<FieldDef>, i: nat, wt: WireTy, payload: seq<Byte>, wv: WireValue,
                                      rest: seq<Byte>, st: State, next: State)
    requires UniqueTags(fields) && i < |fields| && WellSized(wv)
    requires ReadWireValue(payload + rest, wt) == Ok(Read(wv, |payload|))
    requires Apply(fields[i], wv, st) == Ok(next)
    ensures DecodeLoop(fields, TagBytes(fields[i].tag, wt) + payload + rest, st) == DecodeLoop(fields, rest, next)
  {
    hide ReadWireValue, Apply, ReadVarint;
    var tag := TagBytes(fields[i].tag, wt);
    Cut(tag, payload, rest);
    ReadTagInverts(fields[i].tag, wt, payload + rest);
    FindOwn(fields, i);
    assert DecodeRecord(fields, tag + payload + rest, st) == Ok(Read(next, |tag + payload|));
    Cut(tag + payload, rest, []);
    assert rest + [] == rest;
  }

  function AddValue(f: FieldDef, v: Json, st: State): (r: State) {
    var j := NormValue(f.ptype, f.nested, v);
    if f.repeated then Push(st, f.name, [j]) else st.(single := st.single[f.name := j])
  }

  /** One encoded value: pushed for a repeated field, stored for a single one. */
  lemma {:induction false} ValueStep(fields: seq<FieldDef>, i: nat, v: Json, rest: seq<Byte>, st: State)
    requires WellFormed(fields) && i < |fields|
    requires EncodeValue(fields[i], v).Ok? && |EncodeValue(fields[i], v).value| < MAX_LEN
    ensures DecodeLoop(fields, EncodeValue(fields[i], v).value + rest, st)
         == DecodeLoop(fields, rest, AddValue(fields[i], v, st))
    decreases fields[i], 0
  {
    hide DecodeLoop, ReadWireValue, Payload, WireToJson, NormValue, WellFormed;
    var f := fields[i];
    FieldIsWellFormed(fields, i);
    var payload := Payload(f.ptype, f.nested, v).value;
    var wv := PayloadInverts(f.ptype, f.nested, v, rest);
    RecordStep(fields, i, WireTypeFor(f.ptype), payload, wv, rest, st, AddValue(f, v, st));
  }

  lemma {:induction false} FieldIsWellFormed(fields: seq<FieldDef>, i: nat)
    requires WellFormed(fields) && i < |fields|
    ensures UniqueTags(fields) && UniqueNames(fields)
    ensures fields[i].ptype.TNamed? ==> fields[i].nested.Table? && WellFormed(fields[i].nested.fields)
  {
    assert WellFormedField(fields[i]);
  }

  lemma {:induction false} NormItemsCons(t: ProtoType, nested: Nested, items: seq<Json>)
    requires items != []
    ensures NormItems(t, nested, items) == [NormValue(t, nested, items[0])] + NormItems(t, nested, items[1..])
  {
  }

  lemma {:induction false} PushPush(st: State, name: string, a: seq<Json>, b: seq<Json>)
    ensures Push(Push(st, name, a), name, b) == Push(st, name, a + b)
  {
    assert Items(st, name) + a + b == Items(st, name) + (a + b);
    assert Push(Push(st, name, a), name, b).many == Push(st, name, a + b).many;
  }

  lemma {:induction false} ItemsStep(fields: seq<FieldDef>, i: nat, items: seq<Json>, rest: seq<Byte>, st: State)
    requires WellFormed(fields) && i < |fields| && fields[i].repeated && items != []
    requires EncodeItems(fields[i], items).Ok? && |EncodeItems(fields[i], items).value| < MAX_LEN
    ensures DecodeLoop(fields, EncodeItems(fields[i], items).value + rest, st)
         == DecodeLoop(fields, rest, Push(st, fields[i].name, NormItems(fields[i].ptype, fields[i].nested, items)))
    decreases fields[i], 1, |items|
  {
    hide DecodeLoop, WellFormed, NormValue, EncodeValue, NormItems, Push;
    var f := fields[i];
    var head := EncodeValue(f, items[0]).value;
    var tail := EncodeItems(f, items[1..]).value;
    var j := NormValue(f.ptype, f.nested, items[0]);
    NormItemsCons(f.ptype, f.nested, items);
    Cut(head, tail, rest);
    ValueStep(fields, i, items[0], tail + rest, st);
    if items[1..] == [] {
      assert tail + rest == rest;
      assert [j] + NormItems(f.ptype, f.nested, items[1..]) == [j];
    } else {
      ItemsStep(fields, i, items[1..], rest, Push(st, f.name, [j]));
      PushPush(st, f.name, [j], NormItems(f.ptype, f.nested, items[1..]));
    }
  }

  /** The state after member `v` of field `f`. */
  function AddMember(f: FieldDef, v: Json, st: State): (r: State) {
    if !Kept(f, v) then st
    else if f.repeated then Push(st, f.name, NormItems(f.ptype, f.nested, v.items))
    else st.(single := st.single[f.name := NormValue(f.ptype, f.nested, v)])
  }

  lemma {:induction false} MemberStep(fields: seq<FieldDef>, i: nat, v: Json, rest: seq<Byte>, st: State)
    requires WellFormed(fields) && i < |fields|
    requires EncodeMember(fields[i], v).Ok? && |EncodeMember(fields[i], v).value| < MAX_LEN
    ensures DecodeLoop(fields, EncodeMember(fields[i], v).value + rest, st)
         == DecodeLoop(fields, rest, AddMember(fields[i], v, st))
    decreases fields[i], 2
  {
    hide DecodeLoop, WellFormed, EncodeValue, NormValue, IsDefault, NormItems;
    if !Kept(fields[i], v) {
      assert EncodeMember(fields[i], v).value == [];
      assert EncodeMember(fields[i], v).value + rest == rest;
    } else if fields[i].repeated {
      ItemsStep(fields, i, v.items, rest, st);
    } else {
      ValueStep(fields, i, v, rest, st);
    }
  }

  // ---- whole objects ----

  /** The loop state once fields before `i` have been read back. */
  ghost function Upto(m: map<string, Json>, fields: seq<FieldDef>, i: nat): (st: State)
    requires i <= |fields|
  {
    if i == 0 then EMPTY
    else
      var st := Upto(m, fields, i - 1);
      if fields[i - 1].name in m then AddMember(fields[i - 1], m[fields[i - 1].name], st) else st
  }

  lemma {:induction false} LoopFrom(m: map<string, Json>, fields: seq<FieldDef>, i: nat)
    requires WellFormed(fields) && i <= |fields|
    requires EncodeFrom(m, fields, i).Ok? && |EncodeFrom(m, fields, i).value| < MAX_LEN
    ensures DecodeLoop(fields, EncodeFrom(m, fields, i).value, Upto(m, fields, i)) == Ok(Upto(m, fields, |fields|))
    decreases fields, |fields| - i
  {
    hide WellFormed, EncodeMember, AddMember;
    if i < |fields| {
      var tail := EncodeFrom(m, fields, i + 1).value;
      if fields[i].name in m {
        MemberStep(fields, i, m[fields[i].name], tail, Upto(m, fields, i));
      } else {
        assert [] + tail == tail;
      }
      LoopFrom(m, fields, i + 1);
    }
  }

  /** Which names the state holds, and with which values. */
  ghost predicate Holds(m: map<string, Json>, fields: seq<FieldDef>, i: nat, st: State)
    requires i <= |fields|
  {
    && (forall name :: name in st.single ==> name in m && FindName(fields, name) < i)
    && (forall name :: name in st.many ==> name in m && FindName(fields, name) < i)
    && (forall k :: 0 <= k < i ==> HoldsField(m, fields[k], st))
  }

  ghost predicate HoldsField(m: map<string, Json>, f: FieldDef, st: State) {
    if f.name in m && Kept(f, m[f.name]) then
      if f.repeated then
        f.name !in st.single && f.name in st.many && JArr(st.many[f.name]) == NormMember(f, m[f.name])
      else
        f.name in st.single && f.name !in st.many && st.single[f.name] == NormMember(f, m[f.name])
    else
      f.name !in st.single && f.name !in st.many
  }

  lemma {:induction false} UptoHolds(m: map<string, Json>, fields: seq<FieldDef>, i: nat)
    requires UniqueNames(fields) && i <= |fields|
    ensures Holds(m, fields, i, Upto(m, fields, i))
  {
    hide NormValue, NormItems, Kept;
    if i > 0 {
      UptoHolds(m, fields, i - 1);
      FindOwn(fields, i - 1);
      AddHolds(m, fields, i - 1, Upto(m, fields, i - 1));
    }
  }

  lemma {:induction false} AddHolds(m: map<string, Json>, fields: seq<FieldDef>, i: nat, st: State)
    requires UniqueNames(fields) && i < |fields| && Holds(m, fields, i, st) && FindName(fields, fields[i].name) == i
    ensures var next := if fields[i].name in m then AddMember(fields[i], m[fields[i].name], st) else st;
            Holds(m, fields, i + 1, next)
  {
    hide AddMember, HoldsField, FindName;
    var f := fields[i];
    var next := if f.name in m then AddMember(f, m[f.name], st) else st;
    assert f.name !in st.single && f.name !in st.many;
    OwnHolds(m, f, st);
    forall k | 0 <= k < i ensures HoldsField(m, fields[k], next) {
      OtherHolds(m, f, fields[k], st);
    }
    AddNames(m, f, st);
  }

  lemma {:induction false} OwnHolds(m: map<string, Json>, f: FieldDef, st: State)
    requires f.name !in st.single && f.name !in st.many
    ensures HoldsField(m, f, if f.name in m then AddMember(f, m[f.name], st) else st)
  {
    hide NormValue, NormItems, IsDefault;
    if f.name in m && f.repeated && Kept(f, m[f.name]) {
      assert [] + NormItems(f.ptype, f.nested, m[f.name].items) == NormItems(f.ptype, f.nested, m[f.name].items);
    }
  }

  lemma {:induction false} OtherHolds(m: map<string, Json>, f: FieldDef, g: FieldDef, st: State)
    requires f.name != g.name && HoldsField(m, g, st)
    ensures HoldsField(m, g, if f.name in m then AddMember(f, m[f.name], st) else st)
  {
    hide NormValue, NormItems, Kept, NormMember;
  }

  lemma {:induction false} AddNames(m: map<string, Json>, f: FieldDef, st: State)
    ensures var next := if f.name in m then AddMember(f, m[f.name], st) else st;
            && (forall name :: name in next.single ==> name in st.single || (name == f.name && name in m))
            && (forall name :: name in next.many ==> name in st.many || (name == f.name && name in m))
  {
    hide NormValue, NormItems, Kept;
  }

  lemma {:induction false} FinishIsNorm(m: map<string, Json>, fields: seq<FieldDef>, st: State)
    requires Holds(m, fields, |fields|, st)
    ensures Finish(st) == NormObject(JObj(m), fields)
  {
    hide NormMember, Kept;
    var a, b := Finish(st), NormObject(JObj(m), fields);
    forall name ensures name in a <==> name in b {
      var k := FindName(fields, name);
      if k < |fields| { assert HoldsField(m, fields[k], st); }
    }
    forall name | name in a ensures a[name] == b[name] {
      var k := FindName(fields, name);
      assert HoldsField(m, fields[k], st);
    }
  }

  /**
    JSON to protobuf to JSON is normalisation at every nesting depth: whenever a value encodes,
    decoding the bytes under the same table returns exactly its normal form.
  */
  lemma {:induction false} Normalises(j: Json, fields: seq<FieldDef>)
    requires WellFormed(fields) && JsonToProto(j, fields).Ok? && |JsonToProto(j, fields).value| < MAX_LEN
    ensures ProtoToJson(JsonToProto(j, fields).value, fields) == Ok(JObj(NormObject(j, fields)))
    decreases fields, |fields| + 1
  {
    hide DecodeLoop, EncodeFrom, NormObject, Upto, Finish, Holds;
    if j.JObj? {
      LoopFrom(j.m, fields, 0);
      UptoStart(j.m, fields);
      UptoHolds(j.m, fields, |fields|);
      FinishIsNorm(j.m, fields, Upto(j.m, fields, |fields|));
    } else {
      EmptyMessage(j, fields);
    }
  }

  lemma {:induction false} UptoStart(m: map<string, Json>, fields: seq<FieldDef>)
    ensures Upto(m, fields, 0) == EMPTY
  {
  }

  lemma {:induction false} EmptyMessage(j: Json, fields: seq<FieldDef>)
    requires !j.JObj?
    ensures ProtoToJson([], fields) == Ok(JObj(NormObject(j, fields)))
  {
    assert Finish(EMPTY) == map[];
  }

  // ---- canonical input: nothing changes but the omissions ----

  /** In range for the type, a finite float of the right width, canonical base64. */
  predicate CanonicalScalar(t: ProtoType, v: Json) {
    match t
    case TBool => v.JBool?
    case TString => v.JStr?
    case TBytes => v.JStr? && v.s == Base64(BytesOf(v.s))
    case TNamed(_) => false
    case TDouble => v.JFloat64? && |v.bits| == 8 && Finite64(v.bits)
    case TFloat => v.JFloat32? && |v.bits| == 4 && Finite32(v.bits)
    case TInt32 => v.JInt? && -0x8000_0000 <= v.n < 0x8000_0000
    case TSint32 => v.JInt? && -0x8000_0000 <= v.n < 0x8000_0000
    case TSfixed32 => v.JInt? && -0x8000_0000 <= v.n < 0x8000_0000
    case TFixed32 => v.JInt? && 0 <= v.n < 0x1_0000_0000
    case TInt64 => v.JInt? && v.n < 0x8000_0000_0000_0000
    case TSint64 => v.JInt? && v.n < 0x8000_0000_0000_0000
    case TSfixed64 => v.JInt? && v.n < 0x8000_0000_0000_0000
    case _ => v.JInt? && 0 <= v.n
  }

  predicate CanonicalValue(t: ProtoType, nested: Nested, v: Json)
    decreases nested, 0
  {
    if t.TNamed? then nested.Table? && v.JObj? && CanonicalObject(v.m, nested.fields)
    else CanonicalScalar(t, v)
  }

  predicate CanonicalMember(f: FieldDef, v: Json)
    decreases f, 0
  {
    if f.repeated then v.JArr? ==> forall i :: 0 <= i < |v.items| ==> CanonicalValue(f.ptype, f.nested, v.items[i])
    else Kept(f, v) ==> CanonicalValue(f.ptype, f.nested, v)
  }

  predicate CanonicalObject(m: map<string, Json>, fields: seq<FieldDef>)
    decreases fields, 0
  {
    forall i :: 0 <= i < |fields| ==> fields[i].name in m ==> CanonicalMember(fields[i], m[fields[i].name])
  }

  /** Only omissions, at every depth. */
  function PruneValue(t: ProtoType, nested: Nested, v: Json): (r: Json)
    decreases nested, 0
  {
    if t.TNamed? && nested.Table? && v.JObj? then JObj(PruneObject(v.m, nested.fields)) else v
  }

  function PruneMember(f: FieldDef, v: Json): (r: Json)
    decreases f, 0
  {
    if f.repeated && v.JArr? then
      JArr(seq(|v.items|, i requires 0 <= i < |v.items| => PruneValue(f.ptype, f.nested, v.items[i])))
    else PruneValue(f.ptype, f.nested, v)
  }

  /** The object without nulls, proto3 defaults, unlisted names and empty arrays. */
  function PruneObject(m: map<string, Json>, fields: seq<FieldDef>): (r: map<string, Json>)
    decreases fields, 0
  {
    map name | name in m && Survives(fields, m, name) :: PruneMember(fields[FindName(fields, name)], m[name])
  }

  lemma {:induction false} ScalarIsNormal(t: ProtoType, nested: Nested, v: Json)
    requires CanonicalScalar(t, v)
    ensures NormValue(t, nested, v) == v
  {
  }

  lemma {:induction false} ScalarEncodes(t: ProtoType, nested: Nested, v: Json)
    requires CanonicalScalar(t, v)
    ensures Payload(t, nested, v).Ok?
  {
  }

  lemma {:induction false} ValueIsPruned(t: ProtoType, nested: Nested, v: Json)
    requires CanonicalValue(t, nested, v) && (t.TNamed? ==> WellFormed(nested.fields))
    ensures NormValue(t, nested, v) == PruneValue(t, nested, v) && Payload(t, nested, v).Ok?
    decreases nested, 1
  {
    if t.TNamed? {
      ObjectIsPruned(v.m, nested.fields);
    } else {
      ScalarIsNormal(t, nested, v);
      ScalarEncodes(t, nested, v);
    }
  }

  lemma {:induction false} ItemsEncode(f: FieldDef, items: seq<Json>)
    requires WellFormedField(f) && forall i :: 0 <= i < |items| ==> CanonicalValue(f.ptype, f.nested, items[i])
    ensures EncodeItems(f, items).Ok?
    ensures forall i :: 0 <= i < |items| ==>
              NormValue(f.ptype, f.nested, items[i]) == PruneValue(f.ptype, f.nested, items[i])
    decreases f, 1, |items|
  {
    hide NormValue, PruneValue, CanonicalValue, Payload;
    if items != [] {
      ValueIsPruned(f.ptype, f.nested, items[0]);
      ItemsEncode(f, items[1..]);
      forall i | 0 <= i < |items|
        ensures NormValue(f.ptype, f.nested, items[i]) == PruneValue(f.ptype, f.nested, items[i]) {
        if i > 0 { assert items[i] == items[1..][i - 1]; }
      }
    }
  }

  lemma {:induction false} MemberIsPruned(f: FieldDef, v: Json)
    requires WellFormedField(f) && CanonicalMember(f, v)
    ensures EncodeMember(f, v).Ok?
    ensures Kept(f, v) ==> NormMember(f, v) == PruneMember(f, v)
    decreases f, 2
  {
    hide NormValue, PruneValue, CanonicalValue, Payload, IsDefault;
    if f.repeated {
      if v.JArr? {
        ItemsEncode(f, v.items);
      }
    } else if Kept(f, v) {
      ValueIsPruned(f.ptype, f.nested, v);
    }
  }

  lemma {:induction false} FieldsEncode(m: map<string, Json>, fields: seq<FieldDef>, i: nat)
    requires WellFormed(fields) && CanonicalObject(m, fields) && i <= |fields|
    ensures EncodeFrom(m, fields, i).Ok?
    decreases fields, 1, |fields| - i
  {
    hide EncodeMember, CanonicalMember, NormMember, PruneMember;
    if i < |fields| {
      if fields[i].name in m {
        assert WellFormedField(fields[i]);
        MemberIsPruned(fields[i], m[fields[i].name]);
      }
      FieldsEncode(m, fields, i + 1);
    }
  }

  lemma {:induction false} ObjectIsPruned(m: map<string, Json>, fields: seq<FieldDef>)
    requires WellFormed(fields) && CanonicalObject(m, fields)
    ensures JsonToProto(JObj(m), fields).Ok?
    ensures NormObject(JObj(m), fields) == PruneObject(m, fields)
    decreases fields, 2
  {
    hide EncodeMember, CanonicalMember, NormMember, PruneMember, Kept;
    FieldsEncode(m, fields, 0);
    forall name | name in m && Survives(fields, m, name)
      ensures NormMember(fields[FindName(fields, name)], m[name]) == PruneMember(fields[FindName(fields, name)], m[name])
    {
      var i := FindName(fields, name);
      assert WellFormedField(fields[i]);
      MemberIsPruned(fields[i], m[name]);
    }
  }

  /** Canonical objects always encode, and come back with nothing changed but the omissions. */
  lemma {:induction false} CanonicalRoundTrip(m: map<string, Json>, fields: seq<FieldDef>)
    requires WellFormed(fields) && CanonicalObject(m, fields)
    requires JsonToProto(JObj(m), fields).Ok? ==> |JsonToProto(JObj(m), fields).value| < MAX_LEN
    ensures JsonToProto(JObj(m), fields).Ok?
    ensures ProtoToJson(JsonToProto(JObj(m), fields).value, fields) == Ok(JObj(PruneObject(m, fields)))
  {
    hide JsonToProto, ProtoToJson, NormObject, PruneObject;
    ObjectIsPruned(m, fields);
    Normalises(JObj(m), fields);
  }

  // ---- what a reader with proto3 defaults sees ----

  /** The value a reader takes for a scalar that is not there. */
  function ZeroOf(t: ProtoType): (v: Json) {
    match t
    case TBool => JBool(false)
    case TString => JStr([])
    case TBytes => JStr([])
    case TDouble => JFloat64([0, 0, 0, 0, 0, 0, 0, 0])
    case TFloat => JFloat32([0, 0, 0, 0])
    case _ => JInt(0)
  }

  /** A singular scalar as read: missing and null stand for the zero. */
  function ReadScalar(m: map<string, Json>, f: FieldDef): (v: Json) {
    if f.name in m && !m[f.name].JNull? then m[f.name] else ZeroOf(f.ptype)
  }

  /** The items of a repeated field as read: missing and null stand for none. */
  function ReadItems(m: map<string, Json>, f: FieldDef): (items: seq<Json>) {
    if f.name in m && m[f.name].JArr? then m[f.name].items else []
  }

  predicate HasMessage(m: map<string, Json>, f: FieldDef) { f.name in m && !m[f.name].JNull? }

  /** The same scalar, up to the sign of a float zero. */
  predicate SameScalar(a: Json, b: Json) {
    || a == b
    || (a == JFloat64([0, 0, 0, 0, 0, 0, 0, 0x80]) && b == JFloat64([0, 0, 0, 0, 0, 0, 0, 0]))
    || (a == JFloat32([0, 0, 0, 0x80]) && b == JFloat32([0, 0, 0, 0]))
  }

  predicate AlikeValue(t: ProtoType, nested: Nested, a: Json, b: Json)
    decreases nested, 0
  {
    if t.TNamed? && nested.Table? then a.JObj? && b.JObj? && Alike(a.m, b.m, nested.fields) else a == b
  }

  predicate AlikeField(f: FieldDef, m: map<string, Json>, n: map<string, Json>)
    decreases f, 1
  {
    if f.repeated then
      && |ReadItems(m, f)| == |ReadItems(n, f)|
      && forall i :: 0 <= i < |ReadItems(m, f)| ==> AlikeValue(f.ptype, f.nested, ReadItems(m, f)[i], ReadItems(n, f)[i])
    else if f.ptype.TNamed? then
      && (HasMessage(m, f) <==> HasMessage(n, f))
      && (HasMessage(m, f) ==> AlikeValue(f.ptype, f.nested, m[f.name], n[f.name]))
    else SameScalar(ReadScalar(m, f), ReadScalar(n, f))
  }

  /** Every listed field reads the same, at every depth. */
  predicate Alike(m: map<string, Json>, n: map<string, Json>, fields: seq<FieldDef>)
    decreases fields, 0
  {
    forall i :: 0 <= i < |fields| ==> AlikeField(fields[i], m, n)
  }

  /** Every listed member is null or of its type: in range, finite, canonical base64, at every depth. */
  predicate TypedValue(t: ProtoType, nested: Nested, v: Json)
    decreases nested, 0
  {
    if t.TNamed? then nested.Table? && v.JObj? && TypedObject(v.m, nested.fields) else CanonicalScalar(t, v)
  }

  predicate TypedField(f: FieldDef, v: Json)
    decreases f, 1
  {
    v.JNull? ||
    if f.repeated then v.JArr? && forall i :: 0 <= i < |v.items| ==> TypedValue(f.ptype, f.nested, v.items[i])
    else TypedValue(f.ptype, f.nested, v)
  }

  predicate TypedObject(m: map<string, Json>, fields: seq<FieldDef>)
    decreases fields, 0
  {
    forall i :: 0 <= i < |fields| ==> fields[i].name in m ==> TypedField(fields[i], m[fields[i].name])
  }

  lemma {:induction false} TypedIsCanonical(m: map<string, Json>, fields: seq<FieldDef>)
    requires TypedObject(m, fields)
    ensures CanonicalObject(m, fields)
    decreases fields, 0
  {
    hide CanonicalScalar, Kept;
    forall i | 0 <= i < |fields| && fields[i].name in m ensures CanonicalMember(fields[i], m[fields[i].name]) {
      var f, v := fields[i], m[fields[i].name];
      assert TypedField(f, v);
      if v.JNull? {
        NullIsDropped(f);
      } else if f.repeated {
        forall k | 0 <= k < |v.items| ensures CanonicalValue(f.ptype, f.nested, v.items[k]) {
          TypedValueIsCanonical(f.ptype, f.nested, v.items[k]);
        }
      } else {
        TypedValueIsCanonical(f.ptype, f.nested, v);
      }
    }
  }

  lemma {:induction false} NullIsDropped(f: FieldDef)
    ensures !Kept(f, JNull)
  {
  }

  lemma {:induction false} TypedValueIsCanonical(t: ProtoType, nested: Nested, v: Json)
    requires TypedValue(t, nested, v)
    ensures CanonicalValue(t, nested, v)
    decreases nested, 1
  {
    hide CanonicalScalar;
    if t.TNamed? { TypedIsCanonical(v.m, nested.fields); }
  }

  /** A scalar of its type that is left out reads as the zero. */
  lemma {:induction false} DroppedIsZero(f: FieldDef, v: Json)
    requires !f.repeated && !f.ptype.TNamed? && CanonicalScalar(f.ptype, v)
    ensures !Kept(f, v) <==> SameScalar(v, ZeroOf(f.ptype))
  {
    if f.ptype.TDouble? { ZeroBits8(v.bits); }
    if f.ptype.TFloat? { ZeroBits4(v.bits); }
  }

  lemma {:induction false} ZeroBits8(bits: seq<Byte>)
    requires |bits| == 8
    ensures IsZeroFloat(bits) <==> bits == [0, 0, 0, 0, 0, 0, 0, 0] || bits == [0, 0, 0, 0, 0, 0, 0, 0x80]
  {
    if IsZeroFloat(bits) {
      assert bits[0] == 0 && bits[1] == 0 && bits[2] == 0 && bits[3] == 0 && bits[4] == 0 && bits[5] == 0 && bits[6] == 0;
    }
  }

  lemma {:induction false} ZeroBits4(bits: seq<Byte>)
    requires |bits| == 4
    ensures IsZeroFloat(bits) <==> bits == [0, 0, 0, 0] || bits == [0, 0, 0, 0x80]
  {
    if IsZeroFloat(bits) { assert bits[0] == 0 && bits[1] == 0 && bits[2] == 0; }
  }

  lemma {:induction false} PrunedAlike(m: map<string, Json>, fields: seq<FieldDef>)
    requires UniqueNames(fields) && WellFormed(fields) && TypedObject(m, fields)
    ensures Alike(m, PruneObject(m, fields), fields)
    decreases fields, 2
  {
    hide AlikeField, WellFormed, TypedField, UniqueNames;
    forall i | 0 <= i < |fields| ensures AlikeField(fields[i], m, PruneObject(m, fields)) {
      FieldIsWellFormed(fields, i);
      FindOwn(fields, i);
      FieldAlike(fields, i, m);
    }
  }

  lemma {:induction false} FieldAlike(fields: seq<FieldDef>, i: nat, m: map<string, Json>)
    requires i < |fields| && FindName(fields, fields[i].name) == i
    requires fields[i].ptype.TNamed? ==> fields[i].nested.Table? && WellFormed(fields[i].nested.fields)
    requires fields[i].name in m ==> TypedField(fields[i], m[fields[i].name])
    ensures AlikeField(fields[i], m, PruneObject(m, fields))
    decreases fields, 1
  {
    hide CanonicalScalar, Kept, AlikeValue, TypedValue, PruneValue, SameScalar, WellFormed;
    var f, n := fields[i], PruneObject(m, fields);
    PrunedAt(fields, i, m);
    if f.name in m && !m[f.name].JNull? {
      var v := m[f.name];
      if f.repeated {
        ArrayKept(f, v);
        forall k | 0 <= k < |v.items| ensures AlikeValue(f.ptype, f.nested, v.items[k], PruneValue(f.ptype, f.nested, v.items[k])) {
          ValueAlike(f.ptype, f.nested, v.items[k]);
        }
      } else if f.ptype.TNamed? {
        MessageKept(f, v);
        ValueAlike(f.ptype, f.nested, v);
      } else {
        ScalarAlike(f, v);
      }
    } else {
      NullIsDropped(f);
      SameAsItself(ZeroOf(f.ptype));
    }
  }

  lemma {:induction false} PrunedAt(fields: seq<FieldDef>, i: nat, m: map<string, Json>)
    requires i < |fields| && FindName(fields, fields[i].name) == i
    ensures var f, n := fields[i], PruneObject(m, fields);
            && (f.name in n <==> f.name in m && Kept(f, m[f.name]))
            && (f.name in n ==> n[f.name] == PruneMember(f, m[f.name]))
  {
    hide Kept, PruneMember, FindName;
  }

  lemma {:induction false} ArrayKept(f: FieldDef, v: Json)
    requires f.repeated && v.JArr?
    ensures Kept(f, v) <==> v.items != []
  {
  }

  lemma {:induction false} MessageKept(f: FieldDef, v: Json)
    requires !f.repeated && f.ptype.TNamed? && !v.JNull? && TypedValue(f.ptype, f.nested, v)
    ensures Kept(f, v) && PruneMember(f, v) == PruneValue(f.ptype, f.nested, v) && !PruneMember(f, v).JNull?
  {
  }

  lemma {:induction false} SameAsItself(v: Json)
    ensures SameScalar(v, v)
  {
  }

  lemma {:induction false} ScalarAlike(f: FieldDef, v: Json)
    requires !f.repeated && !f.ptype.TNamed? && TypedValue(f.ptype, f.nested, v)
    ensures PruneMember(f, v) == v
    ensures SameScalar(v, if Kept(f, v) then v else ZeroOf(f.ptype))
  {
    hide CanonicalScalar, Kept;
    DroppedIsZero(f, v);
  }

  lemma {:induction false} ValueAlike(t: ProtoType, nested: Nested, v: Json)
    requires TypedValue(t, nested, v) && (t.TNamed? ==> nested.Table? && WellFormed(nested.fields))
    ensures AlikeValue(t, nested, v, PruneValue(t, nested, v))
    decreases nested, 3
  {
    hide CanonicalScalar;
    if t.TNamed? { PrunedAlike(v.m, nested.fields); }
  }

  /**
    For a reader with proto3 defaults nothing changes: every listed field of a typed object reads the same after
    encoding and decoding, scalars against the zero of their type, arrays against no items, messages by their
    presence, at every depth; and no scalar that comes back is itself a zero.
  */
  lemma {:induction false} ReadsTheSame(m: map<string, Json>, fields: seq<FieldDef>)
    requires WellFormed(fields) && TypedObject(m, fields)
    requires JsonToProto(JObj(m), fields).Ok? ==> |JsonToProto(JObj(m), fields).value| < MAX_LEN
    ensures var bs := JsonToProto(JObj(m), fields);
            && bs.Ok?
            && var back := ProtoToJson(bs.value, fields);
               && back.Ok? && back.value.JObj? && Alike(m, back.value.m, fields)
               && forall i :: 0 <= i < |fields| ==>
                    !fields[i].repeated && !fields[i].ptype.TNamed? && fields[i].name in back.value.m ==>
                    !SameScalar(back.value.m[fields[i].name], ZeroOf(fields[i].ptype))
  {
    hide JsonToProto, ProtoToJson, PruneObject, Alike, SameScalar, TypedField, Kept;
    TypedIsCanonical(m, fields);
    CanonicalRoundTrip(m, fields);
    WellFormedTables(fields);
    PrunedAlike(m, fields);
    forall i | 0 <= i < |fields| && !fields[i].repeated && !fields[i].ptype.TNamed? && fields[i].name in PruneObject(m, fields)
      ensures !SameScalar(PruneObject(m, fields)[fields[i].name], ZeroOf(fields[i].ptype)) {
      FindOwn(fields, i);
      PrunedAt(fields, i, m);
      ZeroNotKept(fields[i], m[fields[i].name]);
    }
  }

  lemma {:induction false} WellFormedTables(fields: seq<FieldDef>)
    requires WellFormed(fields)
    ensures UniqueNames(fields) && UniqueTags(fields)
  {
  }

  lemma {:induction false} ZeroNotKept(f: FieldDef, v: Json)
    requires !f.repeated && !f.ptype.TNamed? && TypedField(f, v) && Kept(f, v)
    ensures PruneMember(f, v) == v && !SameScalar(v, ZeroOf(f.ptype))
  {
    hide CanonicalScalar;
    if !v.JNull? { DroppedIsZero(f, v); }
  }
}
