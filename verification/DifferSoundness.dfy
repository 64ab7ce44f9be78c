/** The differ against the bytes. */
module DifferSoundness {
  // Source: typeway-grpc/src/diff.rs, typeway-grpc/src/transcode.rs, typeway-grpc/src/proto_codec.rs

  import opened Bytes
  import opened Varint
  import opened Wire
  import opened TextCodecs
  import opened RuntimeCodec
  import opened RuntimeLaws
  import opened RuntimeStreams
  import opened Schema
  import opened Differ

  // ---- evolving field tables ----

  /** A value of this field can be decoded: scalar, or a message whose table is known. */
  predicate Readable(f: FieldDef) { f.ptype.TNamed? ==> f.nested.Table? }

  /** Every field of `was` is found in `now` by tag, with its type and, at every depth, its table. */
  ghost predicate Evolves(was: seq<FieldDef>, now: seq<FieldDef>) {
    && UniqueTags(was) && UniqueNames(was) && UniqueTags(now) && UniqueNames(now)
    && forall i :: 0 <= i < |was| ==> EvolvesField(was[i], now)
  }

  ghost predicate EvolvesField(f: FieldDef, now: seq<FieldDef>) {
    var j := FindDef(now, f.tag);
    && j < |now| && now[j].ptype == f.ptype
    && (Readable(f) ==> now[j].repeated == f.repeated)
    && (now[j].nested.Table? ==> f.ptype.TNamed?)
    && (f.nested.Table? ==> now[j].nested.Table? && Evolves(f.nested.fields, now[j].nested.fields))
  }

  /** The field of `now` that reads what field `i` of `was` wrote. */
  function Heir(was: seq<FieldDef>, now: seq<FieldDef>, i: nat): (g: FieldDef)
    requires i < |was| && FindDef(now, was[i].tag) < |now|
  {
    now[FindDef(now, was[i].tag)]
  }

  /** The new reading of a value: equal, or an object carried over in turn. */
  ghost predicate CarriedValue(f: FieldDef, g: FieldDef, a: Json, b: Json)
    decreases f, 0
  {
    if f.nested.Table? && g.nested.Table? then
      a.JObj? && b.JObj? && Carried(a.m, b.m, f.nested.fields, g.nested.fields)
    else a == b
  }

  ghost predicate CarriedItems(f: FieldDef, g: FieldDef, a: seq<Json>, b: seq<Json>)
    decreases f, 1
  {
    |a| == |b| && forall k :: 0 <= k < |a| ==> CarriedValue(f, g, a[k], b[k])
  }

  ghost predicate CarriedJson(f: FieldDef, g: FieldDef, a: Json, b: Json)
    decreases f, 2
  {
    if a.JArr? then b.JArr? && CarriedItems(f, g, a.items, b.items) else CarriedValue(f, g, a, b)
  }

  /** The new object holds, under the heirs' names, exactly what the old one holds, and nothing else. */
  ghost predicate Carried(a: map<string, Json>, b: map<string, Json>, was: seq<FieldDef>, now: seq<FieldDef>)
    decreases was
  {
    && (forall i :: 0 <= i < |was| ==> CarriedMember(a, b, was, now, i))
    && (forall name :: name in a ==> exists i :: 0 <= i < |was| && was[i].name == name)
    && (forall name :: name in b ==> exists i :: 0 <= i < |was| && HeirName(was, now, i, name))
  }

  ghost predicate CarriedMember(a: map<string, Json>, b: map<string, Json>, was: seq<FieldDef>, now: seq<FieldDef>, i: nat)
    requires i < |was|
    decreases was, 1
  {
    && FindDef(now, was[i].tag) < |now|
    && var f, g := was[i], Heir(was, now, i);
       (f.name in a <==> g.name in b) && (f.name in a ==> CarriedJson(f, g, a[f.name], b[g.name]))
  }

  predicate HeirName(was: seq<FieldDef>, now: seq<FieldDef>, i: nat, name: string)
    requires i < |was|
  {
    FindDef(now, was[i].tag) < |now| && Heir(was, now, i).name == name
  }

  /** Every tag in the bytes is listed, at every depth. */
  ghost predicate Known(bs: seq<Byte>, fields: seq<FieldDef>)
    decreases fields, |bs|
  {
    bs == [] ||
    match ReadVarint(bs)
    case Err(_) => true
    case Ok(t) =>
      var body, i := bs[t.consumed..], FindDef(fields, FieldNumber(t.value));
      i < |fields| &&
      match ReadWireValue(body, t.value % 8)
      case Err(_) => true
      case Ok(wv) => KnownValue(wv.value, fields[i]) && Known(body[wv.consumed..], fields)
  }

  ghost predicate KnownValue(wv: WireValue, f: FieldDef)
    decreases f
  {
    wv.LengthDelimited? && f.ptype.TNamed? && f.nested.Table? ==> Known(wv.data, f.nested.fields)
  }

  // ---- decode states ----

  ghost predicate CarriedSlot(f: FieldDef, g: FieldDef, s: State, t: State) {
    && (f.name in s.single <==> g.name in t.single)
    && (f.name in s.single ==> CarriedValue(f, g, s.single[f.name], t.single[g.name]))
    && (f.name in s.many <==> g.name in t.many)
    && (f.name in s.many ==> CarriedItems(f, g, s.many[f.name], t.many[g.name]))
  }

  ghost predicate CarriedState(was: seq<FieldDef>, now: seq<FieldDef>, s: State, t: State) {
    && (forall i :: 0 <= i < |was| ==> FindDef(now, was[i].tag) < |now| && CarriedSlot(was[i], Heir(was, now, i), s, t))
    && (forall name :: name in s.single || name in s.many ==> exists i :: 0 <= i < |was| && was[i].name == name)
    && (forall name :: name in t.single || name in t.many ==> exists i :: 0 <= i < |was| && HeirName(was, now, i, name))
  }

  lemma {:induction false} HeirsDiffer(was: seq<FieldDef>, now: seq<FieldDef>, i: nat, k: nat)
    requires Evolves(was, now) && i < |was| && k < |was| && i != k
    requires FindDef(now, was[i].tag) < |now| && FindDef(now, was[k].tag) < |now|
    ensures was[i].name != was[k].name && Heir(was, now, i).name != Heir(was, now, k).name
  {
    hide EvolvesField;
    assert was[i].tag != was[k].tag;
  }

  /** The same raw value, stored by both loops. */
  function Store(f: FieldDef, js: seq<Json>, st: State): (r: State)
    requires f.repeated || |js| == 1
  {
    if f.repeated then Push(st, f.name, js) else st.(single := st.single[f.name := js[0]])
  }

  lemma {:induction false} StoreSlot(f: FieldDef, g: FieldDef, js: seq<Json>, ks: seq<Json>, s: State, t: State)
    requires f.repeated == g.repeated && (f.repeated || |js| == 1) && CarriedItems(f, g, js, ks)
    requires CarriedSlot(f, g, s, t)
    ensures CarriedSlot(f, g, Store(f, js, s), Store(g, ks, t))
  {
    hide CarriedValue;
    if f.repeated {
      var a, b := Items(s, f.name), Items(t, g.name);
      assert CarriedItems(f, g, a, b);
      ItemsAppend(f, g, a, b, js, ks);
    }
  }

  lemma {:induction false} ItemsAppend(f: FieldDef, g: FieldDef, a: seq<Json>, b: seq<Json>, js: seq<Json>, ks: seq<Json>)
    requires CarriedItems(f, g, a, b) && CarriedItems(f, g, js, ks)
    ensures CarriedItems(f, g, a + js, b + ks)
  {
    hide CarriedValue;
  }

  lemma {:induction false} StoreOther(f: FieldDef, g: FieldDef, f2: FieldDef, g2: FieldDef,
                                      js: seq<Json>, ks: seq<Json>, s: State, t: State)
    requires (f.repeated || |js| == 1) && (g.repeated || |ks| == 1)
    requires f.name != f2.name && g.name != g2.name && CarriedSlot(f2, g2, s, t)
    ensures CarriedSlot(f2, g2, Store(f, js, s), Store(g, ks, t))
  {
    hide CarriedValue, CarriedItems;
  }

  lemma {:induction false} StoreNames(f: FieldDef, js: seq<Json>, st: State)
    requires f.repeated || |js| == 1
    ensures forall name :: name in Store(f, js, st).single || name in Store(f, js, st).many ==>
              name == f.name || name in st.single || name in st.many
  {
  }

  lemma {:induction false} StoreCarries(was: seq<FieldDef>, now: seq<FieldDef>, k: nat,
                                        js: seq<Json>, ks: seq<Json>, s: State, t: State)
    requires Evolves(was, now) && k < |was| && FindDef(now, was[k].tag) < |now| && CarriedState(was, now, s, t)
    requires was[k].repeated == Heir(was, now, k).repeated && (was[k].repeated || |js| == 1)
    requires CarriedItems(was[k], Heir(was, now, k), js, ks)
    ensures CarriedState(was, now, Store(was[k], js, s), Store(Heir(was, now, k), ks, t))
  {
    hide CarriedSlot, Store, CarriedValue, Evolves;
    var f, g := was[k], Heir(was, now, k);
    StoreSlot(f, g, js, ks, s, t);
    forall i | 0 <= i < |was| ensures CarriedSlot(was[i], Heir(was, now, i), Store(f, js, s), Store(g, ks, t)) {
      if i != k {
        HeirsDiffer(was, now, i, k);
        StoreOther(f, g, was[i], Heir(was, now, i), js, ks, s, t);
      }
    }
    StoreNames(f, js, s);
    StoreNames(g, ks, t);
    assert HeirName(was, now, k, g.name);
  }

  /** What `Apply` stores. */
  lemma {:induction false} ApplyStores(f: FieldDef, wv: WireValue, st: State, next: State) returns (js: seq<Json>)
    requires WellSized(wv) && Apply(f, wv, st) == Ok(next)
    ensures (f.repeated || |js| == 1) && next == Store(f, js, st)
    ensures f.repeated && wv.LengthDelimited? && IsPackable(f.ptype) ==> UnpackScalars(wv.data, f.ptype) == Ok(js)
    ensures !(f.repeated && wv.LengthDelimited? && IsPackable(f.ptype)) ==>
              |js| == 1 && WireToJson(wv, f.ptype, f.nested) == Ok(js[0])
  {
    hide UnpackScalars, WireToJson, Push;
    if f.repeated && wv.LengthDelimited? && IsPackable(f.ptype) {
      js := UnpackScalars(wv.data, f.ptype).value;
    } else {
      js := [WireToJson(wv, f.ptype, f.nested).value];
    }
  }

  lemma {:induction false} SameItems(f: FieldDef, g: FieldDef, js: seq<Json>)
    requires f.nested.NoTable? || g.nested.NoTable?
    ensures CarriedItems(f, g, js, js)
  {
  }

  /** A value read under `f` reads, under its heir, as the carried value. */
  lemma {:induction false} ValueCarries(f: FieldDef, now: seq<FieldDef>, wv: WireValue, a: Json) returns (b: Json)
    requires EvolvesField(f, now) && WellSized(wv) && KnownValue(wv, f)
    requires WireToJson(wv, f.ptype, f.nested) == Ok(a)
    ensures var g := now[FindDef(now, f.tag)];
            WireToJson(wv, f.ptype, g.nested) == Ok(b) && CarriedValue(f, g, a, b)
    ensures Readable(f)
    decreases f, 0
  {
    hide ProtoToJson, Known, Evolves, Carried, NumberToJson;
    var g := now[FindDef(now, f.tag)];
    if wv.LengthDelimited? && f.nested.Table? {
      DecodesToObject(wv.data, f.nested.fields);
      var m := DecodeCarries(wv.data, f.nested.fields, g.nested.fields, a.m);
      b := JObj(m);
    } else {
      if f.ptype.TNamed? { NamedIsDelimited(wv, f.ptype, f.nested); }
      b := a;
    }
  }

  lemma {:induction false} DecodesToObject(bs: seq<Byte>, fields: seq<FieldDef>)
    ensures ProtoToJson(bs, fields).Ok? ==> ProtoToJson(bs, fields).value.JObj?
  {
    hide DecodeLoop;
  }

  lemma {:induction false} NamedIsDelimited(wv: WireValue, t: ProtoType, nested: Nested)
    requires WellSized(wv) && t.TNamed? && WireToJson(wv, t, nested).Ok?
    ensures wv.LengthDelimited? && nested.Table?
  {
  }

  /** One wire value, applied on both sides. */
  lemma {:induction false} ApplyCarries(was: seq<FieldDef>, now: seq<FieldDef>, k: nat, wv: WireValue,
                                        s: State, t: State, next: State) returns (new_: State)
    requires Evolves(was, now) && k < |was| && CarriedState(was, now, s, t)
    requires WellSized(wv) && KnownValue(wv, was[k]) && Apply(was[k], wv, s) == Ok(next)
    ensures FindDef(now, was[k].tag) < |now| && Apply(Heir(was, now, k), wv, t) == Ok(new_)
    ensures CarriedState(was, now, next, new_)
    decreases was, 0
  {
    hide CarriedState, UnpackScalars, WireToJson, KnownValue, Store, CarriedValue, Push;
    var f := was[k];
    assert EvolvesField(f, now);
    var g := Heir(was, now, k);
    var js := ApplyStores(f, wv, s, next);
    if f.repeated && wv.LengthDelimited? && IsPackable(f.ptype) {
      SameItems(f, g, js);
      StoreCarries(was, now, k, js, js, s, t);
      StoreApplies(g, wv, t, js);
      new_ := Store(g, js, t);
    } else {
      var b := ValueCarries(f, now, wv, js[0]);
      StoreCarries(was, now, k, js, [b], s, t);
      StoreApplies(g, wv, t, [b]);
      new_ := Store(g, [b], t);
    }
  }

  /** The converse of `ApplyStores`. */
  lemma {:induction false} StoreApplies(g: FieldDef, wv: WireValue, t: State, js: seq<Json>)
    requires WellSized(wv)
    requires if g.repeated && wv.LengthDelimited? && IsPackable(g.ptype) then UnpackScalars(wv.data, g.ptype) == Ok(js)
             else |js| == 1 && WireToJson(wv, g.ptype, g.nested) == Ok(js[0])
    ensures Apply(g, wv, t) == Ok(Store(g, js, t))
  {
    hide UnpackScalars, WireToJson, Push;
    assert |js| == 1 ==> js == [js[0]];
  }

  /** The loops stay related, record by record. */
  lemma {:induction false} LoopCarries(bs: seq<Byte>, was: seq<FieldDef>, now: seq<FieldDef>, s: State, t: State)
    returns (r: State)
    requires Evolves(was, now) && Known(bs, was) && CarriedState(was, now, s, t) && DecodeLoop(was, bs, s).Ok?
    ensures DecodeLoop(now, bs, t) == Ok(r) && CarriedState(was, now, DecodeLoop(was, bs, s).value, r)
    decreases was, 1, |bs|
  {
    hide Apply, ReadWireValue, ReadVarint, CarriedState, Evolves, KnownValue;
    if bs == [] {
      r := t;
    } else {
      var tag := ReadVarint(bs).value;
      var body := bs[tag.consumed..];
      ReadWellSized(body, tag.value % 8);
      var wv := ReadWireValue(body, tag.value % 8).value;
      var k := FindDef(was, FieldNumber(tag.value));
      var step := DecodeRecord(was, bs, s).value;
      var next := ApplyCarries(was, now, k, wv.value, s, t, step.value);
      assert body[wv.consumed..] == bs[step.consumed..];
      assert DecodeRecord(now, bs, t) == Ok(Read(next, step.consumed));
      r := LoopCarries(bs[step.consumed..], was, now, step.value, next);
    }
  }

  lemma {:induction false} FinishCarries(was: seq<FieldDef>, now: seq<FieldDef>, s: State, t: State)
    requires CarriedState(was, now, s, t)
    ensures Carried(Finish(s), Finish(t), was, now)
  {
    hide CarriedSlot, CarriedMember, Finish, CarriedValue, CarriedItems, CarriedJson;
    forall i | 0 <= i < |was| ensures CarriedMember(Finish(s), Finish(t), was, now, i) {
      SlotFinishes(was, now, i, s, t);
    }
    FinishNames(s);
    FinishNames(t);
  }

  lemma {:induction false} FinishNames(st: State)
    ensures forall name :: name in Finish(st) <==> name in st.single || name in st.many
  {
  }

  lemma {:induction false} SlotFinishes(was: seq<FieldDef>, now: seq<FieldDef>, i: nat, s: State, t: State)
    requires i < |was| && FindDef(now, was[i].tag) < |now| && CarriedSlot(was[i], Heir(was, now, i), s, t)
    ensures CarriedMember(Finish(s), Finish(t), was, now, i)
  {
    hide CarriedItems, Carried;
    var f, g := was[i], Heir(was, now, i);
    FinishAt(s, f.name);
    FinishAt(t, g.name);
    if f.name in s.single && f.name !in s.many && s.single[f.name].JArr? {
      SameItems(f, g, s.single[f.name].items);
    }
  }

  /** Bytes whose tags are all listed in the old table decode under the evolved one, carried over. */
  lemma {:induction false} DecodeCarries(bs: seq<Byte>, was: seq<FieldDef>, now: seq<FieldDef>, a: map<string, Json>)
    returns (b: map<string, Json>)
    requires Evolves(was, now) && Known(bs, was) && ProtoToJson(bs, was) == Ok(JObj(a))
    ensures ProtoToJson(bs, now) == Ok(JObj(b)) && Carried(a, b, was, now)
    decreases was, 2
  {
    hide DecodeLoop, Evolves, Known, Carried, CarriedState, Finish;
    EmptyCarries(was, now);
    var t := LoopCarries(bs, was, now, EMPTY, EMPTY);
    FinishCarries(was, now, DecodeLoop(was, bs, EMPTY).value, t);
    b := Finish(t);
  }

  lemma {:induction false} EmptyCarries(was: seq<FieldDef>, now: seq<FieldDef>)
    requires Evolves(was, now)
    ensures CarriedState(was, now, EMPTY, EMPTY)
  {
    assert forall i :: 0 <= i < |was| ==> EvolvesField(was[i], now);
  }

  // ---- what the encoder writes only uses listed tags ----

  lemma {:induction false} RecordIsKnown(fields: seq<FieldDef>, i: nat, wt: WireTy, payload: seq<Byte>, wv: WireValue,
                                         rest: seq<Byte>)
    requires UniqueTags(fields) && i < |fields|
    requires ReadWireValue(payload + rest, wt) == Ok(Read(wv, |payload|))
    requires KnownValue(wv, fields[i]) && Known(rest, fields)
    ensures Known(TagBytes(fields[i].tag, wt) + payload + rest, fields)
  {
    hide ReadWireValue, KnownValue, ReadVarint;
    var tag := TagBytes(fields[i].tag, wt);
    Cut(tag, payload, rest);
    ReadTagInverts(fields[i].tag, wt, payload + rest);
    FindOwn(fields, i);
  }

  lemma {:induction false} PayloadIsKnown(f: FieldDef, v: Json, rest: seq<Byte>) returns (wv: WireValue)
    requires WellFormedField(f) && Payload(f.ptype, f.nested, v).Ok? && |Payload(f.ptype, f.nested, v).value| < MAX_LEN
    ensures KnownValue(wv, f)
    ensures ReadWireValue(Payload(f.ptype, f.nested, v).value + rest, WireTypeFor(f.ptype))
         == Ok(Read(wv, |Payload(f.ptype, f.nested, v).value|))
    decreases f, 0
  {
    hide ReadLen, JsonToProto, WellFormed, Known, ReadWireValue;
    if f.ptype.TNamed? {
      var data := JsonToProto(v, f.nested.fields).value;
      ReadLenInverts(data, rest);
      EncodedIsKnown(v, f.nested.fields);
      wv := LengthDelimited(data);
      DelimitedRead(LenPrefixed(data) + rest, Read(data, |LenPrefixed(data)|));
    } else {
      wv := PayloadInverts(f.ptype, f.nested, v, rest);
    }
  }

  lemma {:induction false} DelimitedRead(bs: seq<Byte>, r: Read<seq<Byte>>)
    requires ReadLen(bs) == Ok(r)
    ensures ReadWireValue(bs, 2) == Ok(Read(LengthDelimited(r.value), r.consumed))
  {
    hide ReadLen;
  }

  lemma {:induction false} ValueIsKnown(fields: seq<FieldDef>, i: nat, v: Json, rest: seq<Byte>)
    requires WellFormed(fields) && i < |fields| && Known(rest, fields)
    requires EncodeValue(fields[i], v).Ok? && |EncodeValue(fields[i], v).value| < MAX_LEN
    ensures Known(EncodeValue(fields[i], v).value + rest, fields)
    decreases fields[i], 1
  {
    hide Payload, Known, KnownValue, ReadWireValue, WellFormed;
    FieldIsWellFormed(fields, i);
    var f := fields[i];
    var wv := PayloadIsKnown(f, v, rest);
    RecordIsKnown(fields, i, WireTypeFor(f.ptype), Payload(f.ptype, f.nested, v).value, wv, rest);
  }

  lemma {:induction false} ItemsAreKnown(fields: seq<FieldDef>, i: nat, items: seq<Json>, rest: seq<Byte>)
    requires WellFormed(fields) && i < |fields| && Known(rest, fields)
    requires EncodeItems(fields[i], items).Ok? && |EncodeItems(fields[i], items).value| < MAX_LEN
    ensures Known(EncodeItems(fields[i], items).value + rest, fields)
    decreases fields[i], 2, |items|
  {
    hide EncodeValue, Known, WellFormed;
    if items == [] {
      assert [] + rest == rest;
    } else {
      var head, tail := EncodeValue(fields[i], items[0]).value, EncodeItems(fields[i], items[1..]).value;
      ItemsAreKnown(fields, i, items[1..], rest);
      ValueIsKnown(fields, i, items[0], tail + rest);
      Cut(head, tail, rest);
    }
  }

  lemma {:induction false} MemberIsKnown(fields: seq<FieldDef>, i: nat, v: Json, rest: seq<Byte>)
    requires WellFormed(fields) && i < |fields| && Known(rest, fields)
    requires EncodeMember(fields[i], v).Ok? && |EncodeMember(fields[i], v).value| < MAX_LEN
    ensures Known(EncodeMember(fields[i], v).value + rest, fields)
    decreases fields[i], 3
  {
    hide EncodeValue, EncodeItems, Known, WellFormed, IsDefault;
    assert [] + rest == rest;
    if !v.JNull? {
      if fields[i].repeated {
        if v.JArr? { ItemsAreKnown(fields, i, v.items, rest); }
      } else if !IsDefault(v, fields[i].ptype) {
        ValueIsKnown(fields, i, v, rest);
      }
    }
  }

  lemma {:induction false} FieldsAreKnown(m: map<string, Json>, fields: seq<FieldDef>, i: nat)
    requires WellFormed(fields) && i <= |fields|
    requires EncodeFrom(m, fields, i).Ok? && |EncodeFrom(m, fields, i).value| < MAX_LEN
    ensures Known(EncodeFrom(m, fields, i).value, fields)
    decreases fields, |fields| - i
  {
    hide EncodeMember, Known, WellFormed;
    if i < |fields| {
      FieldsAreKnown(m, fields, i + 1);
      var tail := EncodeFrom(m, fields, i + 1).value;
      if fields[i].name in m {
        MemberIsKnown(fields, i, m[fields[i].name], tail);
      } else {
        assert [] + tail == tail;
      }
    } else {
      NothingIsKnown(fields);
    }
  }

  lemma {:induction false} NothingIsKnown(fields: seq<FieldDef>)
    ensures Known([], fields)
  {
  }

  /** `json_to_proto_binary` writes listed tags only, at every depth. */
  lemma {:induction false} EncodedIsKnown(j: Json, fields: seq<FieldDef>)
    requires WellFormed(fields) && JsonToProto(j, fields).Ok? && |JsonToProto(j, fields).value| < MAX_LEN
    ensures Known(JsonToProto(j, fields).value, fields)
    decreases fields, |fields| + 1
  {
    hide EncodeFrom, Known, WellFormed;
    if j.JObj? { FieldsAreKnown(j.m, fields, 0); } else { NothingIsKnown(fields); }
  }

  /** Encode under the old table, decode under the evolved one: the old normal form, carried over. */
  lemma {:induction false} EncodedCarries(j: Json, was: seq<FieldDef>, now: seq<FieldDef>) returns (b: map<string, Json>)
    requires WellFormed(was) && Evolves(was, now)
    requires JsonToProto(j, was).Ok? && |JsonToProto(j, was).value| < MAX_LEN
    ensures ProtoToJson(JsonToProto(j, was).value, now) == Ok(JObj(b))
    ensures Carried(NormObject(j, was), b, was, now)
  {
    hide JsonToProto, ProtoToJson, Known, Carried, Evolves, WellFormed, NormObject;
    EncodedIsKnown(j, was);
    Normalises(j, was);
    b := DecodeCarries(JsonToProto(j, was).value, was, now, NormObject(j, was));
  }

  // ---- whole files ----

  /** Unique tags and names in every message, and no map fields. */
  predicate Tidy(ms: seq<ParsedMessage>) {
    forall i :: 0 <= i < |ms| ==> TidyFields(ms[i].fields)
  }

  predicate TidyFields(fs: seq<ParsedField>) {
    && (forall k, l :: 0 <= k < l < |fs| ==> fs[k].tag != fs[l].tag && fs[k].name != fs[l].name)
    && (forall k :: 0 <= k < |fs| ==> !fs[k].isMap)
  }

  /** A field whose values the codec can read: scalar, or a message of the same file. */
  predicate ReadableField(ms: seq<ParsedMessage>, f: ParsedField) {
    TypeFromName(f.protoType).TNamed? ==> Refers(ms, f)
  }

  predicate SameLabel(f: ParsedField, fs: seq<ParsedField>) {
    var l := FindField(fs, f.tag);
    l < |fs| ==> fs[l].repeated == f.repeated
  }

  predicate SameLabelsIn(was: seq<ParsedMessage>, now: seq<ParsedMessage>, i: nat)
    requires i < |was|
  {
    var j := FindMessage(now, was[i].name);
    j < |now| ==>
      forall k :: 0 <= k < |was[i].fields| && ReadableField(was, was[i].fields[k]) ==>
        SameLabel(was[i].fields[k], now[j].fields)
  }

  /** No readable field changed between single and `repeated`. */
  predicate SameLabels(was: seq<ParsedMessage>, now: seq<ParsedMessage>) {
    forall i :: 0 <= i < |was| ==> SameLabelsIn(was, now, i)
  }

  lemma {:induction false} TableLookup(ms: seq<ParsedMessage>, i: nat, rank: map<string, nat>, tag: U32)
    requires Ranked(ms, rank) && i < |ms|
    ensures FindDef(TableOf(ms, i, rank), tag) == FindField(ms[i].fields, tag)
  {
    var t, fs := TableOf(ms, i, rank), ms[i].fields;
    assert forall k :: 0 <= k < |t| ==> t[k].tag == fs[k].tag;
  }

  lemma {:induction false} TidyTable(ms: seq<ParsedMessage>, i: nat, rank: map<string, nat>)
    requires Ranked(ms, rank) && i < |ms| && Tidy(ms)
    ensures UniqueTags(TableOf(ms, i, rank)) && UniqueNames(TableOf(ms, i, rank))
  {
    hide TypeFromName, Ranked, Refers;
    assert TidyFields(ms[i].fields);
  }

  /** Old references still refer, to the message of the same name. */
  lemma {:induction false} RefersOn(was: seq<ParsedMessage>, now: seq<ParsedMessage>, f: ParsedField, g: ParsedField)
    requires forall i :: 0 <= i < |was| ==> KeepsMessage(was[i], now)
    requires f.protoType == g.protoType && !g.isMap && Refers(was, f)
    ensures Refers(now, g)
    ensures FindMessage(now, g.protoType) == FindMessage(now, was[FindMessage(was, f.protoType)].name)
  {
    hide TypeFromName;
    assert KeepsMessage(was[FindMessage(was, f.protoType)], now);
  }

  lemma {:induction false} FieldEvolves(was: seq<ParsedMessage>, r: map<string, nat>, now: seq<ParsedMessage>,
                                        s: map<string, nat>, i: nat, k: nat)
    requires Ranked(was, r) && Ranked(now, s) && Tidy(was) && Tidy(now) && SameLabels(was, now)
    requires forall i :: 0 <= i < |was| ==> KeepsMessage(was[i], now)
    requires i < |was| && k < |was[i].fields| && FindMessage(now, was[i].name) < |now|
    ensures EvolvesField(FieldOf(was, i, k, r), TableOf(now, FindMessage(now, was[i].name), s))
    decreases r[was[i].name], 0
  {
    hide TypeFromName, Evolves, UniqueTags, UniqueNames;
    var j, f := FindMessage(now, was[i].name), was[i].fields[k];
    assert KeepsMessage(was[i], now) && KeepsField(f, now[j]);
    var l := FindField(now[j].fields, f.tag);
    TableLookup(now, j, s, f.tag);
    var d, e := FieldOf(was, i, k, r), TableOf(now, j, s)[l];
    assert e == FieldOf(now, j, l, s) && TidyFields(now[j].fields) && !now[j].fields[l].isMap;
    assert SameLabelsIn(was, now, i);
    assert Readable(d) ==> ReadableField(was, f) && SameLabel(f, now[j].fields);
    if Refers(was, f) {
      RefersOn(was, now, f, now[j].fields[l]);
      assert RanksField(was, was[i], f, r);
      TablesEvolve(was, r, now, s, FindMessage(was, f.protoType));
    }
  }

  /** A clean report with unchanged labels makes every message's table evolve. */
  lemma {:induction false} TablesEvolve(was: seq<ParsedMessage>, r: map<string, nat>, now: seq<ParsedMessage>,
                                        s: map<string, nat>, i: nat)
    requires Ranked(was, r) && Ranked(now, s) && Tidy(was) && Tidy(now) && SameLabels(was, now)
    requires forall i :: 0 <= i < |was| ==> KeepsMessage(was[i], now)
    requires i < |was|
    ensures FindMessage(now, was[i].name) < |now|
    ensures Evolves(TableOf(was, i, r), TableOf(now, FindMessage(now, was[i].name), s))
    decreases r[was[i].name], 1
  {
    hide EvolvesField, UniqueTags, UniqueNames, SameLabels, Tidy, Ranked;
    assert KeepsMessage(was[i], now);
    var j := FindMessage(now, was[i].name);
    TidyTable(was, i, r);
    TidyTable(now, j, s);
    forall k | 0 <= k < |was[i].fields| ensures EvolvesField(FieldOf(was, i, k, r), TableOf(now, j, s)) {
      FieldEvolves(was, r, now, s, i, k);
    }
  }

  /** Everything decodable under the old table is read under the new one as the carried object. */
  ghost predicate CarriesOver(was: seq<FieldDef>, now: seq<FieldDef>) {
    forall bs, a :: Known(bs, was) && Decodes(bs, was, a) ==> ReadsOn(bs, a, was, now)
  }

  ghost predicate ReadsOn(bs: seq<Byte>, a: map<string, Json>, was: seq<FieldDef>, now: seq<FieldDef>) {
    exists b :: Decodes(bs, now, b) && Carried(a, b, was, now)
  }

  /** The messages of `was`, found by name in `now`, all carry over. */
  ghost predicate AllCarryOver(was: seq<ParsedMessage>, r: map<string, nat>, now: seq<ParsedMessage>, s: map<string, nat>)
    requires Ranked(was, r) && Ranked(now, s)
  {
    forall i :: 0 <= i < |was| ==> MessageCarriesOver(was, r, now, s, i)
  }

  ghost predicate MessageCarriesOver(was: seq<ParsedMessage>, r: map<string, nat>, now: seq<ParsedMessage>,
                                     s: map<string, nat>, i: nat)
    requires Ranked(was, r) && Ranked(now, s) && i < |was|
  {
    var j := FindMessage(now, was[i].name);
    j < |now| && CarriesOver(TableOf(was, i, r), TableOf(now, j, s))
  }

  lemma {:induction false} EvolvedCarryOver(was: seq<FieldDef>, now: seq<FieldDef>)
    requires Evolves(was, now)
    ensures CarriesOver(was, now)
  {
    hide Evolves, Known, Carried, ProtoToJson;
    forall bs, a | Known(bs, was) && Decodes(bs, was, a) ensures ReadsOn(bs, a, was, now) {
      var b := DecodeCarries(bs, was, now, a);
      assert Decodes(bs, now, b);
    }
  }

  // ---- the label change the report does not mention ----

  /** The shortest record payload of a readable type. */
  function ZeroPayload(t: ProtoType): (bs: seq<Byte>) {
    match WireTypeFor(t)
    case 1 => [0, 0, 0, 0, 0, 0, 0, 0]
    case 5 => [0, 0, 0, 0]
    case _ => [0]
  }

  lemma {:induction false} ZeroReads(f: FieldDef) returns (wv: WireValue, j: Json)
    requires Readable(f)
    ensures ReadWireValue(ZeroPayload(f.ptype) + [], WireTypeFor(f.ptype)) == Ok(Read(wv, |ZeroPayload(f.ptype)|))
    ensures WellSized(wv) && KnownValue(wv, f) && !j.JArr? && (IsPackable(f.ptype) ==> !wv.LengthDelimited?)
    ensures WireToJson(wv, f.ptype, f.nested) == Ok(j)
    ensures j.JObj? <==> f.ptype.TNamed?
    ensures f.ptype.TNamed? ==> wv == LengthDelimited([])
  {
    hide FromLe;
    var t, p := f.ptype, ZeroPayload(f.ptype);
    assert p + [] == p;
    assert VarintBytes(0) == [0];
    if WireTypeFor(t) == 0 {
      ReadVarintInverts(0, []);
      wv := VarintValue(0);
    } else if WireTypeFor(t) == 1 {
      ReadFixedInverts(p, []);
      wv := Fixed64(p);
    } else if WireTypeFor(t) == 5 {
      ReadFixedInverts(p, []);
      wv := WireValue.Fixed32(p);
    } else {
      ReadLenInverts([], []);
      assert LenPrefixed([]) == [0] && LenPrefixed([]) + [] == [0];
      DelimitedRead([0], Read([], 1));
      wv := LengthDelimited([]);
    }
    j := ZeroJson(f, wv);
  }

  lemma {:induction false} ZeroJson(f: FieldDef, wv: WireValue) returns (j: Json)
    requires Readable(f) && WellSized(wv)
    requires match WireTypeFor(f.ptype)
             case 0 => wv == VarintValue(0)
             case 1 => wv.Fixed64?
             case 5 => wv.Fixed32?
             case _ => wv == LengthDelimited([])
    ensures WireToJson(wv, f.ptype, f.nested) == Ok(j) && !j.JArr? && (j.JObj? <==> f.ptype.TNamed?)
  {
    hide FromLe;
    if f.ptype.TNamed? {
      NothingDecodes(f.nested.fields);
      j := JObj(map[]);
    } else {
      j := WireToJson(wv, f.ptype, f.nested).value;
    }
  }

  lemma {:induction false} NothingDecodes(fields: seq<FieldDef>)
    ensures ProtoToJson([], fields) == Ok(JObj(map[]))
  {
    assert Finish(EMPTY) == map[];
  }

  /** Decoding one zero record stores one value under the field's name. */
  lemma {:induction false} ZeroDecodes(fields: seq<FieldDef>, i: nat, wv: WireValue, j: Json) returns (m: map<string, Json>)
    requires UniqueTags(fields) && i < |fields| && WellSized(wv)
    requires IsPackable(fields[i].ptype) ==> !wv.LengthDelimited?
    requires WireToJson(wv, fields[i].ptype, fields[i].nested) == Ok(j)
    requires ReadWireValue(ZeroPayload(fields[i].ptype) + [], WireTypeFor(fields[i].ptype))
          == Ok(Read(wv, |ZeroPayload(fields[i].ptype)|))
    ensures Decodes(TagBytes(fields[i].tag, WireTypeFor(fields[i].ptype)) + ZeroPayload(fields[i].ptype), fields, m)
    ensures fields[i].name in m && m[fields[i].name] == if fields[i].repeated then JArr([j]) else j
  {
    hide ReadWireValue, WireToJson, ZeroPayload, ReadVarint, Push;
    var f := fields[i];
    var bs := TagBytes(f.tag, WireTypeFor(f.ptype)) + ZeroPayload(f.ptype);
    var next := Store(f, [j], EMPTY);
    StoreApplies(f, wv, EMPTY, [j]);
    RecordStep(fields, i, WireTypeFor(f.ptype), ZeroPayload(f.ptype), wv, [], EMPTY, next);
    assert bs + [] == bs;
    m := Finish(next);
    StoredZero(f, j);
  }

  lemma {:induction false} StoredZero(f: FieldDef, j: Json)
    ensures f.name in Finish(Store(f, [j], EMPTY))
    ensures Finish(Store(f, [j], EMPTY))[f.name] == if f.repeated then JArr([j]) else j
  {
    assert [] + [j] == [j];
  }

  lemma {:induction false} NotCarried(f: FieldDef, g: FieldDef, a: Json, b: Json)
    requires !a.JArr? && !b.JArr?
    ensures !CarriedJson(f, g, JArr([a]), b) && !CarriedJson(f, g, a, JArr([b]))
  {
    hide Carried;
  }

  /** A field that moved between single and `repeated` breaks old bytes. */
  lemma {:induction false} LabelBreaks(was: seq<FieldDef>, now: seq<FieldDef>, i: nat)
    requires UniqueTags(was) && UniqueTags(now) && i < |was| && Readable(was[i])
    requires FindDef(now, was[i].tag) < |now|
    requires var g := Heir(was, now, i);
             g.ptype == was[i].ptype && g.repeated != was[i].repeated && (was[i].ptype.TNamed? ==> g.nested.Table?)
    ensures !CarriesOver(was, now)
  {
    hide Known, ProtoToJson, WireToJson, ReadWireValue, ZeroPayload, UniqueTags;
    var f, l := was[i], FindDef(now, was[i].tag);
    var g := now[l];
    var bs := TagBytes(f.tag, WireTypeFor(f.ptype)) + ZeroPayload(f.ptype);
    var wv, j := ZeroReads(f);
    var a := ZeroDecodes(was, i, wv, j);
    NothingIsKnown(was);
    RecordIsKnown(was, i, WireTypeFor(f.ptype), ZeroPayload(f.ptype), wv, []);
    assert bs + [] == bs;
    var wv2, j2 := ZeroReads(g);
    var b := ZeroDecodes(now, l, wv2, j2);
    NotCarried(f, g, j, j2);
    assert !CarriedMember(a, b, was, now, i);
    assert !Carried(a, b, was, now);
    assert forall c :: Decodes(bs, now, c) ==> c == b;
    assert !ReadsOn(bs, a, was, now);
  }

  lemma {:induction false} LabelBreaksFile(was: seq<ParsedMessage>, r: map<string, nat>, now: seq<ParsedMessage>,
                                           s: map<string, nat>, i: nat, k: nat)
    requires Ranked(was, r) && Ranked(now, s) && Tidy(was) && Tidy(now)
    requires forall i :: 0 <= i < |was| ==> KeepsMessage(was[i], now)
    requires i < |was| && k < |was[i].fields| && ReadableField(was, was[i].fields[k])
    requires FindMessage(now, was[i].name) < |now|
    requires !SameLabel(was[i].fields[k], now[FindMessage(now, was[i].name)].fields)
    ensures !MessageCarriesOver(was, r, now, s, i)
  {
    hide TypeFromName, CarriesOver, UniqueTags, UniqueNames, Ranked;
    var j, f := FindMessage(now, was[i].name), was[i].fields[k];
    var l := FindField(now[j].fields, f.tag);
    assert KeepsMessage(was[i], now) && KeepsField(f, now[j]);
    TableLookup(now, j, s, f.tag);
    TidyTable(was, i, r);
    TidyTable(now, j, s);
    assert TidyFields(now[j].fields) && !now[j].fields[l].isMap;
    if Refers(was, f) { RefersOn(was, now, f, now[j].fields[l]); }
    LabelBreaks(TableOf(was, i, r), TableOf(now, j, s), k);
  }

  /**
    Soundness of the differ, with its exact limit. For map-free, acyclic files with unique tags
    and names and no breaking change reported, every old message's bytes keep their meaning under
    the new file if and only if no readable field changed its `repeated` label, a change the
    report never mentions.
  */
  lemma {:induction false} DifferSound(was: ProtoFile, r: map<string, nat>, now: ProtoFile, s: map<string, nat>)
    requires Ranked(was.messages, r) && Ranked(now.messages, s) && Tidy(was.messages) && Tidy(now.messages)
    requires NoBreaking(Report(was, now))
    ensures SameLabels(was.messages, now.messages) <==> AllCarryOver(was.messages, r, now.messages, s)
  {
    hide CarriesOver, Evolves, SameLabel, ReadableField, Tidy, Ranked, Report, NoBreaking, KeepsMessage;
    Verdict(was, now);
    var olds, news := was.messages, now.messages;
    if SameLabels(olds, news) {
      forall i | 0 <= i < |olds| ensures MessageCarriesOver(olds, r, news, s, i) {
        TablesEvolve(olds, r, news, s, i);
        EvolvedCarryOver(TableOf(olds, i, r), TableOf(news, FindMessage(news, olds[i].name), s));
      }
    } else {
      var i :| 0 <= i < |olds| && !SameLabelsIn(olds, news, i);
      var fs := news[FindMessage(news, olds[i].name)].fields;
      var k :| 0 <= k < |olds[i].fields| && ReadableField(olds, olds[i].fields[k]) && !SameLabel(olds[i].fields[k], fs);
      LabelBreaksFile(olds, r, news, s, i, k);
    }
  }

  function OneField(many: bool): (f: ProtoFile) {
    ProtoFile("proto3", "p", [], [], [ParsedMessage("M", [ParsedField("x", "int32", 1, many, false, false, None, None)])], [])
  }

  /** Making the only field `repeated` gives an empty report, and old bytes change their meaning. */
  lemma {:induction false} LabelChangeSlips()
    ensures Report(OneField(false), OneField(true)) == []
    ensures Ranked(OneField(false).messages, map["M" := 0]) && Ranked(OneField(true).messages, map["M" := 0])
    ensures !AllCarryOver(OneField(false).messages, map["M" := 0], OneField(true).messages, map["M" := 0])
  {
    var was, now, r := OneField(false), OneField(true), map["M" := 0];
    OneFieldReport();
    OneFieldRanked(false);
    OneFieldRanked(true);
    assert !SameLabelsIn(was.messages, now.messages, 0) by {
      assert was.messages[0].fields[0] == ParsedField("x", "int32", 1, false, false, false, None, None);
      assert !SameLabel(was.messages[0].fields[0], now.messages[0].fields);
      assert ReadableField(was.messages, was.messages[0].fields[0]);
    }
    DifferSound(was, r, now, r);
  }

  lemma {:induction false} OneFieldReport()
    ensures Report(OneField(false), OneField(true)) == []
  {
    var m, n := OneField(false).messages, OneField(true).messages;
    assert m[1..] == [] && n[1..] == [] && m[0].fields[1..] == [] && n[0].fields[1..] == [];
    assert FieldChanges(m[0], m[0].fields[0], n[0]) == [];
  }

  lemma {:induction false} OneFieldRanked(many: bool)
    ensures Ranked(OneField(many).messages, map["M" := 0]) && Tidy(OneField(many).messages)
  {
    assert TypeFromName("int32") == TInt32;
  }

  /** A value encoded under an old message reads under the new one as its old normal form, carried over. */
  lemma {:induction false} OldValuesRead(was: ProtoFile, r: map<string, nat>, now: ProtoFile, s: map<string, nat>,
                                         i: nat, j: Json) returns (b: map<string, Json>)
    requires Ranked(was.messages, r) && Ranked(now.messages, s) && Tidy(was.messages) && Tidy(now.messages)
    requires NoBreaking(Report(was, now)) && SameLabels(was.messages, now.messages) && i < |was.messages|
    requires WellFormed(TableOf(was.messages, i, r))
    requires JsonToProto(j, TableOf(was.messages, i, r)).Ok?
    requires |JsonToProto(j, TableOf(was.messages, i, r)).value| < MAX_LEN
    ensures var t, u := FindMessage(now.messages, was.messages[i].name), TableOf(was.messages, i, r);
            && t < |now.messages|
            && Decodes(JsonToProto(j, u).value, TableOf(now.messages, t, s), b)
            && Carried(NormObject(j, u), b, u, TableOf(now.messages, t, s))
  {
    hide Evolves, Tidy, Ranked, Report, NoBreaking, KeepsMessage, WellFormed, JsonToProto, ProtoToJson, Carried, SameLabels;
    Verdict(was, now);
    TablesEvolve(was.messages, r, now.messages, s, i);
    var t := FindMessage(now.messages, was.messages[i].name);
    b := EncodedCarries(j, TableOf(was.messages, i, r), TableOf(now.messages, t, s));
  }
}
