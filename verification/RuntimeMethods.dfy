/**
  The loops of the table-driven codec (typeway-grpc/src/proto_codec.rs): encoding members of an object in
  table order, unpacking scalar blocks, and decoding records into single fields and growing arrays. Each
  is proved equal to its specification.
*/
module RuntimeMethods {
  import opened Bytes
  import opened Varint
  import opened Wire
  import opened TextCodecs
  import opened RuntimeCodec

  lemma {:induction false} Advance(bytes: seq<Byte>, offset: nat, n: nat)
    requires offset + n <= |bytes|
    ensures bytes[offset..][n..] == bytes[offset + n..]
  {
  }

  // ---- JSON to binary ----

  lemma {:induction false} TableValue(f: FieldDef, v: Json)
    requires f.ptype.TNamed?
    ensures EncodeValue(f, v) ==
            if f.nested.NoTable? then Err(Unmodelled)
            else match JsonToProto(v, f.nested.fields)
                 case Ok(bs) => Ok(TagBytes(f.tag, 2) + LenPrefixed(bs))
                 case Err(e) => Err(e)
  {
    hide JsonToProto;
  }

  /** `encode_field`: tag, then the value by wire type. */
  method EncodeFieldTo(buf: seq<Byte>, f: FieldDef, v: Json) returns (r: Result<seq<Byte>, DecodeError>)
    ensures r == match EncodeValue(f, v) case Ok(bs) => Ok(buf + bs) case Err(e) => Err(e)
    decreases f, 0
  {
    hide Payload, JsonToProto, LenPrefixed;
    var wt := WireTypeFor(f.ptype);
    if wt == 2 && f.ptype.TNamed? {
      hide EncodeValue;
      TableValue(f, v);
      if f.nested.NoTable? { return Err(Unmodelled); }
      var nested := JsonToProtoBinary(v, f.nested.fields);
      if nested.Err? { return Err(nested.error); }
      var out := EncodeVarint(buf, 8 * f.tag + wt);
      out := PutPrefixed(out, nested.value);
      Cut(buf, TagBytes(f.tag, 2), LenPrefixed(nested.value));
      return Ok(out);
    }
    var payload := Payload(f.ptype, f.nested, v);
    if payload.Err? { return Err(payload.error); }
    var out := EncodeVarint(buf, 8 * f.tag + wt);
    Cut(buf, TagBytes(f.tag, wt), payload.value);
    out := out + payload.value;
    r := Ok(out);
  }

  method PutPrefixed(buf: seq<Byte>, data: seq<Byte>) returns (out: seq<Byte>)
    ensures out == buf + LenPrefixed(data)
  {
    out := buf + VarintBytes(|data|) + data;
    assert out == buf + LenPrefixed(data);
  }

  /** The item loop of a repeated field. */
  method EncodeItemsTo(buf: seq<Byte>, f: FieldDef, items: seq<Json>) returns (r: Result<seq<Byte>, DecodeError>)
    ensures r == match EncodeItems(f, items) case Ok(bs) => Ok(buf + bs) case Err(e) => Err(e)
    decreases f, 1
  {
    hide EncodeValue;
    var out := buf;
    assert items[0..] == items;
    for k := 0 to |items|
      invariant EncodeItems(f, items).Err? <==> EncodeItems(f, items[k..]).Err?
      invariant EncodeItems(f, items).Err? ==> EncodeItems(f, items[k..]).error == EncodeItems(f, items).error
      invariant EncodeItems(f, items).Ok? ==> out + EncodeItems(f, items[k..]).value == buf + EncodeItems(f, items).value
    {
      assert items[k..][0] == items[k] && items[k..][1..] == items[k + 1..];
      var step := EncodeFieldTo(out, f, items[k]);
      if step.Err? { return Err(step.error); }
      out := step.value;
    }
    assert items[|items|..] == [] && out + [] == out;
    r := Ok(out);
  }

  /** The body of the field loop for one present member. */
  method EncodeMemberTo(buf: seq<Byte>, f: FieldDef, v: Json) returns (r: Result<seq<Byte>, DecodeError>)
    ensures r == match EncodeMember(f, v) case Ok(bs) => Ok(buf + bs) case Err(e) => Err(e)
    decreases f, 2
  {
    hide EncodeValue, IsDefault;
    assert buf + [] == buf;
    if v.JNull? || (!f.repeated && IsDefault(v, f.ptype)) || (f.repeated && !v.JArr?) {
      return Ok(buf);
    }
    if f.repeated {
      r := EncodeItemsTo(buf, f, v.items);
    } else {
      r := EncodeFieldTo(buf, f, v);
    }
  }

  /** `json_to_proto_binary`: one pass over the table, in table order. */
  method JsonToProtoBinary(j: Json, fields: seq<FieldDef>) returns (r: Result<seq<Byte>, DecodeError>)
    ensures r == JsonToProto(j, fields)
    decreases fields, 3
  {
    hide EncodeMember;
    var buf: seq<Byte> := [];
    if !j.JObj? { return Ok(buf); }
    ghost var whole := EncodeFrom(j.m, fields, 0);
    for i := 0 to |fields|
      invariant whole.Err? <==> EncodeFrom(j.m, fields, i).Err?
      invariant whole.Err? ==> EncodeFrom(j.m, fields, i).error == whole.error
      invariant whole.Ok? ==> buf + EncodeFrom(j.m, fields, i).value == whole.value
    {
      if fields[i].name in j.m {
        var step := EncodeMemberTo(buf, fields[i], j.m[fields[i].name]);
        if step.Err? { return Err(step.error); }
        buf := step.value;
      }
    }
    assert buf + [] == buf;
    r := Ok(buf);
  }

  // ---- binary to JSON ----

  function Prefixed(done: seq<Json>, r: Result<seq<Json>, DecodeError>): (q: Result<seq<Json>, DecodeError>) {
    match r
    case Ok(js) => Ok(done + js)
    case Err(e) => Err(e)
  }

  /** One item taken off a block, with what was read before it. */
  lemma {:induction false} UnpackStep(done: seq<Json>, data: seq<Byte>, t: ProtoType)
    requires IsPackable(t) && data != []
    ensures var item, r := ReadWireValue(data, WireTypeFor(t)), Prefixed(done, UnpackScalars(data, t));
            match item
            case Err(e) => r == Err(e)
            case Ok(i) =>
              && WellSized(i.value) && !i.value.LengthDelimited? && i.consumed > 0
              && match NumberToJson(i.value, t)
                 case Err(e) => r == Err(e)
                 case Ok(j) => r == Prefixed(done + [j], UnpackScalars(data[i.consumed..], t))
  {
    hide ReadWireValue, NumberToJson;
    ReadWellSized(data, WireTypeFor(t));
    var item := ReadWireValue(data, WireTypeFor(t));
    if item.Ok? {
      PackedItemSize(data, t);
      var j := NumberToJson(item.value.value, t);
      var rest := UnpackScalars(data[item.value.consumed..], t);
      if j.Ok? && rest.Ok? { Cut(done, [j.value], rest.value); }
    }
  }

  /** `unpack_scalars`: an offset loop over one packed block. */
  method UnpackScalarsAt(data: seq<Byte>, t: ProtoType) returns (r: Result<seq<Json>, DecodeError>)
    requires IsPackable(t)
    ensures r == UnpackScalars(data, t)
  {
    hide ReadWireValue, NumberToJson, UnpackScalars;
    var results: seq<Json>, offset := [], 0;
    PrefixedNothing(data, t);
    while offset < |data|
      invariant offset <= |data|
      invariant UnpackScalars(data, t) == Prefixed(results, UnpackScalars(data[offset..], t))
      decreases |data| - offset
    {
      UnpackStep(results, data[offset..], t);
      var item := ReadWireValue(data[offset..], WireTypeFor(t));
      if item.Err? { return Err(item.error); }
      Advance(data, offset, item.value.consumed);
      var j := NumberToJson(item.value.value, t);
      if j.Err? { return Err(j.error); }
      results := results + [j.value];
      offset := offset + item.value.consumed;
    }
    assert data[offset..] == [];
    NothingUnpacked(results, t);
    r := Ok(results);
  }

  lemma {:induction false} PrefixedNothing(data: seq<Byte>, t: ProtoType)
    requires IsPackable(t)
    ensures data[0..] == data && Prefixed([], UnpackScalars(data, t)) == UnpackScalars(data, t)
  {
    hide UnpackScalars;
    var r := UnpackScalars(data, t);
    if r.Ok? { assert [] + r.value == r.value; }
  }

  lemma {:induction false} NothingUnpacked(done: seq<Json>, t: ProtoType)
    requires IsPackable(t)
    ensures Prefixed(done, UnpackScalars([], t)) == Ok(done)
  {
    assert done + [] == done;
  }

  lemma {:induction false} PackedItemSize(bs: seq<Byte>, t: ProtoType)
    requires IsPackable(t) && ReadWireValue(bs, WireTypeFor(t)).Ok?
    ensures !ReadWireValue(bs, WireTypeFor(t)).value.value.LengthDelimited?
    ensures ReadWireValue(bs, WireTypeFor(t)).value.consumed > 0
  {
  }

  /** The body of the loop for a listed field, with its two maps. */
  method ApplyTo(f: FieldDef, wv: WireValue, single: map<string, Json>, many: map<string, seq<Json>>)
    returns (e: Option<DecodeError>, single': map<string, Json>, many': map<string, seq<Json>>)
    requires WellSized(wv)
    ensures e.None? ==> Apply(f, wv, State(single, many)) == Ok(State(single', many'))
    ensures e.Some? ==> Apply(f, wv, State(single, many)) == Err(e.value)
    decreases f, 0
  {
    hide UnpackScalars, NumberToJson;
    e, single', many' := None, single, many;
    var before := if f.name in many then many[f.name] else [];
    if f.repeated && wv.LengthDelimited? && IsPackable(f.ptype) {
      var items := UnpackScalarsAt(wv.data, f.ptype);
      if items.Err? { e := Some(items.error); return; }
      many' := many[f.name := before + items.value];
    } else {
      var j := ToJson(wv, f.ptype, f.nested);
      if j.Err? { e := Some(j.error); return; }
      if f.repeated {
        many' := many[f.name := before + [j.value]];
      } else {
        single' := single[f.name := j.value];
      }
    }
  }

  /** `wire_value_to_json`. */
  method ToJson(wv: WireValue, t: ProtoType, nested: Nested) returns (r: Result<Json, DecodeError>)
    requires WellSized(wv)
    ensures r == WireToJson(wv, t, nested)
    decreases nested, 1
  {
    hide NumberToJson, Base64Json;
    if wv.LengthDelimited? && !t.TString? && !t.TBytes? && nested.Table? {
      r := ProtoBinaryToJson(wv.data, nested.fields);
    } else {
      r := WireToJson(wv, t, nested);
    }
  }

  /** `proto_binary_to_json`: tags and values at an offset, then arrays inserted over single values. */
  method ProtoBinaryToJson(bytes: seq<Byte>, fields: seq<FieldDef>) returns (r: Result<Json, DecodeError>)
    ensures r == ProtoToJson(bytes, fields)
    decreases fields, 3
  {
    hide ReadVarint, ReadWireValue, Apply, Finish;
    var single: map<string, Json> := map[];
    var many: map<string, seq<Json>> := map[];
    var offset := 0;
    assert bytes[0..] == bytes;
    while offset < |bytes|
      invariant offset <= |bytes|
      invariant DecodeLoop(fields, bytes, EMPTY) == DecodeLoop(fields, bytes[offset..], State(single, many))
      decreases |bytes| - offset
    {
      var t := DecodeVarint(bytes[offset..]);
      if t.Err? { return Err(t.error); }
      var at, wt: WireTy := offset + t.value.consumed, t.value.value % 8;
      Advance(bytes, offset, t.value.consumed);
      ReadWellSized(bytes[at..], wt);
      var wv := ReadWireValue(bytes[at..], wt);
      if wv.Err? { return Err(wv.error); }
      Advance(bytes, offset, t.value.consumed + wv.value.consumed);
      var i := FindDef(fields, FieldNumber(t.value.value));
      if i < |fields| {
        var e, s, m := ApplyTo(fields[i], wv.value.value, single, many);
        if e.Some? { return Err(e.value); }
        single, many := s, m;
      }
      offset := at + wv.value.consumed;
    }
    r := Ok(JObj(Finish(State(single, many))));
  }
}
