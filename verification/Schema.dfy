/**
  Parsed `.proto` files (typeway-grpc/src/proto_parse.rs), and the expansion of a message into the codec's
  nested field table (typeway-grpc/src/transcode.rs), which ends because message tables are acyclic.
*/
module Schema {
  import opened Bytes
  import opened RuntimeCodec

  datatype ParsedField = ParsedField(name: string, protoType: string, tag: U32, repeated: bool, optional: bool,
                                     isMap: bool, mapKey: Option<string>, mapValue: Option<string>)

  datatype ParsedMessage = ParsedMessage(name: string, fields: seq<ParsedField>)

  datatype RpcMethod = RpcMethod(name: string, inputType: string, outputType: string, comment: Option<string>)

  datatype Service = Service(name: string, methods: seq<RpcMethod>)

  datatype EnumVariant = EnumVariant(name: string, tag: U32)

  datatype ParsedEnum = ParsedEnum(name: string, variants: seq<EnumVariant>)

  datatype ProtoFile = ProtoFile(syntax: string, package: string, imports: seq<string>,
                                 services: seq<Service>, messages: seq<ParsedMessage>, enums: seq<ParsedEnum>)

  // ---- lookups: the first match wins ----

  function FindService(ss: seq<Service>, name: string): (i: nat)
    ensures i <= |ss| && (i < |ss| ==> ss[i].name == name)
    ensures forall j :: 0 <= j < i ==> ss[j].name != name
  {
    if ss == [] || ss[0].name == name then 0 else 1 + FindService(ss[1..], name)
  }

  function FindMethod(ms: seq<RpcMethod>, name: string): (i: nat)
    ensures i <= |ms| && (i < |ms| ==> ms[i].name == name)
    ensures forall j :: 0 <= j < i ==> ms[j].name != name
  {
    if ms == [] || ms[0].name == name then 0 else 1 + FindMethod(ms[1..], name)
  }

  function FindMessage(ms: seq<ParsedMessage>, name: string): (i: nat)
    ensures i <= |ms| && (i < |ms| ==> ms[i].name == name)
    ensures forall j :: 0 <= j < i ==> ms[j].name != name
  {
    if ms == [] || ms[0].name == name then 0 else 1 + FindMessage(ms[1..], name)
  }

  function FindField(fs: seq<ParsedField>, tag: U32): (i: nat)
    ensures i <= |fs| && (i < |fs| ==> fs[i].tag == tag)
    ensures forall j :: 0 <= j < i ==> fs[j].tag != tag
  {
    if fs == [] || fs[0].tag == tag then 0 else 1 + FindField(fs[1..], tag)
  }

  // ---- expansion into nested field tables ----

  const EMPTY_MESSAGE := "google.protobuf.Empty"

  /** The proto type a type name stands for. */
  function TypeFromName(s: string): (t: ProtoType) {
    if s == "int32" then TInt32
    else if s == "int64" then TInt64
    else if s == "uint32" then TUint32
    else if s == "uint64" then TUint64
    else if s == "sint32" then TSint32
    else if s == "sint64" then TSint64
    else if s == "bool" then TBool
    else if s == "enum" then TEnum
    else if s == "double" then TDouble
    else if s == "fixed64" then TFixed64
    else if s == "sfixed64" then TSfixed64
    else if s == "string" then TString
    else if s == "bytes" then TBytes
    else if s == "float" then TFloat
    else if s == "fixed32" then TFixed32
    else if s == "sfixed32" then TSfixed32
    else TNamed(s)
  }

  /** `is_scalar`. */
  predicate IsScalarName(s: string) { !TypeFromName(s).TNamed? || s == EMPTY_MESSAGE }

  /** Does the field pull another message's fields into the table? */
  predicate Refers(ms: seq<ParsedMessage>, f: ParsedField) {
    !IsScalarName(f.protoType) && !f.isMap && FindMessage(ms, f.protoType) < |ms|
  }

  /** Acyclic message tables: every reference goes to a message of smaller rank. */
  ghost predicate Ranked(ms: seq<ParsedMessage>, rank: map<string, nat>) {
    && (forall i :: 0 <= i < |ms| ==> ms[i].name in rank)
    && (forall i, k :: 0 <= i < |ms| && 0 <= k < |ms[i].fields| ==> RanksField(ms, ms[i], ms[i].fields[k], rank))
  }

  ghost predicate RanksField(ms: seq<ParsedMessage>, m: ParsedMessage, f: ParsedField, rank: map<string, nat>) {
    Refers(ms, f) ==> f.protoType in rank && m.name in rank && rank[f.protoType] < rank[m.name]
  }

  /** `field_specs_to_defs`, one field of message `i`. */
  function FieldOf(ms: seq<ParsedMessage>, i: nat, k: nat, ghost rank: map<string, nat>): (d: FieldDef)
    requires Ranked(ms, rank) && i < |ms| && k < |ms[i].fields|
    decreases rank[ms[i].name], 0
  {
    var f := ms[i].fields[k];
    assert RanksField(ms, ms[i], f, rank);
    FieldDef(f.name, TypeFromName(f.protoType), f.tag, f.repeated,
             if Refers(ms, f) then Table(TableOf(ms, FindMessage(ms, f.protoType), rank)) else NoTable)
  }

  /** `field_specs_to_defs` over all fields of message `i`. */
  function TableOf(ms: seq<ParsedMessage>, i: nat, ghost rank: map<string, nat>): (t: seq<FieldDef>)
    requires Ranked(ms, rank) && i < |ms|
    ensures |t| == |ms[i].fields|
    ensures forall k :: 0 <= k < |t| ==> t[k] == FieldOf(ms, i, k, rank)
    decreases rank[ms[i].name], 1
  {
    seq(|ms[i].fields|, k requires 0 <= k < |ms[i].fields| => FieldOf(ms, i, k, rank))
  }

  /** The table does not depend on which ranking shows that the messages are acyclic. */
  lemma {:induction false} RankIrrelevant(ms: seq<ParsedMessage>, i: nat, r: map<string, nat>, s: map<string, nat>)
    requires Ranked(ms, r) && Ranked(ms, s) && i < |ms|
    ensures TableOf(ms, i, r) == TableOf(ms, i, s)
    decreases r[ms[i].name]
  {
    hide TypeFromName;
    forall k | 0 <= k < |ms[i].fields| ensures FieldOf(ms, i, k, r) == FieldOf(ms, i, k, s) {
      var f := ms[i].fields[k];
      assert RanksField(ms, ms[i], f, r);
      if Refers(ms, f) { RankIrrelevant(ms, FindMessage(ms, f.protoType), r, s); }
    }
  }
}
