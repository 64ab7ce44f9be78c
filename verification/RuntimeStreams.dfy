/** Decoding distributes over concatenation. */
module RuntimeStreams {
  // Source: typeway-grpc/src/proto_codec.rs

  import opened Bytes
  import opened Varint
  import opened Wire
  import opened RuntimeCodec
  import opened RuntimeLaws

  // ---- concatenation ----

  lemma {:induction false} RecordExtends(fields: seq<FieldDef>, a: seq<Byte>, b: seq<Byte>, st: State)
    requires DecodeRecord(fields, a, st).Ok?
    ensures DecodeRecord(fields, a + b, st) == DecodeRecord(fields, a, st)
  {
    hide Apply, ReadWireValue, ReadVarint;
    ReadVarintExtends(a, b);
    var t := ReadVarint(a).value;
    assert (a + b)[t.consumed..] == a[t.consumed..] + b;
    ReadWireValueExtends(a[t.consumed..], b, t.value % 8);
  }

  /** A decodable prefix is read exactly as on its own, then the loop goes on from its state. */
  lemma {:induction false} LoopConcat(fields: seq<FieldDef>, a: seq<Byte>, b: seq<Byte>, st: State)
    requires DecodeLoop(fields, a, st).Ok?
    ensures DecodeLoop(fields, a + b, st) == DecodeLoop(fields, b, DecodeLoop(fields, a, st).value)
    decreases |a|
  {
    hide DecodeRecord;
    if a == [] {
      assert a + b == b;
    } else {
      RecordExtends(fields, a, b, st);
      var step := DecodeRecord(fields, a, st).value;
      assert (a + b)[step.consumed..] == a[step.consumed..] + b;
      LoopConcat(fields, a[step.consumed..], b, step.value);
    }
  }

  /** Later single fields win, repeated fields append. */
  function Merge(a: State, b: State): (r: State) {
    State(a.single + b.single,
          map name | name in a.many.Keys + b.many.Keys :: Items(a, name) + Items(b, name))
  }

  lemma {:induction false} MergedItems(a: State, b: State, name: string)
    ensures Items(Merge(a, b), name) == Items(a, name) + Items(b, name)
    ensures name in Merge(a, b).many <==> name in a.many || name in b.many
  {
  }

  lemma {:induction false} PushedItems(st: State, name: string, items: seq<Json>, n: string)
    ensures n in Push(st, name, items).many <==> n == name || n in st.many
    ensures Items(Push(st, name, items), n) == if n == name then Items(st, name) + items else Items(st, n)
  {
  }

  lemma {:induction false} PushedSingle(st: State, name: string, items: seq<Json>)
    ensures Push(st, name, items).single == st.single
  {
  }

  lemma {:induction false} MergePush(a: State, b: State, name: string, items: seq<Json>)
    ensures Merge(a, Push(b, name, items)) == Push(Merge(a, b), name, items)
  {
    hide Merge, Push, Items;
    var l, r := Merge(a, Push(b, name, items)), Push(Merge(a, b), name, items);
    forall n ensures (n in l.many <==> n in r.many) && Items(l, n) == Items(r, n) {
      MergedItems(a, Push(b, name, items), n);
      MergedItems(a, b, n);
      PushedItems(b, name, items, n);
      PushedItems(Merge(a, b), name, items, n);
      assert Items(a, name) + (Items(b, name) + items) == Items(a, name) + Items(b, name) + items;
    }
    SameMany(l, r);
    PushedSingle(b, name, items);
    PushedSingle(Merge(a, b), name, items);
    MergedSingle(a, b);
    MergedSingle(a, Push(b, name, items));
  }

  lemma {:induction false} MergedSingle(a: State, b: State)
    ensures Merge(a, b).single == a.single + b.single
  {
  }

  lemma {:induction false} SameMany(l: State, r: State)
    requires forall n :: (n in l.many <==> n in r.many) && Items(l, n) == Items(r, n)
    ensures l.many == r.many
  {
    assert l.many.Keys == r.many.Keys;
    forall n | n in l.many ensures l.many[n] == r.many[n] {
      assert Items(l, n) == Items(r, n);
    }
  }

  lemma {:induction false} MergeSet(a: State, b: State, name: string, j: Json)
    ensures Merge(a, b.(single := b.single[name := j]))
         == Merge(a, b).(single := Merge(a, b).single[name := j])
  {
    assert a.single + b.single[name := j] == (a.single + b.single)[name := j];
  }

  lemma {:induction false} ApplyMerges(f: FieldDef, wv: WireValue, a: State, b: State)
    requires WellSized(wv) && Apply(f, wv, b).Ok?
    ensures Apply(f, wv, Merge(a, b)) == Ok(Merge(a, Apply(f, wv, b).value))
  {
    hide Merge, Push, UnpackScalars, WireToJson;
    if f.repeated && wv.LengthDelimited? && IsPackable(f.ptype) {
      MergePush(a, b, f.name, UnpackScalars(wv.data, f.ptype).value);
    } else {
      var j := WireToJson(wv, f.ptype, f.nested).value;
      MergePush(a, b, f.name, [j]);
      MergeSet(a, b, f.name, j);
    }
  }

  lemma {:induction false} RecordMerges(fields: seq<FieldDef>, bs: seq<Byte>, a: State, b: State)
    requires DecodeRecord(fields, bs, b).Ok?
    ensures var step := DecodeRecord(fields, bs, b).value;
            DecodeRecord(fields, bs, Merge(a, b)) == Ok(Read(Merge(a, step.value), step.consumed))
  {
    hide Apply, ReadWireValue, ReadVarint, Merge;
    var t := ReadVarint(bs).value;
    var body := bs[t.consumed..];
    ReadWellSized(body, t.value % 8);
    var i := FindDef(fields, FieldNumber(t.value));
    if i < |fields| {
      ApplyMerges(fields[i], ReadWireValue(body, t.value % 8).value.value, a, b);
    }
  }

  /** Earlier state only shows through where later records did not write. */
  lemma {:induction false} LoopMerges(fields: seq<FieldDef>, bs: seq<Byte>, a: State, b: State)
    requires DecodeLoop(fields, bs, b).Ok?
    ensures DecodeLoop(fields, bs, Merge(a, b)) == Ok(Merge(a, DecodeLoop(fields, bs, b).value))
    decreases |bs|
  {
    hide DecodeRecord, Merge;
    if bs != [] {
      RecordMerges(fields, bs, a, b);
      var step := DecodeRecord(fields, bs, b).value;
      LoopMerges(fields, bs[step.consumed..], a, step.value);
    }
  }

  lemma {:induction false} MergeEmpty(a: State)
    ensures Merge(a, EMPTY) == a
  {
    assert forall name :: name in a.many ==> a.many[name] + [] == a.many[name];
    assert Merge(a, EMPTY).many == a.many;
    assert a.single + map[] == a.single;
  }

  /** Decoding `a ++ b` is the merge of decoding each alone. */
  lemma {:induction false} DecodeConcat(fields: seq<FieldDef>, a: seq<Byte>, b: seq<Byte>)
    requires DecodeLoop(fields, a, EMPTY).Ok? && DecodeLoop(fields, b, EMPTY).Ok?
    ensures DecodeLoop(fields, a + b, EMPTY)
         == Ok(Merge(DecodeLoop(fields, a, EMPTY).value, DecodeLoop(fields, b, EMPTY).value))
  {
    hide DecodeLoop, Merge;
    LoopConcat(fields, a, b, EMPTY);
    var sa := DecodeLoop(fields, a, EMPTY).value;
    MergeEmpty(sa);
    LoopMerges(fields, b, sa, EMPTY);
  }

  // ---- what a state can hold ----

  /** Single and repeated names come from the table, on the side their field says. */
  ghost predicate FromTable(fields: seq<FieldDef>, st: State) {
    && (forall name :: name in st.single ==> exists i :: 0 <= i < |fields| && fields[i].name == name && !fields[i].repeated)
    && (forall name :: name in st.many ==> exists i :: 0 <= i < |fields| && fields[i].name == name && fields[i].repeated)
  }

  lemma {:induction false} ApplyFromTable(fields: seq<FieldDef>, i: nat, wv: WireValue, st: State)
    requires i < |fields| && WellSized(wv) && FromTable(fields, st) && Apply(fields[i], wv, st).Ok?
    ensures FromTable(fields, Apply(fields[i], wv, st).value)
  {
    hide UnpackScalars, WireToJson;
    assert fields[i].name == fields[i].name;
  }

  lemma {:induction false} LoopFromTable(fields: seq<FieldDef>, bs: seq<Byte>, st: State)
    requires FromTable(fields, st) && DecodeLoop(fields, bs, st).Ok?
    ensures FromTable(fields, DecodeLoop(fields, bs, st).value)
    decreases |bs|
  {
    hide Apply, ReadWireValue, ReadVarint, FromTable;
    if bs != [] {
      var t := ReadVarint(bs).value;
      var body := bs[t.consumed..];
      ReadWellSized(body, t.value % 8);
      var i := FindDef(fields, FieldNumber(t.value));
      if i < |fields| { ApplyFromTable(fields, i, ReadWireValue(body, t.value % 8).value.value, st); }
      var step := DecodeRecord(fields, bs, st).value;
      LoopFromTable(fields, bs[step.consumed..], step.value);
    }
  }

  /** The decoded object of a byte string. */
  ghost predicate Decodes(bs: seq<Byte>, fields: seq<FieldDef>, m: map<string, Json>) {
    ProtoToJson(bs, fields) == Ok(JObj(m))
  }

  /** The homomorphism read off the JSON objects, field by field. */
  ghost predicate Combines(f: FieldDef, ma: map<string, Json>, mb: map<string, Json>, m: map<string, Json>) {
    if f.repeated then
      && (f.name in m <==> f.name in ma || f.name in mb)
      && (f.name in m ==> m[f.name] == JArr(ArrayOf(ma, f.name) + ArrayOf(mb, f.name)))
    else
      && (f.name in m <==> f.name in ma || f.name in mb)
      && (f.name in m ==> m[f.name] == if f.name in mb then mb[f.name] else ma[f.name])
  }

  function ArrayOf(m: map<string, Json>, name: string): (items: seq<Json>) {
    if name in m && m[name].JArr? then m[name].items else []
  }

  /** In a table with unique names, a name lives on one side of the state only. */
  lemma {:induction false} OneSide(fields: seq<FieldDef>, i: nat, st: State)
    requires UniqueNames(fields) && i < |fields| && FromTable(fields, st)
    ensures fields[i].repeated ==> fields[i].name !in st.single
    ensures !fields[i].repeated ==> fields[i].name !in st.many
  {
    var f := fields[i];
    if f.name in st.single {
      var k :| 0 <= k < |fields| && fields[k].name == f.name && !fields[k].repeated;
      assert k == i;
    }
    if f.name in st.many {
      var k :| 0 <= k < |fields| && fields[k].name == f.name && fields[k].repeated;
      assert k == i;
    }
  }

  lemma {:induction false} FinishAt(st: State, name: string)
    ensures name in Finish(st) <==> name in st.single || name in st.many
    ensures name in st.many ==> Finish(st)[name] == JArr(st.many[name])
    ensures name in st.single && name !in st.many ==> Finish(st)[name] == st.single[name]
    ensures name !in st.single ==> ArrayOf(Finish(st), name) == Items(st, name)
  {
  }

  lemma {:induction false} MergeCombines(fields: seq<FieldDef>, i: nat, a: State, b: State)
    requires UniqueNames(fields) && i < |fields| && FromTable(fields, a) && FromTable(fields, b)
    ensures Combines(fields[i], Finish(a), Finish(b), Finish(Merge(a, b)))
  {
    hide FromTable, Finish, Merge, ArrayOf;
    var name := fields[i].name;
    OneSide(fields, i, a);
    OneSide(fields, i, b);
    FinishAt(a, name);
    FinishAt(b, name);
    FinishAt(Merge(a, b), name);
    MergedItems(a, b, name);
    MergedSingle(a, b);
  }

  /**
    If `a` and `b` decode, so does `a ++ b`: each single field is `b`'s where `b` has it and `a`'s
    otherwise, and each repeated field is `a`'s items followed by `b`'s.
  */
  lemma {:induction false} Homomorphism(fields: seq<FieldDef>, a: seq<Byte>, b: seq<Byte>,
                                        ma: map<string, Json>, mb: map<string, Json>)
    returns (m: map<string, Json>)
    requires UniqueNames(fields) && Decodes(a, fields, ma) && Decodes(b, fields, mb)
    ensures Decodes(a + b, fields, m) && m.Keys == ma.Keys + mb.Keys
    ensures forall i :: 0 <= i < |fields| ==> Combines(fields[i], ma, mb, m)
  {
    hide DecodeLoop, Finish, Merge, Combines, FromTable;
    DecodeConcat(fields, a, b);
    var sa, sb := DecodeLoop(fields, a, EMPTY).value, DecodeLoop(fields, b, EMPTY).value;
    EmptyFromTable(fields);
    LoopFromTable(fields, a, EMPTY);
    LoopFromTable(fields, b, EMPTY);
    m := Finish(Merge(sa, sb));
    MergedKeys(sa, sb);
    forall i | 0 <= i < |fields| ensures Combines(fields[i], ma, mb, m) {
      MergeCombines(fields, i, sa, sb);
    }
  }

  lemma {:induction false} MergedKeys(a: State, b: State)
    ensures Finish(Merge(a, b)).Keys == Finish(a).Keys + Finish(b).Keys
  {
    forall name ensures name in Finish(Merge(a, b)) <==> name in Finish(a) || name in Finish(b) {
      FinishAt(a, name);
      FinishAt(b, name);
      FinishAt(Merge(a, b), name);
      MergedItems(a, b, name);
      MergedSingle(a, b);
    }
  }

  lemma {:induction false} EmptyFromTable(fields: seq<FieldDef>)
    ensures FromTable(fields, EMPTY)
  {
  }

  // ---- smaller tables ----

  /** `sub` lists some of the fields of `full`, unchanged. */
  predicate SubTable(sub: seq<FieldDef>, full: seq<FieldDef>) {
    UniqueTags(sub) && UniqueTags(full) && UniqueNames(full) && forall i :: 0 <= i < |sub| ==> sub[i] in full
  }

  ghost function Names(fields: seq<FieldDef>): (names: set<string>) {
    set i | 0 <= i < |fields| :: fields[i].name
  }

  ghost function Restrict(st: State, names: set<string>): (r: State) {
    State(map name | name in st.single && name in names :: st.single[name],
          map name | name in st.many && name in names :: st.many[name])
  }

  lemma {:induction false} RestrictPush(st: State, name: string, items: seq<Json>, names: set<string>)
    ensures Restrict(Push(st, name, items), names)
         == if name in names then Push(Restrict(st, names), name, items) else Restrict(st, names)
  {
    var l := Restrict(Push(st, name, items), names);
    if name in names {
      assert l.many == Push(Restrict(st, names), name, items).many;
    } else {
      assert l.many == Restrict(st, names).many;
    }
  }

  lemma {:induction false} RestrictSet(st: State, name: string, j: Json, names: set<string>)
    ensures Restrict(st.(single := st.single[name := j]), names)
         == if name in names then Restrict(st, names).(single := Restrict(st, names).single[name := j])
            else Restrict(st, names)
  {
    var l, r := Restrict(st.(single := st.single[name := j]), names), Restrict(st, names);
    if name in names {
      assert l.single == r.single[name := j];
    } else {
      assert l.single == r.single;
    }
  }

  lemma {:induction false} ApplyRestricts(f: FieldDef, wv: WireValue, st: State, names: set<string>)
    requires WellSized(wv) && Apply(f, wv, st).Ok?
    ensures f.name in names ==> Apply(f, wv, Restrict(st, names)) == Ok(Restrict(Apply(f, wv, st).value, names))
    ensures f.name !in names ==> Restrict(Apply(f, wv, st).value, names) == Restrict(st, names)
  {
    hide Restrict, Push, UnpackScalars, WireToJson;
    if f.repeated && wv.LengthDelimited? && IsPackable(f.ptype) {
      RestrictPush(st, f.name, UnpackScalars(wv.data, f.ptype).value, names);
    } else {
      var j := WireToJson(wv, f.ptype, f.nested).value;
      RestrictPush(st, f.name, [j], names);
      RestrictSet(st, f.name, j, names);
    }
  }

  /** Looking up a tag in the smaller table finds the same field or nothing. */
  lemma {:induction false} SubLookup(sub: seq<FieldDef>, full: seq<FieldDef>, tag: U32)
    requires SubTable(sub, full)
    ensures var i, j := FindDef(sub, tag), FindDef(full, tag);
            && (i < |sub| ==> j < |full| && sub[i] == full[j])
            && (i == |sub| && j < |full| ==> full[j].name !in Names(sub))
  {
    var i, j := FindDef(sub, tag), FindDef(full, tag);
    if i < |sub| {
      var k :| 0 <= k < |full| && full[k] == sub[i];
      FindOwn(full, k);
    } else if j < |full| {
      forall k | 0 <= k < |sub| ensures sub[k].name != full[j].name {
        var l :| 0 <= l < |full| && full[l] == sub[k];
      }
    }
  }

  lemma {:induction false} RecordRestricts(sub: seq<FieldDef>, full: seq<FieldDef>, bs: seq<Byte>, st: State)
    requires SubTable(sub, full) && DecodeRecord(full, bs, st).Ok?
    ensures var step := DecodeRecord(full, bs, st).value;
            DecodeRecord(sub, bs, Restrict(st, Names(sub))) == Ok(Read(Restrict(step.value, Names(sub)), step.consumed))
  {
    hide Apply, ReadWireValue, ReadVarint, Restrict, Names, SubTable;
    var t := ReadVarint(bs).value;
    var body := bs[t.consumed..];
    ReadWellSized(body, t.value % 8);
    var wv := ReadWireValue(body, t.value % 8).value.value;
    SubLookup(sub, full, FieldNumber(t.value));
    var i, j := FindDef(sub, FieldNumber(t.value)), FindDef(full, FieldNumber(t.value));
    if j < |full| {
      ApplyRestricts(full[j], wv, st, Names(sub));
      if i < |sub| { NameListed(sub, i); }
    }
  }

  lemma {:induction false} NameListed(fields: seq<FieldDef>, i: nat)
    requires i < |fields|
    ensures fields[i].name in Names(fields)
  {
  }

  lemma {:induction false} LoopRestricts(sub: seq<FieldDef>, full: seq<FieldDef>, bs: seq<Byte>, st: State)
    requires SubTable(sub, full) && DecodeLoop(full, bs, st).Ok?
    ensures DecodeLoop(sub, bs, Restrict(st, Names(sub)))
         == Ok(Restrict(DecodeLoop(full, bs, st).value, Names(sub)))
    decreases |bs|
  {
    hide DecodeRecord, Restrict, Names, SubTable;
    if bs != [] {
      RecordRestricts(sub, full, bs, st);
      var step := DecodeRecord(full, bs, st).value;
      LoopRestricts(sub, full, bs[step.consumed..], step.value);
    }
  }

  /** Forward compatibility: a reader with fewer fields sees the projection of the full reading. */
  lemma {:induction false} Projection(sub: seq<FieldDef>, full: seq<FieldDef>, bs: seq<Byte>, m: map<string, Json>)
    requires SubTable(sub, full) && Decodes(bs, full, m)
    ensures Decodes(bs, sub, map name | name in m && name in Names(sub) :: m[name])
  {
    hide DecodeLoop, SubTable, Names;
    LoopRestricts(sub, full, bs, EMPTY);
    var st := DecodeLoop(full, bs, EMPTY).value;
    assert Finish(Restrict(st, Names(sub))) == map name | name in m && name in Names(sub) :: m[name];
  }
}
