/** Which entries a schema report has. */
module DifferEntries {
  // Source: typeway-grpc/src/diff.rs

  import opened Bytes
  import opened Text
  import opened Schema
  import opened Differ

  /** The first new service of the same name, if there is one. */
  function Successor(now: seq<Service>, name: string): (s: Option<Service>) {
    var i := FindService(now, name); if i < |now| then Some(now[i]) else None
  }

  function SuccessorMethod(now: Service, name: string): (m: Option<RpcMethod>) {
    var i := FindMethod(now.methods, name); if i < |now.methods| then Some(now.methods[i]) else None
  }

  function SuccessorMessage(now: seq<ParsedMessage>, name: string): (m: Option<ParsedMessage>) {
    var i := FindMessage(now, name); if i < |now| then Some(now[i]) else None
  }

  function SuccessorField(now: ParsedMessage, tag: U32): (f: Option<ParsedField>) {
    var i := FindField(now.fields, tag); if i < |now.fields| then Some(now.fields[i]) else None
  }

  // ---- what each old or new item puts in the report ----

  predicate MethodEntry(was: Service, m: RpcMethod, now: Service, e: Change) {
    match SuccessorMethod(now, m.name)
    case None => e == Change(Breaking, was.name + "." + m.name, "RPC method removed")
    case Some(n) =>
      || (n.inputType != m.inputType
          && e == Change(Breaking, was.name + "." + m.name, "input type changed: " + m.inputType + " -> " + n.inputType))
      || (n.outputType != m.outputType
          && e == Change(Breaking, was.name + "." + m.name, "output type changed: " + m.outputType + " -> " + n.outputType))
  }

  predicate NewMethodEntry(was: Service, now: Service, n: RpcMethod, e: Change) {
    SuccessorMethod(was, n.name).None? && e == Change(Compatible, now.name + "." + n.name, "RPC method added")
  }

  predicate ServiceEntry(s: Service, now: seq<Service>, e: Change) {
    match Successor(now, s.name)
    case None => e == Change(Breaking, s.name, "service removed")
    case Some(t) =>
      || (exists k :: 0 <= k < |s.methods| && MethodEntry(s, s.methods[k], t, e))
      || (exists k :: 0 <= k < |t.methods| && NewMethodEntry(s, t, t.methods[k], e))
  }

  predicate NewServiceEntry(was: seq<Service>, t: Service, e: Change) {
    Successor(was, t.name).None? && e == Change(Compatible, t.name, "service added")
  }

  predicate FieldEntry(was: ParsedMessage, f: ParsedField, now: ParsedMessage, e: Change) {
    match SuccessorField(now, f.tag)
    case None => e == Change(Breaking, was.name + "." + f.name, "field removed (tag " + Decimal(f.tag) + ")")
    case Some(n) =>
      || (n.protoType != f.protoType
          && e == Change(Breaking, was.name + "." + f.name, "type changed: " + f.protoType + " -> " + n.protoType))
      || (n.name != f.name
          && e == Change(Compatible, was.name + " (tag " + Decimal(f.tag) + ")", "field renamed: " + f.name + " -> " + n.name))
  }

  predicate NewFieldEntry(was: ParsedMessage, now: ParsedMessage, n: ParsedField, e: Change) {
    SuccessorField(was, n.tag).None?
    && e == Change(Compatible, now.name + "." + n.name, "field added (tag " + Decimal(n.tag) + ")")
  }

  predicate MessageEntry(m: ParsedMessage, now: seq<ParsedMessage>, e: Change) {
    match SuccessorMessage(now, m.name)
    case None => e == Change(Breaking, m.name, "message removed")
    case Some(t) =>
      || (exists k :: 0 <= k < |m.fields| && FieldEntry(m, m.fields[k], t, e))
      || (exists k :: 0 <= k < |t.fields| && NewFieldEntry(m, t, t.fields[k], e))
  }

  predicate NewMessageEntry(was: seq<ParsedMessage>, t: ParsedMessage, e: Change) {
    SuccessorMessage(was, t.name).None? && e == Change(Compatible, t.name, "message added")
  }

  // ---- the lists of the report, item by item ----

  lemma {:induction false} MethodHas(was: Service, m: RpcMethod, now: Service, e: Change)
    ensures e in MethodChanges(was, m, now) <==> MethodEntry(was, m, now, e)
  {
    assert was.name + "." + m.name == Qualified(was.name, m.name);
    if SuccessorMethod(now, m.name).Some? {
      var n := SuccessorMethod(now, m.name).value;
      ArrowIs("input type changed", m.inputType, n.inputType);
      ArrowIs("output type changed", m.outputType, n.outputType);
    }
  }

  lemma {:induction false} ArrowIs(what: string, a: string, b: string)
    ensures Arrow(what, a, b) == what + ": " + a + " -> " + b
    ensures Arrow("input type changed", a, b) == "input type changed: " + a + " -> " + b
    ensures Arrow("output type changed", a, b) == "output type changed: " + a + " -> " + b
    ensures Arrow("type changed", a, b) == "type changed: " + a + " -> " + b
    ensures Arrow("field renamed", a, b) == "field renamed: " + a + " -> " + b
  {
    assert "input type changed" + ": " == "input type changed: " && "output type changed" + ": " == "output type changed: ";
    assert "type changed" + ": " == "type changed: " && "field renamed" + ": " == "field renamed: ";
  }

  lemma {:induction false} MethodsHave(was: Service, ms: seq<RpcMethod>, now: Service, e: Change)
    ensures e in MethodsChanges(was, ms, now) <==> exists k :: 0 <= k < |ms| && MethodEntry(was, ms[k], now, e)
  {
    hide MethodChanges, MethodEntry;
    if ms != [] {
      MethodsHave(was, ms[1..], now, e);
      MethodHas(was, ms[0], now, e);
      if k :| 0 <= k < |ms[1..]| && MethodEntry(was, ms[1..][k], now, e) { assert MethodEntry(was, ms[k + 1], now, e); }
      assert forall k :: 1 <= k < |ms| ==> ms[k] == ms[1..][k - 1];
    }
  }

  lemma {:induction false} NewMethodsHave(was: Service, now: Service, ms: seq<RpcMethod>, e: Change)
    ensures e in AddedMethods(was, now, ms) <==> exists k :: 0 <= k < |ms| && NewMethodEntry(was, now, ms[k], e)
  {
    if ms != [] {
      NewMethodsHave(was, now, ms[1..], e);
      assert now.name + "." + ms[0].name == Qualified(now.name, ms[0].name);
      if k :| 0 <= k < |ms[1..]| && NewMethodEntry(was, now, ms[1..][k], e) { assert NewMethodEntry(was, now, ms[k + 1], e); }
      assert forall k :: 1 <= k < |ms| ==> ms[k] == ms[1..][k - 1];
    }
  }

  lemma {:induction false} ServiceHas(s: Service, now: seq<Service>, e: Change)
    ensures e in ServiceChanges(s, now) <==> ServiceEntry(s, now, e)
  {
    hide MethodEntry, NewMethodEntry, MethodsChanges, AddedMethods;
    if Successor(now, s.name).Some? {
      var t := Successor(now, s.name).value;
      MethodsHave(s, s.methods, t, e);
      NewMethodsHave(s, t, t.methods, e);
    }
  }

  lemma {:induction false} ServicesHave(olds: seq<Service>, now: seq<Service>, e: Change)
    ensures e in ServicesChanges(olds, now) <==> exists k :: 0 <= k < |olds| && ServiceEntry(olds[k], now, e)
  {
    hide ServiceChanges, ServiceEntry;
    if olds != [] {
      ServicesHave(olds[1..], now, e);
      ServiceHas(olds[0], now, e);
      if k :| 0 <= k < |olds[1..]| && ServiceEntry(olds[1..][k], now, e) { assert ServiceEntry(olds[k + 1], now, e); }
      assert forall k :: 1 <= k < |olds| ==> olds[k] == olds[1..][k - 1];
    }
  }

  lemma {:induction false} NewServicesHave(olds: seq<Service>, news: seq<Service>, e: Change)
    ensures e in AddedServices(olds, news) <==> exists k :: 0 <= k < |news| && NewServiceEntry(olds, news[k], e)
  {
    if news != [] {
      NewServicesHave(olds, news[1..], e);
      if k :| 0 <= k < |news[1..]| && NewServiceEntry(olds, news[1..][k], e) { assert NewServiceEntry(olds, news[k + 1], e); }
      assert forall k :: 1 <= k < |news| ==> news[k] == news[1..][k - 1];
    }
  }

  lemma {:induction false} FieldHas(was: ParsedMessage, f: ParsedField, now: ParsedMessage, e: Change)
    ensures e in FieldChanges(was, f, now) <==> FieldEntry(was, f, now, e)
  {
    hide Decimal;
    assert was.name + "." + f.name == Qualified(was.name, f.name);
    if SuccessorField(now, f.tag).Some? {
      var n := SuccessorField(now, f.tag).value;
      ArrowIs("type changed", f.protoType, n.protoType);
      ArrowIs("field renamed", f.name, n.name);
    }
  }

  lemma {:induction false} FieldsHave(was: ParsedMessage, fs: seq<ParsedField>, now: ParsedMessage, e: Change)
    ensures e in FieldsChanges(was, fs, now) <==> exists k :: 0 <= k < |fs| && FieldEntry(was, fs[k], now, e)
  {
    hide FieldChanges, FieldEntry;
    if fs != [] {
      FieldsHave(was, fs[1..], now, e);
      FieldHas(was, fs[0], now, e);
      if k :| 0 <= k < |fs[1..]| && FieldEntry(was, fs[1..][k], now, e) { assert FieldEntry(was, fs[k + 1], now, e); }
      assert forall k :: 1 <= k < |fs| ==> fs[k] == fs[1..][k - 1];
    }
  }

  lemma {:induction false} NewFieldsHave(was: ParsedMessage, now: ParsedMessage, fs: seq<ParsedField>, e: Change)
    ensures e in AddedFields(was, now, fs) <==> exists k :: 0 <= k < |fs| && NewFieldEntry(was, now, fs[k], e)
  {
    hide Decimal;
    if fs != [] {
      NewFieldsHave(was, now, fs[1..], e);
      assert now.name + "." + fs[0].name == Qualified(now.name, fs[0].name);
      if k :| 0 <= k < |fs[1..]| && NewFieldEntry(was, now, fs[1..][k], e) { assert NewFieldEntry(was, now, fs[k + 1], e); }
      assert forall k :: 1 <= k < |fs| ==> fs[k] == fs[1..][k - 1];
    }
  }

  lemma {:induction false} MessageHas(m: ParsedMessage, now: seq<ParsedMessage>, e: Change)
    ensures e in MessageChanges(m, now) <==> MessageEntry(m, now, e)
  {
    hide FieldEntry, NewFieldEntry, FieldsChanges, AddedFields;
    if SuccessorMessage(now, m.name).Some? {
      var t := SuccessorMessage(now, m.name).value;
      FieldsHave(m, m.fields, t, e);
      NewFieldsHave(m, t, t.fields, e);
    }
  }

  lemma {:induction false} MessagesHave(olds: seq<ParsedMessage>, now: seq<ParsedMessage>, e: Change)
    ensures e in MessagesChanges(olds, now) <==> exists k :: 0 <= k < |olds| && MessageEntry(olds[k], now, e)
  {
    hide MessageChanges, MessageEntry;
    if olds != [] {
      MessagesHave(olds[1..], now, e);
      MessageHas(olds[0], now, e);
      if k :| 0 <= k < |olds[1..]| && MessageEntry(olds[1..][k], now, e) { assert MessageEntry(olds[k + 1], now, e); }
      assert forall k :: 1 <= k < |olds| ==> olds[k] == olds[1..][k - 1];
    }
  }

  lemma {:induction false} NewMessagesHave(olds: seq<ParsedMessage>, news: seq<ParsedMessage>, e: Change)
    ensures e in AddedMessages(olds, news) <==> exists k :: 0 <= k < |news| && NewMessageEntry(olds, news[k], e)
  {
    if news != [] {
      NewMessagesHave(olds, news[1..], e);
      if k :| 0 <= k < |news[1..]| && NewMessageEntry(olds, news[1..][k], e) { assert NewMessageEntry(olds, news[k + 1], e); }
      assert forall k :: 1 <= k < |news| ==> news[k] == news[1..][k - 1];
    }
  }

  /**
    The report holds exactly the entries that the two files call for: removed services, RPCs, messages and field
    tags, changed types from old to new, renamed fields, and everything new, each with its kind and its place.
  */
  lemma {:induction false} ReportExact(was: ProtoFile, now: ProtoFile, e: Change)
    ensures e in Report(was, now) <==>
      || (exists k :: 0 <= k < |was.services| && ServiceEntry(was.services[k], now.services, e))
      || (exists k :: 0 <= k < |now.services| && NewServiceEntry(was.services, now.services[k], e))
      || (exists k :: 0 <= k < |was.messages| && MessageEntry(was.messages[k], now.messages, e))
      || (exists k :: 0 <= k < |now.messages| && NewMessageEntry(was.messages, now.messages[k], e))
  {
    hide ServicesChanges, AddedServices, MessagesChanges, AddedMessages;
    hide ServiceEntry, NewServiceEntry, MessageEntry, NewMessageEntry;
    ServicesHave(was.services, now.services, e);
    NewServicesHave(was.services, now.services, e);
    MessagesHave(was.messages, now.messages, e);
    NewMessagesHave(was.messages, now.messages, e);
  }
}
