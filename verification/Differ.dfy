/** The schema differ: `diff_services` and `diff_messages` (typeway-grpc/src/diff.rs). */
module Differ {
  import opened Bytes
  import opened Text
  import opened Schema
  import ProtoParser

  datatype ChangeKind = Compatible | Breaking

  datatype Change = Change(kind: ChangeKind, location: string, description: string)

  function Qualified(a: string, b: string): (s: string) { a + "." + b }

  function Arrow(what: string, from: string, to: string): (s: string) { what + ": " + from + " -> " + to }

  function When(c: bool, kind: ChangeKind, location: string, description: string): (cs: seq<Change>) {
    if c then [Change(kind, location, description)] else []
  }

  // ---- the report as a function ----

  function MethodChanges(was: Service, m: RpcMethod, now: Service): (cs: seq<Change>) {
    var at, i := Qualified(was.name, m.name), FindMethod(now.methods, m.name);
    if i == |now.methods| then [Change(Breaking, at, "RPC method removed")]
    else
      var n := now.methods[i];
      When(n.inputType != m.inputType, Breaking, at, Arrow("input type changed", m.inputType, n.inputType)) +
      When(n.outputType != m.outputType, Breaking, at, Arrow("output type changed", m.outputType, n.outputType))
  }

  function MethodsChanges(was: Service, ms: seq<RpcMethod>, now: Service): (cs: seq<Change>) {
    if ms == [] then [] else MethodChanges(was, ms[0], now) + MethodsChanges(was, ms[1..], now)
  }

  function AddedMethods(was: Service, now: Service, ms: seq<RpcMethod>): (cs: seq<Change>) {
    if ms == [] then []
    else
      When(FindMethod(was.methods, ms[0].name) == |was.methods|, Compatible, Qualified(now.name, ms[0].name),
           "RPC method added") + AddedMethods(was, now, ms[1..])
  }

  function ServiceChanges(was: Service, news: seq<Service>): (cs: seq<Change>) {
    var i := FindService(news, was.name);
    if i == |news| then [Change(Breaking, was.name, "service removed")]
    else MethodsChanges(was, was.methods, news[i]) + AddedMethods(was, news[i], news[i].methods)
  }

  function ServicesChanges(olds: seq<Service>, news: seq<Service>): (cs: seq<Change>) {
    if olds == [] then [] else ServiceChanges(olds[0], news) + ServicesChanges(olds[1..], news)
  }

  function AddedServices(olds: seq<Service>, news: seq<Service>): (cs: seq<Change>) {
    if news == [] then []
    else
      When(FindService(olds, news[0].name) == |olds|, Compatible, news[0].name, "service added") +
      AddedServices(olds, news[1..])
  }

  function FieldChanges(was: ParsedMessage, f: ParsedField, now: ParsedMessage): (cs: seq<Change>) {
    var at, i := Qualified(was.name, f.name), FindField(now.fields, f.tag);
    if i == |now.fields| then [Change(Breaking, at, "field removed (tag " + Decimal(f.tag) + ")")]
    else
      var n := now.fields[i];
      When(n.protoType != f.protoType, Breaking, at, Arrow("type changed", f.protoType, n.protoType)) +
      When(n.name != f.name, Compatible, was.name + " (tag " + Decimal(f.tag) + ")",
           Arrow("field renamed", f.name, n.name))
  }

  function FieldsChanges(was: ParsedMessage, fs: seq<ParsedField>, now: ParsedMessage): (cs: seq<Change>) {
    if fs == [] then [] else FieldChanges(was, fs[0], now) + FieldsChanges(was, fs[1..], now)
  }

  function AddedFields(was: ParsedMessage, now: ParsedMessage, fs: seq<ParsedField>): (cs: seq<Change>) {
    if fs == [] then []
    else
      When(FindField(was.fields, fs[0].tag) == |was.fields|, Compatible, Qualified(now.name, fs[0].name),
           "field added (tag " + Decimal(fs[0].tag) + ")") + AddedFields(was, now, fs[1..])
  }

  function MessageChanges(was: ParsedMessage, news: seq<ParsedMessage>): (cs: seq<Change>) {
    var i := FindMessage(news, was.name);
    if i == |news| then [Change(Breaking, was.name, "message removed")]
    else FieldsChanges(was, was.fields, news[i]) + AddedFields(was, news[i], news[i].fields)
  }

  function MessagesChanges(olds: seq<ParsedMessage>, news: seq<ParsedMessage>): (cs: seq<Change>) {
    if olds == [] then [] else MessageChanges(olds[0], news) + MessagesChanges(olds[1..], news)
  }

  function AddedMessages(olds: seq<ParsedMessage>, news: seq<ParsedMessage>): (cs: seq<Change>) {
    if news == [] then []
    else
      When(FindMessage(olds, news[0].name) == |olds|, Compatible, news[0].name, "message added") +
      AddedMessages(olds, news[1..])
  }

  /** Everything `diff_protos` reports for two parsed files, in order. */
  function Report(was: ProtoFile, now: ProtoFile): (cs: seq<Change>) {
    ServicesChanges(was.services, now.services) + AddedServices(was.services, now.services) +
    MessagesChanges(was.messages, now.messages) + AddedMessages(was.messages, now.messages)
  }

  // ---- the nested loops over a shared change list ----

  class ChangeLog {
    var changes: seq<Change>

    constructor ()
      ensures changes == []
    {
      changes := [];
    }

    method Push(c: Change)
      modifies this
      ensures changes == old(changes) + [c]
    {
      changes := changes + [c];
    }
  }

  method DiffMethod(was: Service, m: RpcMethod, now: Service, log: ChangeLog)
    modifies log
    ensures log.changes == old(log.changes) + MethodChanges(was, m, now)
  {
    var at, i := Qualified(was.name, m.name), FindMethod(now.methods, m.name);
    if i == |now.methods| {
      log.Push(Change(Breaking, at, "RPC method removed"));
    } else {
      var n := now.methods[i];
      if n.inputType != m.inputType {
        log.Push(Change(Breaking, at, Arrow("input type changed", m.inputType, n.inputType)));
      }
      if n.outputType != m.outputType {
        log.Push(Change(Breaking, at, Arrow("output type changed", m.outputType, n.outputType)));
      }
    }
  }

  method LogAddedMethods(was: Service, now: Service, log: ChangeLog)
    modifies log
    ensures log.changes == old(log.changes) + AddedMethods(was, now, now.methods)
  {
    var i := 0;
    while i < |now.methods|
      invariant i <= |now.methods|
      invariant old(log.changes) + AddedMethods(was, now, now.methods)
             == log.changes + AddedMethods(was, now, now.methods[i..])
    {
      if FindMethod(was.methods, now.methods[i].name) == |was.methods| {
        log.Push(Change(Compatible, Qualified(now.name, now.methods[i].name), "RPC method added"));
      }
      i := i + 1;
    }
    assert now.methods[i..] == [] && log.changes + [] == log.changes;
  }

  lemma {:induction false} MethodsChangesSnoc(was: Service, xs: seq<RpcMethod>, x: RpcMethod, now: Service)
    ensures MethodsChanges(was, xs + [x], now) == MethodsChanges(was, xs, now) + MethodChanges(was, x, now)
  {
    hide MethodChanges;
    if xs == [] {
      assert [x][1..] == [];
    } else {
      MethodsChangesSnoc(was, xs[1..], x, now);
      assert (xs + [x])[1..] == xs[1..] + [x];
    }
  }

  method DiffService(was: Service, now: Service, log: ChangeLog)
    modifies log
    ensures log.changes
         == old(log.changes) + (MethodsChanges(was, was.methods, now) + AddedMethods(was, now, now.methods))
  {
    hide MethodChanges, AddedMethods;
    var xs, i := was.methods, 0;
    while i < |xs|
      invariant i <= |xs|
      invariant log.changes == old(log.changes) + MethodsChanges(was, xs[..i], now)
    {
      MethodsChangesSnoc(was, xs[..i], xs[i], now);
      assert xs[..i + 1] == xs[..i] + [xs[i]];
      DiffMethod(was, xs[i], now, log);
      i := i + 1;
    }
    assert xs[..i] == xs;
    LogAddedMethods(was, now, log);
  }

  method LogAddedServices(olds: seq<Service>, news: seq<Service>, log: ChangeLog)
    modifies log
    ensures log.changes == old(log.changes) + AddedServices(olds, news)
  {
    var i := 0;
    while i < |news|
      invariant i <= |news|
      invariant old(log.changes) + AddedServices(olds, news) == log.changes + AddedServices(olds, news[i..])
    {
      if FindService(olds, news[i].name) == |olds| {
        log.Push(Change(Compatible, news[i].name, "service added"));
      }
      i := i + 1;
    }
    assert news[i..] == [] && log.changes + [] == log.changes;
  }

  lemma {:induction false} ServicesChangesSnoc(olds: seq<Service>, x: Service, news: seq<Service>)
    ensures ServicesChanges(olds + [x], news) == ServicesChanges(olds, news) + ServiceChanges(x, news)
  {
    hide ServiceChanges;
    if olds == [] {
      assert [x][1..] == [];
    } else {
      ServicesChangesSnoc(olds[1..], x, news);
      assert (olds + [x])[1..] == olds[1..] + [x];
    }
  }

  /** The `find` and its two outcomes. */
  method LogServiceChanges(was: Service, news: seq<Service>, log: ChangeLog)
    modifies log
    ensures log.changes == old(log.changes) + ServiceChanges(was, news)
  {
    var j := FindService(news, was.name);
    if j == |news| {
      log.Push(Change(Breaking, was.name, "service removed"));
    } else {
      DiffService(was, news[j], log);
    }
  }

  method DiffServices(olds: seq<Service>, news: seq<Service>, log: ChangeLog)
    modifies log
    ensures log.changes == old(log.changes) + ServicesChanges(olds, news) + AddedServices(olds, news)
  {
    hide ServiceChanges, AddedServices;
    var i := 0;
    while i < |olds|
      invariant i <= |olds|
      invariant log.changes == old(log.changes) + ServicesChanges(olds[..i], news)
    {
      ServicesChangesSnoc(olds[..i], olds[i], news);
      assert olds[..i + 1] == olds[..i] + [olds[i]];
      LogServiceChanges(olds[i], news, log);
      i := i + 1;
    }
    assert olds[..i] == olds;
    LogAddedServices(olds, news, log);
  }

  method DiffField(was: ParsedMessage, f: ParsedField, now: ParsedMessage, log: ChangeLog)
    modifies log
    ensures log.changes == old(log.changes) + FieldChanges(was, f, now)
  {
    var at, i := Qualified(was.name, f.name), FindField(now.fields, f.tag);
    if i == |now.fields| {
      log.Push(Change(Breaking, at, "field removed (tag " + Decimal(f.tag) + ")"));
    } else {
      var n := now.fields[i];
      if n.protoType != f.protoType {
        log.Push(Change(Breaking, at, Arrow("type changed", f.protoType, n.protoType)));
      }
      if n.name != f.name {
        log.Push(Change(Compatible, was.name + " (tag " + Decimal(f.tag) + ")",
                        Arrow("field renamed", f.name, n.name)));
      }
    }
  }

  method LogAddedFields(was: ParsedMessage, now: ParsedMessage, log: ChangeLog)
    modifies log
    ensures log.changes == old(log.changes) + AddedFields(was, now, now.fields)
  {
    var i := 0;
    while i < |now.fields|
      invariant i <= |now.fields|
      invariant old(log.changes) + AddedFields(was, now, now.fields)
             == log.changes + AddedFields(was, now, now.fields[i..])
    {
      if FindField(was.fields, now.fields[i].tag) == |was.fields| {
        log.Push(Change(Compatible, Qualified(now.name, now.fields[i].name),
                        "field added (tag " + Decimal(now.fields[i].tag) + ")"));
      }
      i := i + 1;
    }
    assert now.fields[i..] == [] && log.changes + [] == log.changes;
  }

  lemma {:induction false} FieldsChangesSnoc(was: ParsedMessage, xs: seq<ParsedField>, x: ParsedField, now: ParsedMessage)
    ensures FieldsChanges(was, xs + [x], now) == FieldsChanges(was, xs, now) + FieldChanges(was, x, now)
  {
    hide FieldChanges;
    if xs == [] {
      assert [x][1..] == [];
    } else {
      FieldsChangesSnoc(was, xs[1..], x, now);
      assert (xs + [x])[1..] == xs[1..] + [x];
    }
  }

  method DiffMessage(was: ParsedMessage, now: ParsedMessage, log: ChangeLog)
    modifies log
    ensures log.changes
         == old(log.changes) + (FieldsChanges(was, was.fields, now) + AddedFields(was, now, now.fields))
  {
    hide FieldChanges, AddedFields;
    var xs, i := was.fields, 0;
    while i < |xs|
      invariant i <= |xs|
      invariant log.changes == old(log.changes) + FieldsChanges(was, xs[..i], now)
    {
      FieldsChangesSnoc(was, xs[..i], xs[i], now);
      assert xs[..i + 1] == xs[..i] + [xs[i]];
      DiffField(was, xs[i], now, log);
      i := i + 1;
    }
    assert xs[..i] == xs;
    LogAddedFields(was, now, log);
  }

  method LogAddedMessages(olds: seq<ParsedMessage>, news: seq<ParsedMessage>, log: ChangeLog)
    modifies log
    ensures log.changes == old(log.changes) + AddedMessages(olds, news)
  {
    var i := 0;
    while i < |news|
      invariant i <= |news|
      invariant old(log.changes) + AddedMessages(olds, news) == log.changes + AddedMessages(olds, news[i..])
    {
      if FindMessage(olds, news[i].name) == |olds| {
        log.Push(Change(Compatible, news[i].name, "message added"));
      }
      i := i + 1;
    }
    assert news[i..] == [] && log.changes + [] == log.changes;
  }

  lemma {:induction false} MessagesChangesSnoc(olds: seq<ParsedMessage>, x: ParsedMessage, news: seq<ParsedMessage>)
    ensures MessagesChanges(olds + [x], news) == MessagesChanges(olds, news) + MessageChanges(x, news)
  {
    hide MessageChanges;
    if olds == [] {
      assert [x][1..] == [];
    } else {
      MessagesChangesSnoc(olds[1..], x, news);
      assert (olds + [x])[1..] == olds[1..] + [x];
    }
  }

  /** The `find` and its two outcomes. */
  method LogMessageChanges(was: ParsedMessage, news: seq<ParsedMessage>, log: ChangeLog)
    modifies log
    ensures log.changes == old(log.changes) + MessageChanges(was, news)
  {
    var j := FindMessage(news, was.name);
    if j == |news| {
      log.Push(Change(Breaking, was.name, "message removed"));
    } else {
      DiffMessage(was, news[j], log);
    }
  }

  method DiffMessages(olds: seq<ParsedMessage>, news: seq<ParsedMessage>, log: ChangeLog)
    modifies log
    ensures log.changes == old(log.changes) + MessagesChanges(olds, news) + AddedMessages(olds, news)
  {
    hide MessageChanges, AddedMessages;
    var i := 0;
    while i < |olds|
      invariant i <= |olds|
      invariant log.changes == old(log.changes) + MessagesChanges(olds[..i], news)
    {
      MessagesChangesSnoc(olds[..i], olds[i], news);
      assert olds[..i + 1] == olds[..i] + [olds[i]];
      LogMessageChanges(olds[i], news, log);
      i := i + 1;
    }
    assert olds[..i] == olds;
    LogAddedMessages(olds, news, log);
  }

  /** `diff_protos`, from the parsed files on. */
  method DiffFiles(was: ProtoFile, now: ProtoFile) returns (changes: seq<Change>)
    ensures changes == Report(was, now)
  {
    hide ServicesChanges, AddedServices, MessagesChanges, AddedMessages;
    var log := new ChangeLog();
    DiffServices(was.services, now.services, log);
    DiffMessages(was.messages, now.messages, log);
    changes := log.changes;
  }

  /** `diff_protos`: the old text is parsed first, and its error comes first. */
  method DiffProtos(was: string, now: string) returns (r: Result<seq<Change>, string>)
    ensures ProtoParser.Parse(was).Err? ==> r == Err(ProtoParser.Parse(was).error)
    ensures ProtoParser.Parse(was).Ok? && ProtoParser.Parse(now).Err? ==> r == Err(ProtoParser.Parse(now).error)
    ensures ProtoParser.Parse(was).Ok? && ProtoParser.Parse(now).Ok? ==>
              r == Ok(Report(ProtoParser.Parse(was).value, ProtoParser.Parse(now).value))
  {
    hide Report;
    var a := ProtoParser.ParseProto(was);
    if a.Err? { return Err(a.error); }
    var b := ProtoParser.ParseProto(now);
    if b.Err? { return Err(b.error); }
    var changes := DiffFiles(a.value, b.value);
    return Ok(changes);
  }

  // ---- what the verdict means ----

  predicate Without(kind: ChangeKind, cs: seq<Change>) { forall i :: 0 <= i < |cs| ==> cs[i].kind != kind }

  predicate NoBreaking(cs: seq<Change>) { Without(Breaking, cs) }

  lemma {:induction false} WithoutConcat(kind: ChangeKind, a: seq<Change>, b: seq<Change>)
    ensures Without(kind, a + b) <==> Without(kind, a) && Without(kind, b)
  {
    assert forall i :: 0 <= i < |a| ==> (a + b)[i] == a[i];
    assert forall i :: 0 <= i < |b| ==> (a + b)[|a| + i] == b[i];
  }

  /** An entry of its own. */
  lemma {:induction false} WithoutWhen(kind: ChangeKind, c: bool, k: ChangeKind, location: string, description: string)
    ensures Without(kind, When(c, k, location, description)) <==> !c || kind != k
  {
    var cs := When(c, k, location, description);
    if c { assert cs[0].kind == k; }
  }

  /** The old RPC is still there, with the same types. */
  predicate KeepsMethod(m: RpcMethod, now: Service) {
    var i := FindMethod(now.methods, m.name);
    i < |now.methods| && now.methods[i].inputType == m.inputType && now.methods[i].outputType == m.outputType
  }

  predicate KeepsService(was: Service, news: seq<Service>) {
    var i := FindService(news, was.name);
    i < |news| && forall k :: 0 <= k < |was.methods| ==> KeepsMethod(was.methods[k], news[i])
  }

  /** The old tag is still there, with the same type text. */
  predicate KeepsField(f: ParsedField, now: ParsedMessage) {
    var i := FindField(now.fields, f.tag);
    i < |now.fields| && now.fields[i].protoType == f.protoType
  }

  predicate KeepsMessage(was: ParsedMessage, news: seq<ParsedMessage>) {
    var i := FindMessage(news, was.name);
    i < |news| && forall k :: 0 <= k < |was.fields| ==> KeepsField(was.fields[k], news[i])
  }

  /** Every service, RPC, message and field tag of the old file is still there, with its types. */
  predicate Keeps(was: ProtoFile, now: ProtoFile) {
    && (forall i :: 0 <= i < |was.services| ==> KeepsService(was.services[i], now.services))
    && (forall i :: 0 <= i < |was.messages| ==> KeepsMessage(was.messages[i], now.messages))
  }

  /** The service keeps its name and has no new RPC, as far as it is still there. */
  predicate SameService(was: Service, news: seq<Service>) {
    var i := FindService(news, was.name);
    i < |news| ==>
      forall k :: 0 <= k < |news[i].methods| ==> FindMethod(was.methods, news[i].methods[k].name) < |was.methods|
  }

  /** The field keeps its name, as far as its tag is still there. */
  predicate SameName(f: ParsedField, now: ParsedMessage) {
    var i := FindField(now.fields, f.tag);
    i < |now.fields| ==> now.fields[i].name == f.name
  }

  predicate SameMessage(was: ParsedMessage, news: seq<ParsedMessage>) {
    var i := FindMessage(news, was.name);
    i < |news| ==>
      && (forall k :: 0 <= k < |was.fields| ==> SameName(was.fields[k], news[i]))
      && (forall k :: 0 <= k < |news[i].fields| ==> FindField(was.fields, news[i].fields[k].tag) < |was.fields|)
  }

  /** No service, RPC, message or field tag is new, and no field has a new name. */
  predicate NothingNew(was: ProtoFile, now: ProtoFile) {
    && (forall i :: 0 <= i < |was.services| ==> SameService(was.services[i], now.services))
    && (forall i :: 0 <= i < |now.services| ==> FindService(was.services, now.services[i].name) < |was.services|)
    && (forall i :: 0 <= i < |was.messages| ==> SameMessage(was.messages[i], now.messages))
    && (forall i :: 0 <= i < |now.messages| ==> FindMessage(was.messages, now.messages[i].name) < |was.messages|)
  }

  // ---- one kind of entry at a time ----

  lemma {:induction false} MethodVerdict(kind: ChangeKind, was: Service, m: RpcMethod, now: Service)
    ensures Without(kind, MethodChanges(was, m, now)) <==> (kind.Breaking? ==> KeepsMethod(m, now))
  {
    hide Arrow;
    var cs := MethodChanges(was, m, now);
    if cs != [] { assert cs[0].kind == Breaking; }
  }

  lemma {:induction false} MethodsVerdict(kind: ChangeKind, was: Service, ms: seq<RpcMethod>, now: Service)
    ensures Without(kind, MethodsChanges(was, ms, now))
       <==> forall k :: 0 <= k < |ms| ==> (kind.Breaking? ==> KeepsMethod(ms[k], now))
  {
    hide MethodChanges, KeepsMethod, Without;
    if ms != [] {
      MethodsVerdict(kind, was, ms[1..], now);
      WithoutConcat(kind, MethodChanges(was, ms[0], now), MethodsChanges(was, ms[1..], now));
      MethodVerdict(kind, was, ms[0], now);
      assert forall k :: 1 <= k < |ms| ==> ms[k] == ms[1..][k - 1];
    } else {
      WithoutNothing(kind);
    }
  }

  lemma {:induction false} AddedMethodsVerdict(kind: ChangeKind, was: Service, now: Service, ms: seq<RpcMethod>)
    ensures Without(kind, AddedMethods(was, now, ms))
       <==> kind.Breaking? || forall k :: 0 <= k < |ms| ==> FindMethod(was.methods, ms[k].name) < |was.methods|
  {
    hide When, Without;
    if ms != [] {
      AddedMethodsVerdict(kind, was, now, ms[1..]);
      var isNew, at := FindMethod(was.methods, ms[0].name) == |was.methods|, Qualified(now.name, ms[0].name);
      WithoutWhen(kind, isNew, Compatible, at, "RPC method added");
      WithoutConcat(kind, When(isNew, Compatible, at, "RPC method added"), AddedMethods(was, now, ms[1..]));
      assert forall k :: 1 <= k < |ms| ==> ms[k] == ms[1..][k - 1];
    } else {
      WithoutNothing(kind);
    }
  }

  lemma {:induction false} WithoutNothing(kind: ChangeKind)
    ensures Without(kind, [])
  {
  }

  lemma {:induction false} ServiceVerdict(kind: ChangeKind, was: Service, news: seq<Service>)
    ensures Without(kind, ServiceChanges(was, news))
       <==> if kind.Breaking? then KeepsService(was, news) else SameService(was, news)
  {
    hide MethodsChanges, AddedMethods;
    var i := FindService(news, was.name);
    if i == |news| {
      assert ServiceChanges(was, news)[0].kind == Breaking;
    } else {
      MethodsVerdict(kind, was, was.methods, news[i]);
      AddedMethodsVerdict(kind, was, news[i], news[i].methods);
      WithoutConcat(kind, MethodsChanges(was, was.methods, news[i]), AddedMethods(was, news[i], news[i].methods));
    }
  }

  lemma {:induction false} ServicesVerdict(kind: ChangeKind, olds: seq<Service>, news: seq<Service>)
    ensures Without(kind, ServicesChanges(olds, news))
       <==> forall i :: 0 <= i < |olds| ==> if kind.Breaking? then KeepsService(olds[i], news) else SameService(olds[i], news)
  {
    hide ServiceChanges, KeepsService, SameService, Without;
    if olds != [] {
      ServicesVerdict(kind, olds[1..], news);
      WithoutConcat(kind, ServiceChanges(olds[0], news), ServicesChanges(olds[1..], news));
      ServiceVerdict(kind, olds[0], news);
      assert forall k :: 1 <= k < |olds| ==> olds[k] == olds[1..][k - 1];
    } else {
      WithoutNothing(kind);
    }
  }

  lemma {:induction false} AddedServicesVerdict(kind: ChangeKind, olds: seq<Service>, news: seq<Service>)
    ensures Without(kind, AddedServices(olds, news))
       <==> kind.Breaking? || forall k :: 0 <= k < |news| ==> FindService(olds, news[k].name) < |olds|
  {
    hide When, Without;
    if news != [] {
      AddedServicesVerdict(kind, olds, news[1..]);
      var isNew := FindService(olds, news[0].name) == |olds|;
      WithoutWhen(kind, isNew, Compatible, news[0].name, "service added");
      WithoutConcat(kind, When(isNew, Compatible, news[0].name, "service added"), AddedServices(olds, news[1..]));
      assert forall k :: 1 <= k < |news| ==> news[k] == news[1..][k - 1];
    } else {
      WithoutNothing(kind);
    }
  }

  lemma {:induction false} FieldVerdict(kind: ChangeKind, was: ParsedMessage, f: ParsedField, now: ParsedMessage)
    ensures Without(kind, FieldChanges(was, f, now)) <==> if kind.Breaking? then KeepsField(f, now) else SameName(f, now)
  {
    hide Decimal, Arrow;
    var cs := FieldChanges(was, f, now);
    if !KeepsField(f, now) { assert cs[0].kind == Breaking; }
    if !SameName(f, now) { assert cs[|cs| - 1].kind == Compatible; }
  }

  lemma {:induction false} FieldsVerdict(kind: ChangeKind, was: ParsedMessage, fs: seq<ParsedField>, now: ParsedMessage)
    ensures Without(kind, FieldsChanges(was, fs, now))
       <==> forall k :: 0 <= k < |fs| ==> if kind.Breaking? then KeepsField(fs[k], now) else SameName(fs[k], now)
  {
    hide FieldChanges, KeepsField, SameName, Without;
    if fs != [] {
      FieldsVerdict(kind, was, fs[1..], now);
      WithoutConcat(kind, FieldChanges(was, fs[0], now), FieldsChanges(was, fs[1..], now));
      FieldVerdict(kind, was, fs[0], now);
      assert forall k :: 1 <= k < |fs| ==> fs[k] == fs[1..][k - 1];
    } else {
      WithoutNothing(kind);
    }
  }

  lemma {:induction false} AddedFieldsVerdict(kind: ChangeKind, was: ParsedMessage, now: ParsedMessage, fs: seq<ParsedField>)
    ensures Without(kind, AddedFields(was, now, fs))
       <==> kind.Breaking? || forall k :: 0 <= k < |fs| ==> FindField(was.fields, fs[k].tag) < |was.fields|
  {
    hide Decimal, When, Without;
    if fs != [] {
      AddedFieldsVerdict(kind, was, now, fs[1..]);
      var isNew, at := FindField(was.fields, fs[0].tag) == |was.fields|, Qualified(now.name, fs[0].name);
      var what := "field added (tag " + Decimal(fs[0].tag) + ")";
      WithoutWhen(kind, isNew, Compatible, at, what);
      WithoutConcat(kind, When(isNew, Compatible, at, what), AddedFields(was, now, fs[1..]));
      assert forall k :: 1 <= k < |fs| ==> fs[k] == fs[1..][k - 1];
    } else {
      WithoutNothing(kind);
    }
  }

  lemma {:induction false} MessageVerdict(kind: ChangeKind, was: ParsedMessage, news: seq<ParsedMessage>)
    ensures Without(kind, MessageChanges(was, news))
       <==> if kind.Breaking? then KeepsMessage(was, news) else SameMessage(was, news)
  {
    hide FieldsChanges, AddedFields;
    var i := FindMessage(news, was.name);
    if i == |news| {
      assert MessageChanges(was, news)[0].kind == Breaking;
    } else {
      FieldsVerdict(kind, was, was.fields, news[i]);
      AddedFieldsVerdict(kind, was, news[i], news[i].fields);
      WithoutConcat(kind, FieldsChanges(was, was.fields, news[i]), AddedFields(was, news[i], news[i].fields));
    }
  }

  lemma {:induction false} MessagesVerdict(kind: ChangeKind, olds: seq<ParsedMessage>, news: seq<ParsedMessage>)
    ensures Without(kind, MessagesChanges(olds, news))
       <==> forall i :: 0 <= i < |olds| ==> if kind.Breaking? then KeepsMessage(olds[i], news) else SameMessage(olds[i], news)
  {
    hide MessageChanges, KeepsMessage, SameMessage, Without;
    if olds != [] {
      MessagesVerdict(kind, olds[1..], news);
      WithoutConcat(kind, MessageChanges(olds[0], news), MessagesChanges(olds[1..], news));
      MessageVerdict(kind, olds[0], news);
      assert forall k :: 1 <= k < |olds| ==> olds[k] == olds[1..][k - 1];
    } else {
      WithoutNothing(kind);
    }
  }

  lemma {:induction false} AddedMessagesVerdict(kind: ChangeKind, olds: seq<ParsedMessage>, news: seq<ParsedMessage>)
    ensures Without(kind, AddedMessages(olds, news))
       <==> kind.Breaking? || forall k :: 0 <= k < |news| ==> FindMessage(olds, news[k].name) < |olds|
  {
    hide When, Without;
    if news != [] {
      AddedMessagesVerdict(kind, olds, news[1..]);
      var isNew := FindMessage(olds, news[0].name) == |olds|;
      WithoutWhen(kind, isNew, Compatible, news[0].name, "message added");
      WithoutConcat(kind, When(isNew, Compatible, news[0].name, "message added"), AddedMessages(olds, news[1..]));
      assert forall k :: 1 <= k < |news| ==> news[k] == news[1..][k - 1];
    } else {
      WithoutNothing(kind);
    }
  }

  /** Which kinds of entry the whole report has. */
  lemma {:induction false} ReportWithout(kind: ChangeKind, was: ProtoFile, now: ProtoFile)
    ensures Without(kind, Report(was, now)) <==> if kind.Breaking? then Keeps(was, now) else NothingNew(was, now)
  {
    hide ServicesChanges, AddedServices, MessagesChanges, AddedMessages, Without;
    hide KeepsService, KeepsMessage, SameService, SameMessage;
    var a, b := ServicesChanges(was.services, now.services), AddedServices(was.services, now.services);
    var c, d := MessagesChanges(was.messages, now.messages), AddedMessages(was.messages, now.messages);
    WithoutConcat(kind, a + b + c, d);
    WithoutConcat(kind, a + b, c);
    WithoutConcat(kind, a, b);
    ServicesVerdict(kind, was.services, now.services);
    AddedServicesVerdict(kind, was.services, now.services);
    MessagesVerdict(kind, was.messages, now.messages);
    AddedMessagesVerdict(kind, was.messages, now.messages);
  }

  /** The report has no breaking entry exactly when everything old is still there with its types. */
  lemma {:induction false} Verdict(was: ProtoFile, now: ProtoFile)
    ensures NoBreaking(Report(was, now)) <==> Keeps(was, now)
  {
    ReportWithout(Breaking, was, now);
  }

  /** The report is empty exactly when everything old is kept and nothing is new or renamed. */
  lemma {:induction false} EmptyReport(was: ProtoFile, now: ProtoFile)
    ensures Report(was, now) == [] <==> Keeps(was, now) && NothingNew(was, now)
  {
    hide Report, Keeps, NothingNew;
    ReportWithout(Breaking, was, now);
    ReportWithout(Compatible, was, now);
    var cs := Report(was, now);
    if cs != [] { assert cs[0].kind == Breaking || cs[0].kind == Compatible; }
  }
}
