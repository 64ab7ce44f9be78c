/**
  Printing `.proto` text: fields and messages (typeway-grpc/src/mapping.rs), and whole files with their
  definitions deduplicated by text (typeway-grpc/src/proto_gen.rs). Every printer is given by the lines
  it prints, and the methods that build the text are proved to join exactly those lines.
*/
module SchemaPrint {
  import opened Bytes
  import opened Text
  import opened Strings

  datatype ProtoField = ProtoField(name: string, protoType: string, tag: U32, repeated: bool, optional: bool,
                                   isMap: bool, mapKey: Option<string>, mapValue: Option<string>, doc: Option<string>)

  function Or(o: Option<string>, default_: string): (s: string) { if o.Some? then o.value else default_ }

  /** The line that declares the field, without its indentation. */
  function Declaration(f: ProtoField): (s: string) {
    if f.isMap then
      "map<" + Or(f.mapKey, "string") + ", " + Or(f.mapValue, "string") + "> " + f.name + " = " + Decimal(f.tag) + ";"
    else
      (if f.repeated then "repeated " else if f.optional then "optional " else "") +
      f.protoType + " " + f.name + " = " + Decimal(f.tag) + ";"
  }

  function CommentLines(doc: seq<string>): (ls: seq<string>) {
    if doc == [] then [] else ["  // " + doc[0]] + CommentLines(doc[1..])
  }

  /** The comment lines above a field. */
  function DocLines(f: ProtoField): (ls: seq<string>) {
    if f.doc.Some? && f.doc.value != "" then CommentLines(Lines(f.doc.value)) else []
  }

  function FieldLines(f: ProtoField): (ls: seq<string>)
    ensures ls != []
  {
    DocLines(f) + ["  " + Declaration(f)]
  }

  /** `to_proto_line`. */
  method ToProtoLine(f: ProtoField) returns (text: string)
    ensures text == Join(FieldLines(f))
  {
    var line := "  " + Declaration(f);
    if f.doc.Some? && f.doc.value != "" {
      var doc := Lines(f.doc.value);
      var comments: seq<string> := [];
      for i := 0 to |doc|
        invariant CommentLines(doc) == comments + CommentLines(doc[i..])
      {
        assert doc[i..][1..] == doc[i + 1..];
        comments := comments + ["  // " + doc[i]];
      }
      assert doc[|doc|..] == [] && comments + [] == comments;
      text := Join(comments);
      text := text + "\n";
      text := text + line;
      JoinConcat(comments, [line]);
    } else {
      text := line;
      assert [] + [line] == [line];
    }
  }

  function FieldsLines(fs: seq<ProtoField>): (ls: seq<string>) {
    if fs == [] then [] else FieldLines(fs[0]) + FieldsLines(fs[1..])
  }

  /** A message block, line by line. */
  function MessageLines(name: string, fs: seq<ProtoField>): (ls: seq<string>)
    ensures ls != []
  {
    ["message " + name + " {"] + FieldsLines(fs) + ["}"]
  }

  /** Texts that may hold several lines each, as the lines of their join. */
  function Texts(fs: seq<ProtoField>): (ts: seq<string>)
    ensures |ts| == |fs|
  {
    if fs == [] then [] else [Join(FieldLines(fs[0]))] + Texts(fs[1..])
  }

  lemma {:induction false} JoinTexts(fs: seq<ProtoField>, tail: string)
    ensures Join(Texts(fs) + [tail]) == Join(FieldsLines(fs) + [tail])
  {
    hide FieldLines, Join;
    if fs == [] {
      assert [] + [tail] == [tail];
    } else {
      JoinTexts(fs[1..], tail);
      var head, rest := FieldLines(fs[0]), FieldsLines(fs[1..]) + [tail];
      JoinSingle(Join(head));
      JoinConcat([Join(head)], Texts(fs[1..]) + [tail]);
      JoinConcat(head, rest);
      assert Texts(fs) + [tail] == [Join(head)] + (Texts(fs[1..]) + [tail]);
      assert FieldsLines(fs) + [tail] == head + rest;
    }
  }

  lemma {:induction false} JoinSingle(s: string)
    ensures Join([s]) == s
  {
  }

  /** Each field's text, appended. */
  method PushFields(front: seq<string>, fs: seq<ProtoField>) returns (lines: seq<string>)
    ensures lines == front + Texts(fs)
  {
    hide FieldLines, Join;
    lines := front;
    for i := 0 to |fs|
      invariant lines + Texts(fs[i..]) == front + Texts(fs)
    {
      assert fs[i..][1..] == fs[i + 1..];
      var line := ToProtoLine(fs[i]);
      Cut(lines, [line], Texts(fs[i + 1..]));
      lines := lines + [line];
    }
    assert fs[|fs|..] == [] && lines + [] == lines;
  }

  /** `build_message`. */
  method BuildMessage(name: string, fs: seq<ProtoField>) returns (text: string)
    ensures text == Join(MessageLines(name, fs))
  {
    hide Join, Texts, MessageLines;
    var lines := PushFields(["message " + name + " {"], fs);
    lines := lines + ["}"];
    text := Join(lines);
    MessageText(name, fs);
  }

  /** Joining the field texts joins the lines inside them. */
  lemma {:induction false} MessageText(name: string, fs: seq<ProtoField>)
    ensures Join(["message " + name + " {"] + Texts(fs) + ["}"]) == Join(MessageLines(name, fs))
  {
    hide Join, Texts, FieldsLines;
    var header := ["message " + name + " {"];
    Cut(header, Texts(fs), ["}"]);
    Cut(header, FieldsLines(fs), ["}"]);
    JoinConcat(header, Texts(fs) + ["}"]);
    JoinConcat(header, FieldsLines(fs) + ["}"]);
    JoinTexts(fs, "}");
  }

  // ---- whole files ----

  /** A message's definition text: none for the empty message, else a block. */
  datatype Definition = NoDefinition | Block(name: string, fields: seq<ProtoField>)

  function DefinitionLines(d: Definition): (ls: seq<string>)
    ensures ls != []
  {
    if d.NoDefinition? then [""] else MessageLines(d.name, d.fields)
  }

  datatype ProtoMessage = ProtoMessage(name: string, definition: Definition)

  datatype Rpc = Rpc(name: string, httpMethod: string, path: string, request: Option<ProtoMessage>,
                     response: ProtoMessage, serverStreaming: bool, clientStreaming: bool)

  function Streamed(streaming: bool, typeName: string): (s: string) { (if streaming then "stream " else "") + typeName }

  function InputType(r: Rpc): (s: string) {
    Streamed(r.clientStreaming, if r.request.Some? then r.request.value.name else "google.protobuf.Empty")
  }

  function OutputType(r: Rpc): (s: string) { Streamed(r.serverStreaming, r.response.name) }

  function RpcComment(r: Rpc): (s: string) { "  // " + r.httpMethod + " " + r.path }

  function RpcLine(r: Rpc): (s: string) {
    "  rpc " + r.name + "(" + InputType(r) + ") returns (" + OutputType(r) + ");"
  }

  function RpcLines(rpcs: seq<Rpc>): (ls: seq<string>) {
    if rpcs == [] then [] else [RpcComment(rpcs[0]), RpcLine(rpcs[0])] + RpcLines(rpcs[1..])
  }

  function ServiceLines(service: string, rpcs: seq<Rpc>): (ls: seq<string>)
    ensures ls != []
  {
    ["service " + service + " {"] + RpcLines(rpcs) + ["}"]
  }

  function RpcDefinitions(r: Rpc): (ds: seq<Definition>) {
    (if r.request.Some? then [r.request.value.definition] else []) + [r.response.definition]
  }

  function AllDefinitions(rpcs: seq<Rpc>): (ds: seq<Definition>) {
    if rpcs == [] then [] else RpcDefinitions(rpcs[0]) + AllDefinitions(rpcs[1..])
  }

  function DefinitionText(d: Definition): (s: string) { Join(DefinitionLines(d)) }

  predicate HasText(ds: seq<Definition>, text: string) { exists i :: 0 <= i < |ds| && DefinitionText(ds[i]) == text }

  /** Insertion into the ordered set of definition texts. */
  function Insert(ds: seq<Definition>, d: Definition): (r: seq<Definition>) {
    if HasText(ds, DefinitionText(d)) then ds else ds + [d]
  }

  function InsertAll(ds: seq<Definition>, more: seq<Definition>): (r: seq<Definition>)
    decreases |more|
  {
    if more == [] then ds else InsertAll(Insert(ds, more[0]), more[1..])
  }

  /** The definitions in the order first met, each text once. */
  function Distinct(rpcs: seq<Rpc>): (ds: seq<Definition>) { InsertAll([], AllDefinitions(rpcs)) }

  function BlocksLines(ds: seq<Definition>): (ls: seq<string>) {
    if ds == [] then [] else DefinitionLines(ds[0]) + [""] + BlocksLines(ds[1..])
  }

  const SYNTAX_LINE := "syntax = \"proto3\";"

  function FileLines(service: string, package: string, rpcs: seq<Rpc>): (ls: seq<string>) {
    [SYNTAX_LINE, "", "package " + package + ";", ""] + ServiceLines(service, rpcs) + [""] + BlocksLines(Distinct(rpcs))
  }

  lemma {:induction false} InsertAllConcat(ds: seq<Definition>, a: seq<Definition>, b: seq<Definition>)
    ensures InsertAll(ds, a + b) == InsertAll(InsertAll(ds, a), b)
    decreases |a|
  {
    hide Insert;
    if a == [] {
      assert a + b == b;
    } else {
      assert (a + b)[1..] == a[1..] + b;
      InsertAllConcat(Insert(ds, a[0]), a[1..], b);
    }
  }

  function DefinitionTexts(ds: seq<Definition>): (ts: seq<string>) {
    if ds == [] then [] else [DefinitionText(ds[0]), ""] + DefinitionTexts(ds[1..])
  }

  /** Joining the pieces joins the lines inside them. */
  lemma {:induction false} JoinPieces(front: seq<string>, ds: seq<Definition>)
    requires front != []
    ensures Join(front + DefinitionTexts(ds)) == Join(front + BlocksLines(ds))
    decreases |ds|
  {
    hide Join, DefinitionLines;
    if ds != [] {
      var ls, rest := DefinitionLines(ds[0]), DefinitionTexts(ds[1..]);
      JoinSingle(DefinitionText(ds[0]));
      JoinPair(front, [DefinitionText(ds[0])], [""] + rest);
      JoinPair(front, ls, [""] + rest);
      JoinPieces(front + ls + [""], ds[1..]);
      assert front + DefinitionTexts(ds) == front + [DefinitionText(ds[0])] + ([""] + rest);
      assert front + ls + [""] + rest == front + ls + ([""] + rest);
      assert front + BlocksLines(ds) == front + ls + [""] + BlocksLines(ds[1..]);
    }
  }

  lemma {:induction false} JoinPair(a: seq<string>, b: seq<string>, c: seq<string>)
    requires a != [] && b != [] && c != []
    ensures Join(a + b + c) == Join(a) + "\n" + Join(b) + "\n" + Join(c)
  {
    JoinConcat(a + b, c);
    JoinConcat(a, b);
  }

  /** The comment and declaration of each RPC, appended. */
  method PushRpcs(front: seq<string>, rpcs: seq<Rpc>) returns (lines: seq<string>)
    ensures lines == front + RpcLines(rpcs)
  {
    hide RpcComment, RpcLine;
    lines := front;
    for i := 0 to |rpcs|
      invariant lines + RpcLines(rpcs[i..]) == front + RpcLines(rpcs)
    {
      assert rpcs[i..][1..] == rpcs[i + 1..];
      Cut(lines, [RpcComment(rpcs[i]), RpcLine(rpcs[i])], RpcLines(rpcs[i + 1..]));
      lines := lines + [RpcComment(rpcs[i]), RpcLine(rpcs[i])];
    }
    assert rpcs[|rpcs|..] == [] && lines + [] == lines;
  }

  /** Each definition text and a blank line, appended. */
  method PushDefinitions(front: seq<string>, ds: seq<Definition>) returns (lines: seq<string>)
    ensures lines == front + DefinitionTexts(ds)
  {
    hide DefinitionText;
    lines := front;
    for i := 0 to |ds|
      invariant lines + DefinitionTexts(ds[i..]) == front + DefinitionTexts(ds)
    {
      assert ds[i..][1..] == ds[i + 1..];
      Cut(lines, [DefinitionText(ds[i]), ""], DefinitionTexts(ds[i + 1..]));
      lines := lines + [DefinitionText(ds[i]), ""];
    }
    assert ds[|ds|..] == [] && lines + [] == lines;
  }

  /** `generate_proto_file`. */
  method GenerateProtoFile(service: string, package: string, rpcs: seq<Rpc>) returns (text: string)
    ensures text == Join(FileLines(service, package, rpcs))
  {
    hide RpcLines, DefinitionTexts, BlocksLines, Distinct, Join;
    var lines := [SYNTAX_LINE, "", "package " + package + ";", ""];
    var messages := CollectDefinitions(rpcs);
    ghost var top := lines;
    lines := PushRpcs(lines + ["service " + service + " {"], rpcs);
    lines := lines + ["}", ""];
    assert lines == top + ServiceLines(service, rpcs) + [""];
    JoinPieces(lines, messages);
    lines := PushDefinitions(lines, messages);
    text := Join(lines);
  }

  method CollectDefinitions(rpcs: seq<Rpc>) returns (messages: seq<Definition>)
    ensures messages == Distinct(rpcs)
  {
    messages := [];
    for i := 0 to |rpcs|
      invariant InsertAll(messages, AllDefinitions(rpcs[i..])) == Distinct(rpcs)
    {
      assert rpcs[i..][1..] == rpcs[i + 1..];
      InsertAllConcat(messages, RpcDefinitions(rpcs[i]), AllDefinitions(rpcs[i + 1..]));
      InsertRpc(messages, rpcs[i]);
      if rpcs[i].request.Some? { messages := Insert(messages, rpcs[i].request.value.definition); }
      messages := Insert(messages, rpcs[i].response.definition);
    }
    assert rpcs[|rpcs|..] == [];
  }

  lemma {:induction false} InsertRpc(ds: seq<Definition>, r: Rpc)
    ensures InsertAll(ds, RpcDefinitions(r))
         == Insert(if r.request.Some? then Insert(ds, r.request.value.definition) else ds, r.response.definition)
  {
    hide Insert;
    var a, b := r.request, r.response.definition;
    if a.Some? {
      var d := a.value.definition;
      assert RpcDefinitions(r) == [d] + [b];
      InsertAllConcat(ds, [d], [b]);
    } else {
      assert RpcDefinitions(r) == [b];
    }
  }
}
