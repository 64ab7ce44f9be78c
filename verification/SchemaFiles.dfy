/** Generated files parse back. */
module SchemaFiles {
  // Source: typeway-grpc/src/proto_gen.rs, typeway-grpc/src/proto_parse.rs

  import opened Bytes
  import opened Text
  import opened Strings
  import opened Schema
  import opened SchemaPrint
  import opened ProtoParser
  import opened SpecParser
  import opened SchemaRoundTrip

  // ---- exactly which blocks read back ----

  /** Inside a block a lone brace closes it, and a line that begins with "message" opens another. */
  function Opened(line: string): (n: int) {
    if Trim(line) == "}" then -1 else if "message" <= Trim(line) then 1 else 0
  }

  /** From `d` open blocks on, the lines never close the last one. */
  predicate StaysOpen(ls: seq<string>, d: int) { d >= 1 && (ls == [] || StaysOpen(ls[1..], d + Opened(ls[0]))) }

  /** Reading one block to its end closes one. */
  lemma {:induction false} BlockCloses(lines: seq<string>, i: nat, raw: string, full: string,
                                       fields: seq<ParsedField>, nested: seq<ParsedMessage>, d: int)
    requires i <= |lines| && StaysOpen(lines[i..], d)
    ensures var r := MessageFrom(lines, i, raw, full, fields, nested);
            r.Ok? ==> StaysOpen(lines[r.value.1..], d - 1)
    decreases |lines| - i
  {
    hide Trim, ParseField, BlockName, IsComment;
    if i < |lines| {
      var line := Trim(lines[i]);
      assert lines[i..][1..] == lines[i + 1..];
      if line == "}" {
      } else if "message" <= line {
        var name := BlockName(line, "message");
        if name.Ok? {
          var inner := MessageFrom(lines, i + 1, name.value, full + "." + name.value, [], []);
          BlockCloses(lines, i + 1, name.value, full + "." + name.value, [], [], d + 1);
          assert full + "." != "" && MessageAt(lines, i, full + ".") == inner;
          if inner.Ok? { BlockCloses(lines, inner.value.1, raw, full, fields, nested + inner.value.0, d); }
        } else {
          assert MessageAt(lines, i, full + ".").Err?;
        }
      } else if line == "" || IsComment(line) {
        BlockCloses(lines, i + 1, raw, full, fields, nested, d);
      } else {
        var f := ParseField(line);
        BlockCloses(lines, i + 1, raw, full, if f.Some? then fields + [f.value] else fields, nested, d);
      }
    }
  }

  /** A block whose closing brace never comes is an error. */
  lemma {:induction false} NeverClosed(lines: seq<string>, i: nat, prefix: string)
    requires i < |lines| && StaysOpen(lines[i + 1..], 1)
    ensures MessageAt(lines, i, prefix).Err?
  {
    hide Trim, MessageFrom, BlockName;
    var name := BlockName(Trim(lines[i]), "message");
    if name.Ok? {
      var full := if prefix == "" then name.value else prefix + name.value;
      BlockCloses(lines, i + 1, name.value, full, [], [], 1);
    }
  }

  lemma {:induction false} LineStays(l: string, rest: seq<string>, d: int)
    requires d >= 1 && StaysOpen(rest, d + Opened(l))
    ensures StaysOpen([l] + rest, d)
  {
    assert ([l] + rest)[1..] == rest;
  }

  lemma {:induction false} MoreStays(ls: seq<string>, d: int, e: int)
    requires StaysOpen(ls, d) && d <= e
    ensures StaysOpen(ls, e)
  {
    if ls != [] { MoreStays(ls[1..], d + Opened(ls[0]), e + Opened(ls[0])); }
  }

  lemma {:induction false} CommentsStay(doc: seq<string>, rest: seq<string>, d: int)
    requires StaysOpen(rest, d)
    ensures StaysOpen(CommentLines(doc) + rest, d)
  {
    hide Trim;
    if doc == [] {
      assert [] + rest == rest;
    } else {
      CommentTrimmed(doc[0]);
      CommentsStay(doc[1..], rest, d);
      LineStays("  // " + doc[0], CommentLines(doc[1..]) + rest, d);
      Cut(["  // " + doc[0]], CommentLines(doc[1..]), rest);
    }
  }

  /** How many fields look like nested messages. */
  function NestedCount(fs: seq<ProtoField>): (n: nat)
    ensures n == 0 <==> NoneNested(fs)
  {
    if fs == [] then 0
    else
      assert NoneNested(fs) <==> !LooksNested(fs[0]) && NoneNested(fs[1..]) by {
        assert forall i :: 0 <= i < |fs[1..]| ==> fs[1..][i] == fs[i + 1];
        if !LooksNested(fs[0]) && NoneNested(fs[1..]) {
          assert forall i :: 1 <= i < |fs| ==> fs[i] == fs[1..][i - 1];
        }
      }
      (if LooksNested(fs[0]) then 1 else 0) + NestedCount(fs[1..])
  }

  lemma {:induction false} FieldsStay(fs: seq<ProtoField>, rest: seq<string>, d: int)
    requires GoodFields(fs) && d >= 1 && StaysOpen(rest, d + NestedCount(fs))
    ensures StaysOpen(FieldsLines(fs) + rest, d)
  {
    hide Trim, Declaration, GoodField, ParseField, Parsed, LooksNested;
    if fs == [] {
      assert [] + rest == rest;
    } else {
      var l, back := "  " + Declaration(fs[0]), FieldsLines(fs[1..]) + rest;
      DeclarationRead(fs[0]);
      FieldsStay(fs[1..], rest, d + Opened(l));
      LineStays(l, back, d);
      if fs[0].doc.Some? && fs[0].doc.value != "" { CommentsStay(Lines(fs[0].doc.value), [l] + back, d); }
      FieldsBracket(fs, rest);
    }
  }

  lemma {:induction false} FieldsBracket(fs: seq<ProtoField>, rest: seq<string>)
    requires fs != []
    ensures FieldsLines(fs) + rest == DocLines(fs[0]) + (["  " + Declaration(fs[0])] + (FieldsLines(fs[1..]) + rest))
    ensures DocLines(fs[0]) == [] ==> FieldsLines(fs) + rest == ["  " + Declaration(fs[0])] + (FieldsLines(fs[1..]) + rest)
  {
    hide Declaration, DocLines;
    Cut(FieldLines(fs[0]), FieldsLines(fs[1..]), rest);
    Cut(DocLines(fs[0]), ["  " + Declaration(fs[0])], FieldsLines(fs[1..]) + rest);
    var back := ["  " + Declaration(fs[0])] + (FieldsLines(fs[1..]) + rest);
    assert [] + back == back;
  }

  /** A whole message block never closes a block around it. */
  lemma {:induction false} BlockStays(name: string, fs: seq<ProtoField>, rest: seq<string>, d: int)
    requires IsWord(name) && GoodFields(fs) && StaysOpen(rest, d)
    ensures StaysOpen(MessageLines(name, fs) + rest, d)
  {
    hide Trim, FieldsLines, GoodFields, IsWord, NoneNested;
    HeaderNoBrace(name);
    MoreStays(rest, d, d + NestedCount(fs));
    TailStays(fs, rest, d + 1);
    LineStays("message " + name + " {", FieldsLines(fs) + (["}"] + rest), d);
    MessageBracket(name, fs, rest);
  }

  /** The lines after a header. */
  lemma {:induction false} TailStays(fs: seq<ProtoField>, rest: seq<string>, d: int)
    requires GoodFields(fs) && d >= 1 && d + NestedCount(fs) >= 2 && StaysOpen(rest, d + NestedCount(fs) - 1)
    ensures StaysOpen(FieldsLines(fs) + (["}"] + rest), d)
  {
    hide Trim, FieldsLines, GoodFields;
    BraceTrimmed();
    LineStays("}", rest, d + NestedCount(fs));
    FieldsStay(fs, ["}"] + rest, d);
  }

  lemma {:induction false} MessageBracket(name: string, fs: seq<ProtoField>, rest: seq<string>)
    ensures MessageLines(name, fs) + rest == ["message " + name + " {"] + (FieldsLines(fs) + (["}"] + rest))
  {
    hide FieldsLines;
  }

  /** A block with a nested-looking field is never closed, by whatever blocks follow. */
  lemma {:induction false} NestedBreaks(lines: seq<string>, i: nat, name: string, fs: seq<ProtoField>, rest: seq<string>)
    requires IsWord(name) && GoodFields(fs) && !NoneNested(fs) && StaysOpen(rest, 1)
    requires i <= |lines| && lines[i..] == MessageLines(name, fs) + rest
    ensures i < |lines| && MessageAt(lines, i, "").Err?
  {
    hide Trim, MessageAt, FieldsLines, GoodFields, IsWord, NoneNested;
    MessageBracket(name, fs, rest);
    assert lines[i + 1..] == lines[i..][1..] == FieldsLines(fs) + (["}"] + rest);
    MoreStays(rest, 1, NestedCount(fs));
    TailStays(fs, rest, 1);
    NeverClosed(lines, i, "");
  }

  lemma {:induction false} HeaderNoBrace(name: string)
    requires IsWord(name)
    ensures var l := "message " + name + " {"; Trim(l) == l && l != "}" && BlockName(l, "message") == Ok(name)
  {
    hide Trim, BlockName, IsWordChar;
    MessageWord();
    HeaderNames("message", name);
    assert "message" + " " + name + " {" == "message " + name + " {";
  }

  /**
    A printed message reads back, and nothing of it is lost, if and only if no field without a label
    has a type whose name begins with "message".
  */
  lemma {:induction false} BlockReadsIff(name: string, fs: seq<ProtoField>)
    requires IsWord(name) && GoodFields(fs)
    ensures var lines := MessageLines(name, fs);
            MessageAt(lines, 0, "") == Ok(([ParsedMessage(name, ParsedAll(fs))], |lines|)) <==> NoneNested(fs)
  {
    hide MessageAt, MessageLines, GoodFields, IsWord;
    var lines := MessageLines(name, fs);
    if NoneNested(fs) {
      assert lines[0..|lines|] == lines;
      MessageRead(lines, 0, name, fs);
    } else {
      assert lines[0..] == lines + [];
      NestedBreaks(lines, 0, name, fs, []);
    }
  }

  // ---- services ----

  predicate GoodRpc(r: Rpc) {
    && IsWord(r.name) && IsWord(r.response.name) && (r.request.Some? ==> IsWord(r.request.value.name))
  }

  /** The RPC in proto terms; the comment as the parser keeps it, trimmed, slashes included. */
  function ParsedRpc(r: Rpc): (m: RpcMethod) {
    RpcMethod(r.name,
              (if r.clientStreaming then "stream " else "") +
              (if r.request.Some? then r.request.value.name else "google.protobuf.Empty"),
              (if r.serverStreaming then "stream " else "") + r.response.name,
              Some("//" + TrimEnd(" " + (r.httpMethod + " " + r.path))))
  }

  function ParsedRpcs(rpcs: seq<Rpc>): (ms: seq<RpcMethod>) {
    if rpcs == [] then [] else [ParsedRpc(rpcs[0])] + ParsedRpcs(rpcs[1..])
  }

  lemma {:induction false} StreamedPlain(streaming: bool, t: string)
    requires IsWord(t)
    ensures Solid(Streamed(streaming, t)) && ')' !in Streamed(streaming, t)
  {
    hide IsSpace, IsWordChar;
    WordIsPlain(t);
    if streaming {
      var s := "stream " + t;
      assert s[0] == 's' && s[|s| - 1] == t[|t| - 1];
      Letter();
    } else {
      assert "" + t == t;
    }
  }

  lemma {:induction false} Letter()
    ensures !IsSpace('s') && !IsSpace('r') && !IsSpace(';') && ')' !in "stream "
  {
  }

  /** `name(input) returns (output);` taken apart. */
  lemma {:induction false} RpcParts(name: string, input: string, output: string)
    requires IsWord(name) && Solid(input) && Solid(output) && ')' !in input && ')' !in output
    ensures var rest := name + "(" + input + ") returns (" + output + ");";
            && FindChar(rest, '(') == |name| < |rest| && Trim(rest[..|name|]) == name
            && rest[|name| + 1..] == input + ") returns (" + output + ");"
  {
    hide FindChar, Trim, IsSpace, IsWordChar;
    WordIsPlain(name);
    var after := input + ") returns (" + output + ");";
    assert name + "(" + input + ") returns (" + output + ");" == name + ['('] + after;
    FindCharAt(name, '(', after);
    TrimSolid(name);
    assert (name + ['('] + after)[..|name|] == name && (name + ['('] + after)[|name| + 1..] == after;
  }

  lemma {:induction false} InputPart(input: string, output: string)
    requires Solid(input) && ')' !in input
    ensures var inside := input + ") returns (" + output + ");";
            && FindChar(inside, ')') == |input| < |inside| && Trim(inside[..|input|]) == input
            && inside[|input| + 1..] == " returns (" + output + ");"
  {
    hide FindChar, Trim, IsSpace;
    var after := " returns (" + output + ");";
    assert input + ") returns (" + output + ");" == input + [')'] + after;
    FindCharAt(input, ')', after);
    TrimSolid(input);
    assert (input + [')'] + after)[..|input|] == input && (input + [')'] + after)[|input| + 1..] == after;
  }

  lemma {:induction false} ReturnsPart(output: string)
    requires Solid(output) && ')' !in output
    ensures var after := " returns (" + output + ");";
            && FindStr(after, "returns") == Some(1) && |after| >= 8
            && after[8..] == " (" + output + ");"
    ensures var tail := " (" + output + ");"; FindChar(tail, '(') == 1 < |tail| && tail[2..] == output + ");"
    ensures var inside := output + ");"; FindChar(inside, ')') == |output| < |inside| && Trim(inside[..|output|]) == output
  {
    hide Trim, IsSpace;
    var after, tail, inside := " returns (" + output + ");", " (" + output + ");", output + ");";
    assert after == " " + ("returns" + tail) && after[1..] == "returns" + tail && after[0] == ' ';
    assert "returns" <= after[1..];
    assert tail == " " + ['('] + inside;
    FindCharAt(" ", '(', inside);
    assert inside == output + [')'] + ";";
    FindCharAt(output, ')', ";");
    TrimSolid(output);
    assert inside[..|output|] == output;
  }

  lemma {:induction false} OutputParsed(output: string, line: string)
    requires Solid(output) && ')' !in output
    ensures RpcOutput(" returns (" + output + ");", line) == Ok(output)
  {
    hide Trim, FindChar, FindStr, IsSpace;
    ReturnsPart(output);
  }

  lemma {:induction false} RpcParsed(line: string, name: string, input: string, output: string)
    requires IsWord(name) && Solid(input) && Solid(output) && ')' !in input && ')' !in output
    requires Trim(StripAll(line, "rpc")) == name + "(" + input + ") returns (" + output + ");"
    ensures ParseRpc(line) == Ok(RpcMethod(name, input, output, None))
  {
    hide Trim, FindChar, RpcOutput, StripAll, Solid, IsWord;
    RpcParts(name, input, output);
    InputPart(input, output);
    OutputParsed(output, line);
  }

  /** An RPC line without its keyword. */
  lemma {:induction false} RpcFront(name: string, after: string)
    requires IsWord(name) && after != "" && after[|after| - 1] == ';'
    ensures var line := "rpc " + (name + after);
            && Trim(StripAll(line, "rpc")) == name + after && Trim("  " + line) == line
            && "rpc" <= line && line != "" && line != "}" && !IsComment(line)
  {
    hide Trim, StripAll, IsSpace, IsWordChar;
    var rest := name + after;
    var line := "rpc " + rest;
    WordIsPlain(name);
    Letter();
    assert rest[|rest| - 1] == ';' && rest[0] == name[0];
    assert line == "rpc" + (" " + rest) && line[0] == 'r' && line[|line| - 1] == ';';
    TrimIndented(line);
    assert Solid("rpc") by { RpcSolid(); }
    NotKeyword("rpc", rest);
    StripAllOnce("rpc", " " + rest);
    TrimOne(rest);
  }

  lemma {:induction false} RpcSolid()
    ensures Solid("rpc")
  {
  }

  /** One printed RPC line, trimmed. */
  lemma {:induction false} RpcLineRead(r: Rpc)
    requires GoodRpc(r)
    ensures var l := Trim(RpcLine(r));
            && "rpc" <= l && l != "" && l != "}" && !IsComment(l)
            && ParseRpc(l) == Ok(RpcMethod(r.name, InputType(r), OutputType(r), None))
  {
    hide Trim, ParseRpc, StripAll, InputType, OutputType, Solid, IsWord;
    var after := "(" + InputType(r) + ") returns (" + OutputType(r) + ");";
    GoodTypes(r);
    RpcFront(r.name, after);
    RpcLineIs(r);
    assert r.name + after == r.name + "(" + InputType(r) + ") returns (" + OutputType(r) + ");";
    RpcParsed("rpc " + (r.name + after), r.name, InputType(r), OutputType(r));
  }

  lemma {:induction false} RpcCommentRead(r: Rpc)
    ensures var l := Trim(RpcComment(r)); l != "}" && IsComment(l) && Some(l) == ParsedRpc(r).comment
  {
    hide Trim, TrimEnd;
    var text := r.httpMethod + " " + r.path;
    assert RpcComment(r) == "  // " + text;
    CommentTrimmed(text);
    TrimComment(text);
  }

  lemma {:induction false} ParsedTypes(r: Rpc)
    ensures RpcMethod(r.name, InputType(r), OutputType(r), None).(comment := ParsedRpc(r).comment) == ParsedRpc(r)
  {
  }

  lemma {:induction false} RpcRead(lines: seq<string>, i: nat, r: Rpc, name: string, methods: seq<RpcMethod>)
    requires GoodRpc(r) && At(lines, i, [RpcComment(r), RpcLine(r)])
    ensures i + 2 <= |lines|
    ensures ServiceFrom(lines, i, name, methods, None) == ServiceFrom(lines, i + 2, name, methods + [ParsedRpc(r)], None)
  {
    hide Trim, ParseRpc, At, GoodRpc, InputType, OutputType, TrimEnd, RpcComment, RpcLine, IsComment;
    AtBound(lines, i, [RpcComment(r), RpcLine(r)]);
    assert [RpcComment(r), RpcLine(r)] == [RpcComment(r)] + [RpcLine(r)];
    AtSplit(lines, i, [RpcComment(r)], [RpcLine(r)]);
    AtOne(lines, i, RpcComment(r));
    AtOne(lines, i + 1, RpcLine(r));
    RpcCommentRead(r);
    RpcLineRead(r);
    ParsedTypes(r);
    assert ServiceFrom(lines, i, name, methods, None)
        == ServiceFrom(lines, i + 1, name, methods, ParsedRpc(r).comment);
  }

  /** The printed line without its indentation. */
  lemma {:induction false} RpcLineIs(r: Rpc)
    ensures RpcLine(r) == "  " + ("rpc " + (r.name + ("(" + InputType(r) + ") returns (" + OutputType(r) + ");")))
  {
    hide InputType, OutputType;
    var t := r.name + "(" + InputType(r) + ") returns (" + OutputType(r) + ");";
    assert "  rpc " + t == "  " + ("rpc " + t);
    assert RpcLine(r) == "  rpc " + t;
    assert r.name + ("(" + InputType(r) + ") returns (" + OutputType(r) + ");") == t;
  }

  lemma {:induction false} GoodTypes(r: Rpc)
    requires GoodRpc(r)
    ensures Solid(InputType(r)) && ')' !in InputType(r) && Solid(OutputType(r)) && ')' !in OutputType(r)
  {
    hide Streamed;
    StreamedPlain(r.clientStreaming, if r.request.Some? then r.request.value.name else "google.protobuf.Empty");
    StreamedPlain(r.serverStreaming, r.response.name);
  }

  predicate GoodRpcs(rpcs: seq<Rpc>) { forall i :: 0 <= i < |rpcs| ==> GoodRpc(rpcs[i]) }

  lemma {:induction false} RpcsRead(lines: seq<string>, i: nat, rpcs: seq<Rpc>, name: string, methods: seq<RpcMethod>)
    requires GoodRpcs(rpcs) && At(lines, i, RpcLines(rpcs))
    ensures i + |RpcLines(rpcs)| <= |lines|
    ensures ServiceFrom(lines, i, name, methods, None)
         == ServiceFrom(lines, i + |RpcLines(rpcs)|, name, methods + ParsedRpcs(rpcs), None)
    decreases |rpcs|
  {
    hide ServiceFrom, At, GoodRpc, ParsedRpc, RpcComment, RpcLine;
    AtBound(lines, i, RpcLines(rpcs));
    if rpcs == [] {
      assert methods + [] == methods;
    } else {
      AtSplit(lines, i, [RpcComment(rpcs[0]), RpcLine(rpcs[0])], RpcLines(rpcs[1..]));
      RpcRead(lines, i, rpcs[0], name, methods);
      RpcsRead(lines, i + 2, rpcs[1..], name, methods + [ParsedRpc(rpcs[0])]);
      Cut(methods, [ParsedRpc(rpcs[0])], ParsedRpcs(rpcs[1..]));
    }
  }

  lemma {:induction false} ServiceRead(lines: seq<string>, i: nat, service: string, rpcs: seq<Rpc>)
    requires IsWord(service) && GoodRpcs(rpcs) && At(lines, i, ServiceLines(service, rpcs))
    ensures i + |ServiceLines(service, rpcs)| <= |lines| && i < |lines|
    ensures ServiceAt(lines, i) == Ok((Service(service, ParsedRpcs(rpcs)), i + |ServiceLines(service, rpcs)|))
  {
    hide Trim, At, RpcLines, BlockName, IsWordChar, ParsedRpcs, GoodRpcs;
    var header := "service " + service + " {";
    assert header == "service" + " " + service + " {";
    AtBound(lines, i, ServiceLines(service, rpcs));
    AtSplit(lines, i, [header] + RpcLines(rpcs), ["}"]);
    AtSplit(lines, i, [header], RpcLines(rpcs));
    AtOne(lines, i, header);
    var j := i + 1 + |RpcLines(rpcs)|;
    AtOne(lines, j, "}");
    MessageWord();
    HeaderNames("service", service);
    RpcsRead(lines, i + 1, rpcs, service, []);
    assert [] + ParsedRpcs(rpcs) == ParsedRpcs(rpcs);
    BraceTrimmed();
    assert ServiceFrom(lines, j, service, ParsedRpcs(rpcs), None) == Ok((Service(service, ParsedRpcs(rpcs)), j + 1));
  }

  // ---- files ----

  predicate GoodDefinition(d: Definition) {
    d.Block? ==> IsWord(d.name) && GoodFields(d.fields)
  }

  /** No field of it looks like a nested message. */
  predicate IsFlat(d: Definition) { d.Block? ==> NoneNested(d.fields) }

  predicate AllFlat(ds: seq<Definition>) { forall i :: 0 <= i < |ds| ==> IsFlat(ds[i]) }

  predicate GoodDefinitions(ds: seq<Definition>) { forall i :: 0 <= i < |ds| ==> GoodDefinition(ds[i]) }

  function ParsedBlocks(ds: seq<Definition>): (ms: seq<ParsedMessage>) {
    if ds == [] then []
    else (if ds[0].Block? then [ParsedMessage(ds[0].name, ParsedAll(ds[0].fields))] else []) + ParsedBlocks(ds[1..])
  }

  /** The blocks with the blank line before each instead of after it. */
  function Spaced(ds: seq<Definition>): (ls: seq<string>) {
    if ds == [] then [] else [""] + DefinitionLines(ds[0]) + Spaced(ds[1..])
  }

  lemma {:induction false} SpacedLines(ds: seq<Definition>)
    ensures [""] + BlocksLines(ds) == Spaced(ds) + [""]
  {
    hide DefinitionLines;
    if ds != [] {
      SpacedLines(ds[1..]);
      assert [""] + (DefinitionLines(ds[0]) + [""] + BlocksLines(ds[1..]))
          == [""] + DefinitionLines(ds[0]) + ([""] + BlocksLines(ds[1..]));
      assert [""] + DefinitionLines(ds[0]) + (Spaced(ds[1..]) + [""])
          == [""] + DefinitionLines(ds[0]) + Spaced(ds[1..]) + [""];
    } else {
      assert [""] + [] == [] + [""];
    }
  }

  lemma {:induction false} BlankSkipped(lines: seq<string>, i: nat, f: ProtoFile)
    requires At(lines, i, [""])
    ensures i + 1 <= |lines| && FileFrom(lines, i, f) == FileFrom(lines, i + 1, f)
  {
    hide Trim, At, ServiceAt, MessageAt, EnumAt;
    AtOne(lines, i, "");
    BraceTrimmed();
  }

  /** The first line of a block, and what the file loop sees in it. */
  lemma {:induction false} BlockHeader(lines: seq<string>, i: nat, name: string, fs: seq<ProtoField>)
    requires IsWord(name) && At(lines, i, MessageLines(name, fs))
    ensures i < |lines| && i + |MessageLines(name, fs)| <= |lines|
    ensures var l := Trim(lines[i]); "message" <= l && l != "" && !IsComment(l)
  {
    hide Trim, At, FieldsLines, IsWordChar, BlockName;
    var header := "message " + name + " {";
    assert MessageLines(name, fs) == [header] + (FieldsLines(fs) + ["}"]);
    AtBound(lines, i, MessageLines(name, fs));
    AtSplit(lines, i, [header], FieldsLines(fs) + ["}"]);
    AtOne(lines, i, header);
    MessageWord();
    HeaderNames("message", name);
    assert "message" + " " + name + " {" == header;
  }

  lemma {:induction false} BlockRead(lines: seq<string>, i: nat, d: Definition, f: ProtoFile)
    requires d.Block? && GoodDefinition(d) && IsFlat(d) && At(lines, i, DefinitionLines(d))
    ensures i + |DefinitionLines(d)| <= |lines|
    ensures FileFrom(lines, i, f)
         == FileFrom(lines, i + |DefinitionLines(d)|,
                     f.(messages := f.messages + [ParsedMessage(d.name, ParsedAll(d.fields))]))
  {
    hide Trim, At, ServiceAt, MessageAt, EnumAt, MessageLines, IsWord, GoodFields, NoneNested, ParsedAll, IsComment;
    BlockHeader(lines, i, d.name, d.fields);
    assert Trim(lines[i])[0] == 'm';
    MessageRead(lines, i, d.name, d.fields);
  }

  /** A block with a nested-looking field ends the file with an error. */
  lemma {:induction false} BlockFails(lines: seq<string>, i: nat, d: Definition, rest: seq<string>, f: ProtoFile)
    requires d.Block? && GoodDefinition(d) && !IsFlat(d) && StaysOpen(rest, 1)
    requires i <= |lines| && lines[i..] == DefinitionLines(d) + rest
    ensures FileFrom(lines, i, f).Err?
  {
    hide Trim, At, ServiceAt, MessageAt, EnumAt, MessageLines, IsWord, GoodFields, NoneNested, IsComment, StaysOpen;
    assert lines[i..i + |DefinitionLines(d)|] == lines[i..][..|DefinitionLines(d)|] == DefinitionLines(d);
    AtHere(lines, i, DefinitionLines(d));
    BlockHeader(lines, i, d.name, d.fields);
    assert Trim(lines[i])[0] == 'm';
    NestedBreaks(lines, i, d.name, d.fields, rest);
  }

  lemma {:induction false} AtHere(lines: seq<string>, i: nat, block: seq<string>)
    requires i + |block| <= |lines| && lines[i..i + |block|] == block
    ensures At(lines, i, block)
  {
  }

  lemma {:induction false} SpacedStays(ds: seq<Definition>, d: int)
    requires GoodDefinitions(ds) && d >= 1
    ensures StaysOpen(Spaced(ds), d)
  {
    hide Trim, MessageLines, IsWord, GoodFields;
    if ds != [] {
      var rest := Spaced(ds[1..]);
      SpacedStays(ds[1..], d);
      BraceTrimmed();
      if ds[0].Block? { BlockStays(ds[0].name, ds[0].fields, rest, d); } else { LineStays("", rest, d); }
      LineStays("", DefinitionLines(ds[0]) + rest, d);
      Cut([""], DefinitionLines(ds[0]), rest);
    }
  }

  /** The definitions at the end of a file are read, all of them, if and only if none looks nested. */
  lemma {:induction false} SpacedRead(lines: seq<string>, i: nat, ds: seq<Definition>, f: ProtoFile)
    requires GoodDefinitions(ds) && i <= |lines| && lines[i..] == Spaced(ds)
    ensures if AllFlat(ds) then FileFrom(lines, i, f) == Ok(f.(messages := f.messages + ParsedBlocks(ds)))
            else FileFrom(lines, i, f).Err?
    decreases |ds|
  {
    hide FileFrom, At, DefinitionLines, GoodDefinition, ParsedAll, IsFlat, StaysOpen;
    if ds == [] {
      assert f.messages + [] == f.messages;
      Nothing(lines, f);
    } else {
      var block, rest := DefinitionLines(ds[0]), Spaced(ds[1..]);
      SpacedParts(lines, i, block, rest);
      BlankSkipped(lines, i, f);
      if !IsFlat(ds[0]) {
        SpacedStays(ds[1..], 1);
        NoneIsFlat(ds[0]);
        BlockFails(lines, i + 1, ds[0], rest, f);
      } else if ds[0].Block? {
        var m := ParsedMessage(ds[0].name, ParsedAll(ds[0].fields));
        BlockRead(lines, i + 1, ds[0], f);
        SpacedRead(lines, i + 1 + |block|, ds[1..], f.(messages := f.messages + [m]));
        Cut(f.messages, [m], ParsedBlocks(ds[1..]));
      } else {
        EmptyBlock(ds[0]);
        BlankSkipped(lines, i + 1, f);
        SpacedRead(lines, i + 2, ds[1..], f);
        assert [] + ParsedBlocks(ds[1..]) == ParsedBlocks(ds[1..]);
      }
    }
  }

  lemma {:induction false} NoneIsFlat(d: Definition)
    requires !IsFlat(d)
    ensures d.Block?
  {
  }

  lemma {:induction false} SpacedParts(lines: seq<string>, i: nat, block: seq<string>, rest: seq<string>)
    requires i <= |lines| && lines[i..] == [""] + block + rest
    ensures At(lines, i, [""]) && At(lines, i + 1, block)
    ensures lines[i + 1..] == block + rest && i + 1 + |block| <= |lines| && lines[i + 1 + |block|..] == rest
  {
    var all := [""] + block + rest;
    assert lines[i..i + 1] == all[..1] && lines[i + 1..i + 1 + |block|] == all[1..1 + |block|];
    assert lines[i + 1..] == all[1..] && lines[i + 1 + |block|..] == all[1 + |block|..];
  }

  lemma {:induction false} EmptyBlock(d: Definition)
    requires d.NoDefinition?
    ensures DefinitionLines(d) == [""]
  {
  }

  lemma {:induction false} QuotedRead()
    ensures TrimQuotes("\"proto3\"") == "proto3"
  {
    assert "\"proto3\"" == "\"" + "proto3\"" && "proto3\"" == "proto3" + "\"";
    assert "proto3\""[0] == 'p' && EndsWith("proto3", "3");
    StripAllOnce("\"", "proto3\"");
    StripEndOnce("proto3", "\"");
  }

  /** After the equals sign. */
  lemma {:induction false} EqualsRead()
    ensures Trim(StripAll("= \"proto3\";", "=")) == "\"proto3\";"
    ensures Trim(StripEnd("\"proto3\";", ";")) == "\"proto3\""
  {
    hide Trim;
    assert "= \"proto3\";" == "=" + (" " + "\"proto3\";");
    assert Solid("=");
    NotKeyword("=", "\"proto3\";");
    StripAllOnce("=", " " + "\"proto3\";");
    TrimOne("\"proto3\";");
    assert "\"proto3\";" == "\"proto3\"" + ";";
    StripEndOnce("\"proto3\"", ";");
    TrimSolid("\"proto3\"");
  }

  /** `syntax = "proto3";` */
  lemma {:induction false} SyntaxRead()
    ensures Trim(SYNTAX_LINE) == SYNTAX_LINE && ParseSyntax(SYNTAX_LINE) == Ok("proto3")
  {
    hide Trim, StripAll, StripEnd, TrimQuotes;
    assert SYNTAX_LINE == "syntax" + (" " + "= \"proto3\";");
    TrimSolid(SYNTAX_LINE);
    NotKeyword("syntax", "= \"proto3\";");
    StripAllOnce("syntax", " " + "= \"proto3\";");
    TrimOne("= \"proto3\";");
    EqualsRead();
    QuotedRead();
  }

  lemma {:induction false} PackageRead(package: string)
    requires IsWord(package)
    ensures var l := "package " + package + ";";
            Trim(l) == l && ParsePackage(l) == Ok(package) && "package" <= l && !("syntax" <= l) && !IsComment(l) && l != ""
  {
    hide Trim, StripAll, StripEnd, IsSpace, IsWordChar;
    WordIsPlain(package);
    var l := "package " + package + ";";
    assert l == "package" + (" " + (package + ";")) && l[0] == 'p' && l[|l| - 1] == ';';
    LineSolid(l);
    TrimSolid(l);
    LineSolid2();
    NotKeyword("package", package + ";");
    StripAllOnce("package", " " + (package + ";"));
    SemicolonSolid(package);
    TrimOne(package + ";");
    assert package[|package| - 1] in package;
    NoSemicolon(package);
    StripEndOnce(package, ";");
    TrimSolid(package);
  }

  lemma {:induction false} NoSemicolon(s: string)
    requires ';' !in s
    ensures !EndsWith(s, ";")
  {
    if s != "" { assert s[|s| - 1] in s; }
  }

  lemma {:induction false} LineSolid(l: string)
    requires l != "" && l[0] == 'p' && l[|l| - 1] == ';'
    ensures Solid(l)
  {
  }

  lemma {:induction false} LineSolid2()
    ensures Solid("package")
  {
  }

  /** The lines of a generated file, without the last, empty one. */
  function Body(service: string, package: string, rpcs: seq<Rpc>): (ls: seq<string>) {
    [SYNTAX_LINE] + [""] + ["package " + package + ";"] + [""] + ServiceLines(service, rpcs) + Spaced(Distinct(rpcs))
  }

  lemma {:induction false} BodyAndBlank(service: string, package: string, rpcs: seq<Rpc>)
    ensures FileLines(service, package, rpcs) == Body(service, package, rpcs) + [""]
  {
    hide ServiceLines, BlocksLines, Spaced, Distinct;
    var a, b := [SYNTAX_LINE, "", "package " + package + ";", ""], ServiceLines(service, rpcs);
    assert [SYNTAX_LINE] + [""] + ["package " + package + ";"] + [""] == a;
    SpacedLines(Distinct(rpcs));
    assert a + b + [""] + BlocksLines(Distinct(rpcs)) == a + b + ([""] + BlocksLines(Distinct(rpcs)));
    assert a + b + (Spaced(Distinct(rpcs)) + [""]) == a + b + Spaced(Distinct(rpcs)) + [""];
  }

  lemma {:induction false} FrontRead(lines: seq<string>, package: string)
    requires IsWord(package) && At(lines, 0, [SYNTAX_LINE] + [""] + ["package " + package + ";"] + [""])
    ensures 4 <= |lines|
    ensures FileFrom(lines, 0, NOTHING) == FileFrom(lines, 4, NOTHING.(syntax := "proto3", package := package))
  {
    hide Trim, At, ServiceAt, MessageAt, EnumAt, ParseSyntax, ParsePackage, ParseImport, IsWord;
    var p := "package " + package + ";";
    AtBound(lines, 0, [SYNTAX_LINE] + [""] + [p] + [""]);
    AtSplit(lines, 0, [SYNTAX_LINE] + [""] + [p], [""]);
    AtSplit(lines, 0, [SYNTAX_LINE] + [""], [p]);
    AtSplit(lines, 0, [SYNTAX_LINE], [""]);
    AtOne(lines, 0, SYNTAX_LINE);
    AtOne(lines, 2, p);
    SyntaxRead();
    PackageRead(package);
    assert FileFrom(lines, 0, NOTHING) == FileFrom(lines, 1, NOTHING.(syntax := "proto3"));
    BlankSkipped(lines, 1, NOTHING.(syntax := "proto3"));
    BlankSkipped(lines, 3, NOTHING.(syntax := "proto3", package := package));
  }

  lemma {:induction false} ServiceInFile(lines: seq<string>, i: nat, service: string, rpcs: seq<Rpc>, f: ProtoFile)
    requires IsWord(service) && GoodRpcs(rpcs) && At(lines, i, ServiceLines(service, rpcs))
    ensures i + |ServiceLines(service, rpcs)| <= |lines|
    ensures FileFrom(lines, i, f)
         == FileFrom(lines, i + |ServiceLines(service, rpcs)|,
                     f.(services := f.services + [Service(service, ParsedRpcs(rpcs))]))
  {
    hide Trim, At, ServiceAt, MessageAt, EnumAt, RpcLines, IsWord, GoodRpcs, ParsedRpcs, BlockName;
    var header := "service " + service + " {";
    assert ServiceLines(service, rpcs) == [header] + (RpcLines(rpcs) + ["}"]);
    AtSplit(lines, i, [header], RpcLines(rpcs) + ["}"]);
    AtOne(lines, i, header);
    MessageWord();
    HeaderNames("service", service);
    assert "service" + " " + service + " {" == header;
    assert header[0] == 's' && header[1] == 'e';
    ServiceRead(lines, i, service, rpcs);
  }

  /** What the generated file stands for. */
  function ParsedFile(service: string, package: string, rpcs: seq<Rpc>): (f: ProtoFile) {
    ProtoFile("proto3", package, [], [Service(service, ParsedRpcs(rpcs))], ParsedBlocks(Distinct(rpcs)), [])
  }

  // ---- which definitions a file holds ----

  /** `d` is the definition of a request or a response of one of the RPCs. */
  predicate DefinedBy(rpcs: seq<Rpc>, d: Definition) {
    exists i :: 0 <= i < |rpcs| &&
      ((rpcs[i].request.Some? && rpcs[i].request.value.definition == d) || rpcs[i].response.definition == d)
  }

  lemma {:induction false} DefinedAll(rpcs: seq<Rpc>, d: Definition)
    ensures d in AllDefinitions(rpcs) <==> DefinedBy(rpcs, d)
  {
    if rpcs != [] {
      DefinedAll(rpcs[1..], d);
      assert forall i :: 1 <= i < |rpcs| ==> rpcs[i] == rpcs[1..][i - 1];
      assert rpcs[0] == rpcs[0];
      if DefinedBy(rpcs[1..], d) {
        var i :| 0 <= i < |rpcs[1..]| &&
          ((rpcs[1..][i].request.Some? && rpcs[1..][i].request.value.definition == d) || rpcs[1..][i].response.definition == d);
        assert rpcs[i + 1] == rpcs[1..][i];
      }
    }
  }

  predicate DistinctTexts(ds: seq<Definition>) {
    forall i, j :: 0 <= i < j < |ds| ==> DefinitionText(ds[i]) != DefinitionText(ds[j])
  }

  lemma {:induction false} InsertKeeps(ds: seq<Definition>, d: Definition)
    requires DistinctTexts(ds)
    ensures ds <= Insert(ds, d) && DistinctTexts(Insert(ds, d)) && HasText(Insert(ds, d), DefinitionText(d))
    ensures forall e :: e in Insert(ds, d) ==> e in ds || e == d
  {
    hide DefinitionText;
    if !HasText(ds, DefinitionText(d)) { assert (ds + [d])[|ds|] == d; }
  }

  lemma {:induction false} InsertAllExact(ds: seq<Definition>, more: seq<Definition>)
    requires DistinctTexts(ds)
    ensures ds <= InsertAll(ds, more) && DistinctTexts(InsertAll(ds, more))
    ensures forall d :: d in InsertAll(ds, more) ==> d in ds || d in more
    ensures forall d :: d in more ==> HasText(InsertAll(ds, more), DefinitionText(d))
    decreases |more|
  {
    hide DefinitionText, Insert, DistinctTexts;
    if more != [] {
      InsertKeeps(ds, more[0]);
      InsertAllExact(Insert(ds, more[0]), more[1..]);
      var all := InsertAll(ds, more);
      HasTextLater(Insert(ds, more[0]), all, DefinitionText(more[0]));
      forall d | d in more ensures HasText(all, DefinitionText(d)) { if d != more[0] { assert d in more[1..]; } }
    }
  }

  lemma {:induction false} HasTextLater(a: seq<Definition>, b: seq<Definition>, text: string)
    requires a <= b && HasText(a, text)
    ensures HasText(b, text)
  {
    var i :| 0 <= i < |a| && DefinitionText(a[i]) == text;
    assert b[i] == a[i];
  }

  /**
    The definitions printed are exactly those of the requests and responses: each is there by its text, none is
    there twice, and nothing else is.
  */
  lemma {:induction false} DistinctExact(rpcs: seq<Rpc>)
    ensures DistinctTexts(Distinct(rpcs))
    ensures forall d :: DefinedBy(rpcs, d) ==> HasText(Distinct(rpcs), DefinitionText(d))
    ensures forall d :: d in Distinct(rpcs) ==> DefinedBy(rpcs, d)
  {
    hide DefinitionText, InsertAll, AllDefinitions, DefinedBy;
    InsertAllExact([], AllDefinitions(rpcs));
    forall d ensures d in AllDefinitions(rpcs) <==> DefinedBy(rpcs, d) { DefinedAll(rpcs, d); }
  }

  /** They stand in the order first met: a longer list of RPCs only adds at the end. */
  lemma {:induction false} DistinctOrder(rpcs: seq<Rpc>, more: seq<Rpc>)
    ensures Distinct(rpcs) <= Distinct(rpcs + more)
  {
    hide Insert;
    AllConcat(rpcs, more);
    InsertAllConcat([], AllDefinitions(rpcs), AllDefinitions(more));
    InsertAllExact([], AllDefinitions(rpcs));
    InsertAllExact(Distinct(rpcs), AllDefinitions(more));
  }

  /** Of one RPC the request's definition comes before the response's. */
  lemma {:induction false} RequestFirst(r: Rpc)
    requires r.request.Some?
    ensures Distinct([r]) != [] && Distinct([r])[0] == r.request.value.definition
  {
    hide DefinitionText;
    var d, e := r.request.value.definition, r.response.definition;
    assert [r][1..] == [] && AllDefinitions([r]) == [d] + [e];
    assert ([d] + [e])[1..] == [e] && Insert([], d) == [d];
    InsertAllExact([d], [e]);
  }

  lemma {:induction false} AllConcat(a: seq<Rpc>, b: seq<Rpc>)
    ensures AllDefinitions(a + b) == AllDefinitions(a) + AllDefinitions(b)
  {
    hide RpcDefinitions;
    if a == [] {
      assert a + b == b;
    } else {
      assert (a + b)[1..] == a[1..] + b;
      AllConcat(a[1..], b);
    }
  }

  /** Words for names, and no stray line breaks. */
  predicate GoodFile(service: string, package: string, rpcs: seq<Rpc>) {
    && IsWord(service) && IsWord(package) && GoodRpcs(rpcs) && GoodDefinitions(Distinct(rpcs))
    && (forall i :: 0 <= i < |FileLines(service, package, rpcs)| ==> OneLine(FileLines(service, package, rpcs)[i]))
  }

  lemma {:induction false} BodyReads(service: string, package: string, rpcs: seq<Rpc>)
    requires IsWord(service) && IsWord(package) && GoodRpcs(rpcs) && GoodDefinitions(Distinct(rpcs))
    ensures var r := FileFrom(Body(service, package, rpcs), 0, NOTHING);
            if AllFlat(Distinct(rpcs)) then r == Ok(ParsedFile(service, package, rpcs)) else r.Err?
  {
    hide FileFrom, At, ServiceLines, Spaced, Distinct, GoodRpcs, GoodDefinitions, IsWord, ParsedRpcs, ParsedBlocks, AllFlat;
    var lines := Body(service, package, rpcs);
    var front := [SYNTAX_LINE] + [""] + ["package " + package + ";"] + [""];
    var b, c := ServiceLines(service, rpcs), Spaced(Distinct(rpcs));
    AtStart(lines, front + b, c);
    AtSplit(lines, 0, front, b);
    FrontRead(lines, package);
    var f := NOTHING.(syntax := "proto3", package := package);
    ServiceInFile(lines, 4, service, rpcs, f);
    SpacedRead(lines, 4 + |b|, Distinct(rpcs), f.(services := [] + [Service(service, ParsedRpcs(rpcs))]));
    assert [] + ParsedBlocks(Distinct(rpcs)) == ParsedBlocks(Distinct(rpcs));
    assert [] + [Service(service, ParsedRpcs(rpcs))] == [Service(service, ParsedRpcs(rpcs))];
  }

  lemma {:induction false} AtStart(lines: seq<string>, a: seq<string>, b: seq<string>)
    requires lines == a + b
    ensures At(lines, 0, a) && lines[|a|..] == b
  {
  }

  lemma {:induction false} Nothing(lines: seq<string>, f: ProtoFile)
    ensures FileFrom(lines, |lines|, f) == Ok(f)
  {
  }

  /**
    Generating a file and parsing it recovers the package, the service with every RPC (types, stream
    prefixes, comment), and every message with every field, in order, each definition once, if and only if
    no definition has a field that looks like a nested message; with one the file does not parse.
  */
  lemma {:induction false} FileRoundTripIff(service: string, package: string, rpcs: seq<Rpc>)
    requires GoodFile(service, package, rpcs)
    ensures var r := Parse(Join(FileLines(service, package, rpcs)));
            && (r == Ok(ParsedFile(service, package, rpcs)) <==> AllFlat(Distinct(rpcs)))
            && (r.Err? <==> !AllFlat(Distinct(rpcs)))
  {
    hide FileFrom, Body, FileLines, Join, Lines, GoodRpcs, GoodDefinitions, IsWord, OneLine, ParsedFile, AllFlat;
    BodyAndBlank(service, package, rpcs);
    var ls, body := FileLines(service, package, rpcs), Body(service, package, rpcs);
    LinesJoin(ls);
    assert ls[|ls| - 1] == "" && ls[..|ls| - 1] == body;
    BodyReads(service, package, rpcs);
  }
}
