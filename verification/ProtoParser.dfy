/**
  The line-by-line `.proto` parser (typeway-grpc/src/proto_parse.rs): single lines, then service, message and
  enum blocks, then whole files. Every loop is given as a function from a line index on, and the method
  with the source's loop is proved equal to it.
*/
module ProtoParser {
  import opened Bytes
  import opened Text
  import opened Strings
  import opened Schema

  // ---- single lines ----

  /** `extract_block_name`. */
  function BlockName(header: string, keyword: string): (r: Result<string, string>)
    requires keyword != ""
  {
    var name := Trim(StripEnd(Trim(StripAll(header, keyword)), "{"));
    if name == "" then Err("missing name after '" + keyword + "'") else Ok(name)
  }

  /** Both quotes trimmed off. */
  function TrimQuotes(s: string): (t: string) { StripEnd(StripAll(s, "\""), "\"") }

  function ParseSyntax(line: string): (r: Result<string, string>) {
    var rest := TrimQuotes(Trim(StripEnd(Trim(StripAll(Trim(StripAll(line, "syntax")), "=")), ";")));
    if rest == "" then Err("empty syntax declaration") else Ok(rest)
  }

  function ParsePackage(line: string): (r: Result<string, string>) {
    var rest := Trim(StripEnd(Trim(StripAll(line, "package")), ";"));
    if rest == "" then Err("empty package declaration") else Ok(rest)
  }

  function ParseImport(line: string): (r: Result<string, string>) {
    var rest := Trim(StripAll(StripAll(Trim(StripAll(line, "import")), "public"), "weak"));
    var path := TrimQuotes(Trim(StripEnd(rest, ";")));
    if path == "" then Err("empty import path") else Ok(path)
  }

  /** The output type, after the input's closing parenthesis. */
  function RpcOutput(after: string, line: string): (r: Result<string, string>) {
    match FindStr(after, "returns")
    case None => Err("missing 'returns' in rpc: " + line)
    case Some(at) =>
      var tail := after[at + 7..];
      var open := FindChar(tail, '(');
      if open == |tail| then Err("missing '(' after returns in rpc: " + line) else
      var inside := tail[open + 1..];
      var close := FindChar(inside, ')');
      if close == |inside| then Err("missing ')' after returns in rpc: " + line) else Ok(Trim(inside[..close]))
  }

  /** `parse_rpc`. */
  function ParseRpc(line: string): (r: Result<RpcMethod, string>) {
    var rest := Trim(StripAll(line, "rpc"));
    var open := FindChar(rest, '(');
    if open == |rest| then Err("missing '(' in rpc: " + line) else
    var inside := rest[open + 1..];
    var close := FindChar(inside, ')');
    if close == |inside| then Err("missing ')' in rpc: " + line) else
    var output :- RpcOutput(inside[close + 1..], line);
    Ok(RpcMethod(Trim(rest[..open]), Trim(inside[..close]), output, None))
  }

  /** `parse_map_field`. */
  function ParseMapField(line: string): (f: Option<ParsedField>) {
    var open, close := FindChar(line, '<'), FindChar(line, '>');
    if open == |line| || close == |line| || close <= open + 1 then None else
    var inner := line[open + 1..close];
    var comma := FindChar(inner, ',');
    if comma == |inner| then None else
    var key, value := Trim(inner[..comma]), Trim(inner[comma + 1..]);
    var tokens := Words(Trim(line[close + 1..]));
    if |tokens| < 3 || tokens[1] != "=" then None
    else
      match ParseU32(tokens[2])
      case None => None
      case Some(tag) =>
        Some(ParsedField(tokens[0], "map<" + key + ", " + value + ">", tag, false, false, true, Some(key), Some(value)))
  }

  /** The tokens of a field that is not a map. */
  function FieldOfTokens(tokens: seq<string>): (f: Option<ParsedField>) {
    if |tokens| < 4 then None
    else
      var repeated := tokens[0] == "repeated";
      var optional := !repeated && tokens[0] == "optional";
      var i := if repeated || optional then 1 else 0;
      if i + 3 > |tokens| || tokens[i + 2] != "=" || i + 3 >= |tokens| then None
      else
        match ParseU32(tokens[i + 3])
        case None => None
        case Some(tag) => Some(ParsedField(tokens[i + 1], tokens[i], tag, repeated, optional, false, None, None))
  }

  /** `parse_field`. */
  function ParseField(text: string): (f: Option<ParsedField>) {
    var line := Trim(StripEnd(Trim(BeforeComment(text)), ";"));
    if "map<" <= line || "map <" <= line then ParseMapField(line) else FieldOfTokens(Words(line))
  }

  function ParseEnumVariant(text: string): (v: Option<EnumVariant>) {
    var line := Trim(StripEnd(Trim(BeforeComment(text)), ";"));
    var k := FindChar(line, '=');
    if k == |line| || '=' in line[k + 1..] then None
    else match ParseU32(Trim(line[k + 1..])) case None => None case Some(tag) => Some(EnumVariant(Trim(line[..k]), tag))
  }

  // ---- blocks ----

  predicate IsComment(line: string) { "//" <= line }

  /** The loop of `parse_service` from line `i` on. */
  function ServiceFrom(lines: seq<string>, i: nat, name: string, methods: seq<RpcMethod>, pending: Option<string>)
    : (r: Result<(Service, nat), string>)
    requires i <= |lines|
    ensures r.Ok? ==> i < r.value.1 <= |lines|
    decreases |lines| - i
  {
    if i == |lines| then Err("unclosed service block '" + name + "'")
    else
      var line := Trim(lines[i]);
      if line == "}" then Ok((Service(name, methods), i + 1))
      else if IsComment(line) then ServiceFrom(lines, i + 1, name, methods, Some(line))
      else if "rpc" <= line then
        var m :- ParseRpc(line);
        ServiceFrom(lines, i + 1, name, methods + [m.(comment := pending)], None)
      else if line == "" then ServiceFrom(lines, i + 1, name, methods, pending)
      else ServiceFrom(lines, i + 1, name, methods, None)
  }

  function ServiceAt(lines: seq<string>, start: nat): (r: Result<(Service, nat), string>)
    requires start < |lines|
    ensures r.Ok? ==> start < r.value.1 <= |lines|
  {
    var name :- BlockName(Trim(lines[start]), "service");
    ServiceFrom(lines, start + 1, name, [], None)
  }

  method ParseService(lines: seq<string>, start: nat) returns (r: Result<(Service, nat), string>)
    requires start < |lines|
    ensures r == ServiceAt(lines, start)
  {
    var header := BlockName(Trim(lines[start]), "service");
    if header.Err? { return Err(header.error); }
    var name := header.value;
    var methods, i := [], start + 1;
    var pending: Option<string> := None;
    while i < |lines|
      invariant start < i <= |lines|
      invariant ServiceAt(lines, start) == ServiceFrom(lines, i, name, methods, pending)
    {
      var line := Trim(lines[i]);
      if line == "}" { return Ok((Service(name, methods), i + 1)); }
      if IsComment(line) {
        pending := Some(line);
        i := i + 1;
        continue;
      }
      if "rpc" <= line {
        var m := ParseRpc(line);
        if m.Err? { return Err(m.error); }
        methods := methods + [m.value.(comment := pending)];
        pending := None;
        i := i + 1;
        continue;
      }
      if line == "" {
        i := i + 1;
        continue;
      }
      pending := None;
      i := i + 1;
    }
    r := Err("unclosed service block '" + name + "'");
  }

  /** The loop of `parse_message_block` from line `i` on; nested messages are flattened with dotted names. */
  function MessageFrom(lines: seq<string>, i: nat, raw: string, full: string,
                       fields: seq<ParsedField>, nested: seq<ParsedMessage>): (r: Result<(seq<ParsedMessage>, nat), string>)
    requires i <= |lines|
    ensures r.Ok? ==> i < r.value.1 <= |lines|
    decreases |lines| - i, 0
  {
    if i == |lines| then Err("unclosed message block '" + raw + "'")
    else
      var line := Trim(lines[i]);
      if line == "}" then Ok(([ParsedMessage(full, fields)] + nested, i + 1))
      else if "message" <= line then
        var inner :- MessageAt(lines, i, full + ".");
        MessageFrom(lines, inner.1, raw, full, fields, nested + inner.0)
      else if line == "" || IsComment(line) then MessageFrom(lines, i + 1, raw, full, fields, nested)
      else
        var f := ParseField(line);
        MessageFrom(lines, i + 1, raw, full, if f.Some? then fields + [f.value] else fields, nested)
  }

  function MessageAt(lines: seq<string>, start: nat, prefix: string): (r: Result<(seq<ParsedMessage>, nat), string>)
    requires start < |lines|
    ensures r.Ok? ==> start < r.value.1 <= |lines|
    decreases |lines| - start - 1, 1
  {
    var raw :- BlockName(Trim(lines[start]), "message");
    MessageFrom(lines, start + 1, raw, if prefix == "" then raw else prefix + raw, [], [])
  }

  method ParseMessageBlock(lines: seq<string>, start: nat, prefix: string)
    returns (r: Result<(seq<ParsedMessage>, nat), string>)
    requires start < |lines|
    ensures r == MessageAt(lines, start, prefix)
    decreases |lines| - start
  {
    hide Trim, BlockName, ParseField, IsComment;
    var header := BlockName(Trim(lines[start]), "message");
    if header.Err? { return Err(header.error); }
    var raw := header.value;
    var full := if prefix == "" then raw else prefix + raw;
    var fields, nested, i := [], [], start + 1;
    while i < |lines|
      invariant start < i <= |lines|
      invariant MessageAt(lines, start, prefix) == MessageFrom(lines, i, raw, full, fields, nested)
    {
      var line := Trim(lines[i]);
      if line == "}" { return Ok(([ParsedMessage(full, fields)] + nested, i + 1)); }
      if "message" <= line {
        var inner := ParseMessageBlock(lines, i, full + ".");
        if inner.Err? { return Err(inner.error); }
        nested := nested + inner.value.0;
        i := inner.value.1;
        continue;
      }
      if line == "" || IsComment(line) {
        i := i + 1;
        continue;
      }
      var f := ParseField(line);
      if f.Some? { fields := fields + [f.value]; }
      i := i + 1;
    }
    r := Err("unclosed message block '" + raw + "'");
  }

  /** The loop of `parse_enum_block` from line `i` on. */
  function EnumFrom(lines: seq<string>, i: nat, name: string, variants: seq<EnumVariant>)
    : (r: Result<(ParsedEnum, nat), string>)
    requires i <= |lines|
    ensures r.Ok? ==> i < r.value.1 <= |lines|
    decreases |lines| - i
  {
    if i == |lines| then Err("unclosed enum block '" + name + "'")
    else
      var line := Trim(lines[i]);
      if line == "}" then Ok((ParsedEnum(name, variants), i + 1))
      else if line == "" || IsComment(line) || "option" <= line || "reserved" <= line then
        EnumFrom(lines, i + 1, name, variants)
      else
        var v := ParseEnumVariant(line);
        EnumFrom(lines, i + 1, name, if v.Some? then variants + [v.value] else variants)
  }

  function EnumAt(lines: seq<string>, start: nat): (r: Result<(ParsedEnum, nat), string>)
    requires start < |lines|
    ensures r.Ok? ==> start < r.value.1 <= |lines|
  {
    var name :- BlockName(Trim(lines[start]), "enum");
    EnumFrom(lines, start + 1, name, [])
  }

  method ParseEnumBlock(lines: seq<string>, start: nat) returns (r: Result<(ParsedEnum, nat), string>)
    requires start < |lines|
    ensures r == EnumAt(lines, start)
  {
    var header := BlockName(Trim(lines[start]), "enum");
    if header.Err? { return Err(header.error); }
    var variants, i := [], start + 1;
    while i < |lines|
      invariant start < i <= |lines|
      invariant EnumAt(lines, start) == EnumFrom(lines, i, header.value, variants)
    {
      var line := Trim(lines[i]);
      if line == "}" { return Ok((ParsedEnum(header.value, variants), i + 1)); }
      if line == "" || IsComment(line) || "option" <= line || "reserved" <= line {
        i := i + 1;
        continue;
      }
      var v := ParseEnumVariant(line);
      if v.Some? { variants := variants + [v.value]; }
      i := i + 1;
    }
    r := Err("unclosed enum block '" + header.value + "'");
  }

  // ---- whole files ----

  const NOTHING := ProtoFile("", "", [], [], [], [])

  /** The loop of `parse_proto` from line `i` on, with what was read so far. */
  function FileFrom(lines: seq<string>, i: nat, f: ProtoFile): (r: Result<ProtoFile, string>)
    requires i <= |lines|
    decreases |lines| - i
  {
    if i == |lines| then Ok(f)
    else
      var line := Trim(lines[i]);
      if line == "" || IsComment(line) then FileFrom(lines, i + 1, f)
      else if "syntax" <= line then
        var s :- ParseSyntax(line);
        FileFrom(lines, i + 1, f.(syntax := s))
      else if "package" <= line then
        var p :- ParsePackage(line);
        FileFrom(lines, i + 1, f.(package := p))
      else if "import" <= line then
        var p :- ParseImport(line);
        FileFrom(lines, i + 1, f.(imports := f.imports + [p]))
      else if "service" <= line then
        var s :- ServiceAt(lines, i);
        FileFrom(lines, s.1, f.(services := f.services + [s.0]))
      else if "message" <= line then
        var m :- MessageAt(lines, i, "");
        FileFrom(lines, m.1, f.(messages := f.messages + m.0))
      else if "enum" <= line then
        var e :- EnumAt(lines, i);
        FileFrom(lines, e.1, f.(enums := f.enums + [e.0]))
      else FileFrom(lines, i + 1, f)
  }

  /** `parse_proto`. */
  function Parse(source: string): (r: Result<ProtoFile, string>) { FileFrom(Lines(source), 0, NOTHING) }

  method ParseProto(source: string) returns (r: Result<ProtoFile, string>)
    ensures r == Parse(source)
  {
    hide Trim, ParseSyntax, ParsePackage, ParseImport, ServiceAt, MessageAt, EnumAt, IsComment, Lines;
    var lines := Lines(source);
    var f, i := NOTHING, 0;
    while i < |lines|
      invariant 0 <= i <= |lines|
      invariant Parse(source) == FileFrom(lines, i, f)
      decreases |lines| - i
    {
      var line := Trim(lines[i]);
      if line == "" || IsComment(line) {
        i := i + 1;
      } else if "syntax" <= line {
        var s := ParseSyntax(line);
        if s.Err? { return Err(s.error); }
        f, i := f.(syntax := s.value), i + 1;
      } else if "package" <= line {
        var p := ParsePackage(line);
        if p.Err? { return Err(p.error); }
        f, i := f.(package := p.value), i + 1;
      } else if "import" <= line {
        var p := ParseImport(line);
        if p.Err? { return Err(p.error); }
        f, i := f.(imports := f.imports + [p.value]), i + 1;
      } else if "service" <= line {
        var s := ParseService(lines, i);
        if s.Err? { return Err(s.error); }
        f, i := f.(services := f.services + [s.value.0]), s.value.1;
      } else if "message" <= line {
        var m := ParseMessageBlock(lines, i, "");
        if m.Err? { return Err(m.error); }
        f, i := f.(messages := f.messages + m.value.0), m.value.1;
      } else if "enum" <= line {
        var e := ParseEnumBlock(lines, i);
        if e.Err? { return Err(e.error); }
        f, i := f.(enums := f.enums + [e.value.0]), e.value.1;
      } else {
        i := i + 1;
      }
    }
    r := Ok(f);
  }
}
