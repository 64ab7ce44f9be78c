/** Files as people write them: any indentation, nested messages, and lines between that the parser passes over. */
module NestedFiles {
  // Source: typeway-grpc/src/proto_parse.rs

  import opened Bytes
  import opened Strings
  import opened Schema
  import opened ProtoParser
  import opened SchemaRoundTrip
  import E = EnumFiles

  /** The lines from `i` on, without the white space around them, begin with these texts. */
  predicate Stands(lines: seq<string>, i: nat, texts: seq<string>) {
    i + |texts| <= |lines| && forall k :: 0 <= k < |texts| ==> Trim(lines[i + k]) == texts[k]
  }

  lemma {:induction false} StandsSplit(lines: seq<string>, i: nat, a: seq<string>, b: seq<string>)
    requires Stands(lines, i, a + b)
    ensures Stands(lines, i, a) && Stands(lines, i + |a|, b)
    ensures i + |a| + |b| <= |lines|
  {
    hide Trim;
    forall k | 0 <= k < |a| ensures Trim(lines[i + k]) == a[k] { assert (a + b)[k] == a[k]; }
    forall k | 0 <= k < |b| ensures Trim(lines[i + |a| + k]) == b[k] { assert (a + b)[|a| + k] == b[k]; }
  }

  lemma {:induction false} StandsOne(lines: seq<string>, i: nat, text: string)
    requires Stands(lines, i, [text])
    ensures i < |lines| && Trim(lines[i]) == text
  {
    assert [text][0] == text && lines[i + 0] == lines[i];
  }

  // ---- notes at the end of a line ----

  lemma {:induction false} NoteFound(text: string, note: string)
    requires '/' !in text
    ensures FindStr(text + "//" + note, "//") == Some(|text|)
  {
    if text == "" {
      assert text + "//" + note == "//" + note;
    } else {
      assert (text + "//" + note)[1..] == text[1..] + "//" + note;
      assert (text + "//" + note)[0] == text[0] && text[0] in text;
      NoteFound(text[1..], note);
    }
  }

  /** Whatever stands behind two slashes on the line of a field or a variant is no part of it. */
  lemma {:induction false} NotesIgnored(text: string, note: string)
    requires '/' !in text
    ensures ParseField(text + "//" + note) == ParseField(text)
    ensures ParseEnumVariant(text + "//" + note) == ParseEnumVariant(text)
  {
    hide FindStr, Trim, StripEnd, FieldOfTokens, ParseMapField;
    NoteFound(text, note);
    NoComment(text);
    assert (text + "//" + note)[..|text|] == text;
    assert BeforeComment(text + "//" + note) == text;
  }

  // ---- what single lines must look like ----

  lemma {:induction false} Around(s: string, k: nat, c: string)
    requires k < |s| && |c| == 1 && s[k] == c[0]
    ensures s == s[..k] + c + s[k + 1..]
  {
    assert [s[k]] == c;
  }

  /** The first pair of parentheses. */
  lemma {:induction false} Parens(s: string) returns (front: string, inside: string, tail: string)
    requires var open := FindChar(s, '('); open < |s| && FindChar(s[open + 1..], ')') < |s[open + 1..]|
    ensures var open := FindChar(s, '(');
            var close := FindChar(s[open + 1..], ')');
            front == s[..open] && inside == s[open + 1..][..close] && tail == s[open + 1..][close + 1..]
    ensures s == front + "(" + (inside + ")" + tail) && '(' !in front && ')' !in inside
  {
    var open := FindChar(s, '(');
    var rest := s[open + 1..];
    var close := FindChar(rest, ')');
    front, inside, tail := s[..open], rest[..close], rest[close + 1..];
    Around(s, open, "(");
    Around(rest, close, ")");
  }

  /** An RPC line reads only if it has the two pairs of parentheses and the keyword between, and as what they hold. */
  lemma {:induction false} RpcShape(line: string)
    returns (name: string, input: string, mid: string, gap: string, output: string, tail: string)
    requires ParseRpc(line).Ok?
    ensures Trim(StripAll(line, "rpc")) == name + "(" + (input + ")" + (mid + "returns" + (gap + "(" + (output + ")" + tail))))
    ensures '(' !in name && ')' !in input && '(' !in gap && ')' !in output
    ensures ParseRpc(line) == Ok(RpcMethod(Trim(name), Trim(input), Trim(output), None))
  {
    hide Trim, StripAll, FindStr, RpcOutput, FindChar;
    var after: string;
    name, input, after := Parens(Trim(StripAll(line, "rpc")));
    mid, gap, output, tail := OutputShape(after, line);
  }

  lemma {:induction false} OutputShape(after: string, line: string) returns (mid: string, gap: string, output: string, tail: string)
    requires RpcOutput(after, line).Ok?
    ensures after == mid + "returns" + (gap + "(" + (output + ")" + tail))
    ensures '(' !in gap && ')' !in output && RpcOutput(after, line) == Ok(Trim(output))
  {
    hide Trim, FindStr, FindChar;
    var at := FindStr(after, "returns").value;
    FoundStands(after, "returns");
    mid := after[..at];
    gap, output, tail := Parens(after[at + 7..]);
    assert after == after[..at] + after[at..at + 7] + after[at + 7..];
  }

  lemma {:induction false} FoundStands(s: string, t: string)
    requires FindStr(s, t).Some?
    ensures var k := FindStr(s, t).value; s[k..k + |t|] == t
  {
    if !(t <= s) {
      FoundStands(s[1..], t);
      var k := FindStr(s[1..], t).value;
      assert s[1..][k..k + |t|] == s[k + 1..k + 1 + |t|];
    }
  }

  /** No declaration, import or block reads with an empty name. */
  lemma {:induction false} NamesNotEmpty(line: string, keyword: string)
    ensures ParseSyntax(line) != Ok("") && ParsePackage(line) != Ok("") && ParseImport(line) != Ok("")
    ensures keyword != "" ==> BlockName(line, keyword) != Ok("")
  {
    hide Trim, StripAll, StripEnd;
  }

  /** A blank between `map` and its bracket changes nothing. */
  lemma {:induction false} SpacedMap(rest: string)
    ensures ParseMapField("map <" + rest) == ParseMapField("map<" + rest)
  {
    hide Trim, Words;
    var s, t := "map <" + rest, "map<" + rest;
    assert s == "map " + ['<'] + rest && t == "map" + ['<'] + rest;
    FindCharAt("map ", '<', rest);
    FindCharAt("map", '<', rest);
    assert s == "map <" + rest && t == "map<" + rest;
    FindPast("map <", '>', rest);
    FindPast("map<", '>', rest);
    var k := FindChar(rest, '>');
    if k < |rest| {
      assert s[5..5 + k] == rest[..k] == t[4..4 + k];
      assert s[5 + k + 1..] == rest[k + 1..] == t[4 + k + 1..];
    }
  }

  lemma {:induction false} FindPast(front: string, c: char, rest: string)
    requires c !in front
    ensures FindChar(front + rest, c) == |front| + FindChar(rest, c)
  {
    if front == "" {
      assert front + rest == rest;
    } else {
      assert (front + rest)[1..] == front[1..] + rest && (front + rest)[0] == front[0];
      FindPast(front[1..], c, rest);
    }
  }

  /** Both spellings are read as maps. */
  lemma {:induction false} MapLines(line: string)
    requires Solid(line) && '/' !in line && line[|line| - 1] != ';' && ("map<" <= line || "map <" <= line)
    ensures ParseField(line) == ParseMapField(line)
  {
    hide Trim, StripEnd, ParseMapField, IsSpace;
    NoComment(line);
    TrimSolid(line);
    NoSemicolon(line);
  }

  lemma {:induction false} NoSemicolon(line: string)
    requires line != "" && line[|line| - 1] != ';'
    ensures StripEnd(line, ";") == line
  {
  }

  // ---- nested messages ----

  datatype Entry = Line(text: string) | Inner(block: Block)

  datatype Block = Block(name: string, entries: seq<Entry>)

  function EntryText(e: Entry): (ls: seq<string>)
    decreases e
  {
    match e case Line(text) => [text] case Inner(b) => BlockText(b)
  }

  function EntriesText(es: seq<Entry>): (ls: seq<string>)
    decreases es
  {
    if es == [] then [] else EntryText(es[0]) + EntriesText(es[1..])
  }

  function BlockText(b: Block): (ls: seq<string>)
    decreases b
  {
    ["message " + b.name + " {"] + EntriesText(b.entries) + ["}"]
  }

  /** A line of a message block that neither closes it nor opens another. */
  predicate Passing(text: string) { text != "}" && !("message" <= text) }

  predicate GoodEntry(e: Entry)
    decreases e
  {
    match e case Line(text) => Passing(text) case Inner(b) => GoodBlock(b)
  }

  predicate GoodEntries(es: seq<Entry>)
    decreases es
  {
    es == [] || (GoodEntry(es[0]) && GoodEntries(es[1..]))
  }

  predicate GoodBlock(b: Block)
    decreases b
  {
    IsWord(b.name) && GoodEntries(b.entries)
  }

  /** A line that reads as a field gives that field. */
  function OwnField(e: Entry): (fs: seq<ParsedField>) {
    match e
    case Line(text) => if text == "" || "//" <= text then [] else (match ParseField(text) case Some(f) => [f] case None => [])
    case Inner(_) => []
  }

  function OwnFields(es: seq<Entry>): (fs: seq<ParsedField>) {
    if es == [] then [] else OwnField(es[0]) + OwnFields(es[1..])
  }

  /** The blocks inside, depth first, under dotted names. */
  function InnerBlocks(e: Entry, outer: string): (ms: seq<ParsedMessage>)
    decreases e
  {
    match e case Line(_) => [] case Inner(b) => Flattened(b, outer + ".")
  }

  function AllInner(es: seq<Entry>, outer: string): (ms: seq<ParsedMessage>)
    decreases es
  {
    if es == [] then [] else InnerBlocks(es[0], outer) + AllInner(es[1..], outer)
  }

  function Flattened(b: Block, prefix: string): (ms: seq<ParsedMessage>)
    decreases b
  {
    [ParsedMessage(prefix + b.name, OwnFields(b.entries))] + AllInner(b.entries, prefix + b.name)
  }

  lemma {:induction false} LineRead(lines: seq<string>, i: nat, text: string, raw: string, full: string,
                                    fields: seq<ParsedField>, nested: seq<ParsedMessage>)
    requires Stands(lines, i, [text]) && Passing(text)
    ensures i < |lines|
    ensures MessageFrom(lines, i, raw, full, fields, nested)
         == MessageFrom(lines, i + 1, raw, full, fields + OwnField(Line(text)), nested)
  {
    hide Trim, ParseField, Stands;
    StandsOne(lines, i, text);
    assert fields + [] == fields;
  }

  lemma {:induction false} EntryRead(lines: seq<string>, i: nat, e: Entry, raw: string, full: string,
                                     fields: seq<ParsedField>, nested: seq<ParsedMessage>)
    requires GoodEntry(e) && Stands(lines, i, EntryText(e)) && full != ""
    ensures i + |EntryText(e)| <= |lines|
    ensures MessageFrom(lines, i, raw, full, fields, nested)
         == MessageFrom(lines, i + |EntryText(e)|, raw, full, fields + OwnField(e), nested + InnerBlocks(e, full))
    decreases e
  {
    hide Trim, ParseField, Passing, MessageAt, MessageFrom, Stands, Flattened, IsWordChar;
    match e
    case Line(text) =>
      StandsOne(lines, i, text);
      LineRead(lines, i, text, raw, full, fields, nested);
      assert nested + [] == nested;
    case Inner(b) =>
      BlockRead(lines, i, b, full + ".");
      BlockOpens(lines, i, b, raw, full, fields, nested);
      assert fields + [] == fields;
  }

  lemma {:induction false} EntriesRead(lines: seq<string>, i: nat, es: seq<Entry>, raw: string, full: string,
                                       fields: seq<ParsedField>, nested: seq<ParsedMessage>)
    requires GoodEntries(es) && Stands(lines, i, EntriesText(es)) && full != ""
    ensures i + |EntriesText(es)| <= |lines|
    ensures MessageFrom(lines, i, raw, full, fields, nested)
         == MessageFrom(lines, i + |EntriesText(es)|, raw, full, fields + OwnFields(es), nested + AllInner(es, full))
    decreases es
  {
    hide Trim, MessageAt, MessageFrom, GoodEntry, EntryText, OwnField, InnerBlocks;
    if es == [] {
      assert fields + [] == fields && nested + [] == nested;
    } else {
      StandsSplit(lines, i, EntryText(es[0]), EntriesText(es[1..]));
      EntryRead(lines, i, es[0], raw, full, fields, nested);
      EntriesRead(lines, i + |EntryText(es[0])|, es[1..], raw, full, fields + OwnField(es[0]), nested + InnerBlocks(es[0], full));
      Cut(fields, OwnField(es[0]), OwnFields(es[1..]));
      Cut(nested, InnerBlocks(es[0], full), AllInner(es[1..], full));
    }
  }

  /** The line that opens an inner block hands over to its block. */
  lemma {:induction false} BlockOpens(lines: seq<string>, i: nat, b: Block, raw: string, full: string,
                                      fields: seq<ParsedField>, nested: seq<ParsedMessage>)
    requires IsWord(b.name) && Stands(lines, i, BlockText(b))
    requires MessageAt(lines, i, full + ".") == Ok((Flattened(b, full + "."), i + |BlockText(b)|))
    ensures MessageFrom(lines, i, raw, full, fields, nested)
         == MessageFrom(lines, i + |BlockText(b)|, raw, full, fields, nested + Flattened(b, full + "."))
  {
    hide Trim, ParseField, MessageAt, EntriesText, IsWordChar, Flattened;
    Header(lines, i, b);
  }

  lemma {:induction false} Header(lines: seq<string>, i: nat, b: Block)
    requires IsWord(b.name) && Stands(lines, i, BlockText(b))
    ensures i < |lines| && i + |BlockText(b)| <= |lines|
    ensures var l := Trim(lines[i]); l != "}" && "message" <= l && BlockName(l, "message") == Ok(b.name)
    ensures Stands(lines, i + 1, EntriesText(b.entries))
    ensures i + |BlockText(b)| == i + 1 + |EntriesText(b.entries)| + 1
    ensures Trim(lines[i + 1 + |EntriesText(b.entries)|]) == "}"
  {
    hide Trim, EntriesText, IsWordChar, BlockName, Stands;
    var header := "message " + b.name + " {";
    assert header == "message" + " " + b.name + " {";
    StandsSplit(lines, i, [header] + EntriesText(b.entries), ["}"]);
    StandsSplit(lines, i, [header], EntriesText(b.entries));
    StandsOne(lines, i, header);
    StandsOne(lines, i + 1 + |EntriesText(b.entries)|, "}");
    MessageWord();
    HeaderNames("message", b.name);
  }

  /** A block with blocks inside, to any depth, reads as itself and then its inner blocks under dotted names. */
  lemma {:induction false} BlockRead(lines: seq<string>, i: nat, b: Block, prefix: string)
    requires GoodBlock(b) && Stands(lines, i, BlockText(b))
    ensures i < |lines| && i + |BlockText(b)| <= |lines|
    ensures MessageAt(lines, i, prefix) == Ok((Flattened(b, prefix), i + |BlockText(b)|))
    decreases b
  {
    hide Trim, EntriesText, IsWordChar, BlockName, Stands, OwnFields, AllInner, ParseField;
    Header(lines, i, b);
    var full := prefix + b.name;
    EntriesRead(lines, i + 1, b.entries, b.name, full, [], []);
    assert [] + OwnFields(b.entries) == OwnFields(b.entries);
    assert [] + AllInner(b.entries, full) == AllInner(b.entries, full);
    var j := i + 1 + |EntriesText(b.entries)|;
    assert MessageFrom(lines, j, b.name, full, OwnFields(b.entries), AllInner(b.entries, full)) == Ok((Flattened(b, prefix), j + 1));
    assert prefix == "" ==> full == b.name;
  }

  // ---- services ----

  /** The comment of an RPC line: the nearest one above it with nothing but blank lines between. */
  function CommentFor(ls: seq<string>, k: nat): (c: Option<string>)
    requires k <= |ls|
  {
    if k == 0 then None
    else if "//" <= ls[k - 1] then Some(ls[k - 1])
    else if ls[k - 1] == "" then CommentFor(ls, k - 1)
    else None
  }

  predicate GoodServiceLines(ls: seq<string>) {
    forall k :: 0 <= k < |ls| ==> ls[k] != "}" && ("rpc" <= ls[k] ==> ParseRpc(ls[k]).Ok?)
  }

  /** The RPC lines from `k` on, in order, each with its comment. */
  function Methods(ls: seq<string>, k: nat): (ms: seq<RpcMethod>)
    requires GoodServiceLines(ls) && k <= |ls|
    decreases |ls| - k
  {
    if k == |ls| then []
    else if "rpc" <= ls[k] then [ParseRpc(ls[k]).value.(comment := CommentFor(ls, k))] + Methods(ls, k + 1)
    else Methods(ls, k + 1)
  }

  lemma {:induction false} ServiceLineRead(lines: seq<string>, i: nat, ls: seq<string>, k: nat, name: string, methods: seq<RpcMethod>)
    requires GoodServiceLines(ls) && Stands(lines, i, ls) && k < |ls|
    ensures i + |ls| <= |lines| && ("rpc" <= ls[k] ==> ParseRpc(ls[k]).Ok?)
    ensures ServiceFrom(lines, i + k, name, methods, CommentFor(ls, k))
         == ServiceFrom(lines, i + k + 1, name,
                        if "rpc" <= ls[k] then methods + [ParseRpc(ls[k]).value.(comment := CommentFor(ls, k))] else methods,
                        CommentFor(ls, k + 1))
  {
    hide Trim, ParseRpc;
    assert Trim(lines[i + k]) == ls[k];
    assert "rpc" <= ls[k] ==> ls[k][0] == 'r';
  }

  lemma {:induction false} ServiceLinesRead(lines: seq<string>, i: nat, ls: seq<string>, k: nat, name: string, methods: seq<RpcMethod>)
    requires GoodServiceLines(ls) && Stands(lines, i, ls) && k <= |ls|
    ensures ServiceFrom(lines, i + k, name, methods, CommentFor(ls, k))
         == ServiceFrom(lines, i + |ls|, name, methods + Methods(ls, k), CommentFor(ls, |ls|))
    decreases |ls| - k
  {
    hide Trim, ParseRpc, ServiceFrom, CommentFor, GoodServiceLines, Stands;
    if k == |ls| {
      assert methods + [] == methods;
    } else {
      ServiceLineRead(lines, i, ls, k, name, methods);
      if "rpc" <= ls[k] {
        var m := ParseRpc(ls[k]).value.(comment := CommentFor(ls, k));
        ServiceLinesRead(lines, i, ls, k + 1, name, methods + [m]);
        Cut(methods, [m], Methods(ls, k + 1));
      } else {
        ServiceLinesRead(lines, i, ls, k + 1, name, methods);
      }
    }
  }

  function ServiceText(name: string, ls: seq<string>): (texts: seq<string>) { ["service " + name + " {"] + ls + ["}"] }

  /** A service reads with its RPC lines in order; other lines only end the reach of a comment. */
  lemma {:induction false} ServiceReads(lines: seq<string>, i: nat, name: string, ls: seq<string>)
    requires IsWord(name) && GoodServiceLines(ls) && Stands(lines, i, ServiceText(name, ls))
    ensures i < |lines| && i + |ServiceText(name, ls)| <= |lines|
    ensures ServiceAt(lines, i) == Ok((Service(name, Methods(ls, 0)), i + |ls| + 2))
  {
    hide Trim, IsWordChar, BlockName, Stands, Methods, GoodServiceLines;
    assert "service " + name + " {" == "service" + " " + name + " {";
    HeaderStands(lines, i, "service", name, ls);
    ServiceLinesRead(lines, i + 1, ls, 0, name, []);
    assert [] + Methods(ls, 0) == Methods(ls, 0);
  }

  lemma {:induction false} HeaderStands(lines: seq<string>, i: nat, keyword: string, name: string, ls: seq<string>)
    requires keyword in ["service", "enum"] && IsWord(name) && Stands(lines, i, [keyword + " " + name + " {"] + ls + ["}"])
    ensures i + |ls| + 2 <= |lines| && Stands(lines, i + 1, ls) && Trim(lines[i + 1 + |ls|]) == "}"
    ensures Trim(lines[i]) == keyword + " " + name + " {" && BlockName(Trim(lines[i]), keyword) == Ok(name)
  {
    hide Trim, IsWordChar, BlockName, Stands;
    var header := keyword + " " + name + " {";
    StandsSplit(lines, i, [header] + ls, ["}"]);
    StandsSplit(lines, i, [header], ls);
    StandsOne(lines, i, header);
    StandsOne(lines, i + 1 + |ls|, "}");
    MessageWord();
    E.EnumWord();
    HeaderNames(keyword, name);
  }

  // ---- enums ----

  function Variants(ls: seq<string>): (vs: seq<EnumVariant>) {
    if ls == [] then []
    else
      (if ls[0] == "" || "//" <= ls[0] || "option" <= ls[0] || "reserved" <= ls[0] then []
       else match ParseEnumVariant(ls[0]) case Some(v) => [v] case None => []) + Variants(ls[1..])
  }

  lemma {:induction false} VariantLinesRead(lines: seq<string>, i: nat, ls: seq<string>, name: string, vs: seq<EnumVariant>)
    requires Stands(lines, i, ls) && "}" !in ls
    ensures i + |ls| <= |lines| && EnumFrom(lines, i, name, vs) == EnumFrom(lines, i + |ls|, name, vs + Variants(ls))
    decreases |ls|
  {
    hide Trim, ParseEnumVariant;
    if ls == [] {
      assert vs + [] == vs;
    } else {
      assert ls == [ls[0]] + ls[1..];
      StandsSplit(lines, i, [ls[0]], ls[1..]);
      StandsOne(lines, i, ls[0]);
      var own := if ls[0] == "" || "//" <= ls[0] || "option" <= ls[0] || "reserved" <= ls[0] then []
                 else match ParseEnumVariant(ls[0]) case Some(v) => [v] case None => [];
      assert vs + [] == vs;
      VariantLinesRead(lines, i + 1, ls[1..], name, vs + own);
      Cut(vs, own, Variants(ls[1..]));
    }
  }

  function EnumText(name: string, ls: seq<string>): (texts: seq<string>) { ["enum " + name + " {"] + ls + ["}"] }

  lemma {:induction false} EnumReads(lines: seq<string>, i: nat, name: string, ls: seq<string>)
    requires IsWord(name) && "}" !in ls && Stands(lines, i, EnumText(name, ls))
    ensures i < |lines| && i + |EnumText(name, ls)| <= |lines|
    ensures EnumAt(lines, i) == Ok((ParsedEnum(name, Variants(ls)), i + |ls| + 2))
  {
    hide Trim, IsWordChar, BlockName, Stands, Variants;
    assert "enum " + name + " {" == "enum" + " " + name + " {";
    HeaderStands(lines, i, "enum", name, ls);
    VariantLinesRead(lines, i + 1, ls, name, []);
    assert [] + Variants(ls) == Variants(ls);
  }

  // ---- whole files ----

  datatype Item =
    | Other(text: string)
    | Import(path: string)
    | Message(block: Block)
    | ServiceBlock(name: string, lines: seq<string>)
    | EnumBlock(name: string, lines: seq<string>)

  function ItemText(it: Item): (ls: seq<string>) {
    match it
    case Other(text) => [text]
    case Import(path) => ["import \"" + path + "\";"]
    case Message(b) => BlockText(b)
    case ServiceBlock(name, lines) => ServiceText(name, lines)
    case EnumBlock(name, lines) => EnumText(name, lines)
  }

  /** Blank lines, comments, options and whatever else begins with no keyword of the file level. */
  predicate GoodItem(it: Item) {
    match it
    case Other(text) =>
      || text == "" || "//" <= text
      || !("syntax" <= text || "package" <= text || "import" <= text || "service" <= text || "message" <= text || "enum" <= text)
    case Import(path) => path != "" && '\"' !in path
    case Message(b) => GoodBlock(b)
    case ServiceBlock(name, lines) => IsWord(name) && GoodServiceLines(lines)
    case EnumBlock(name, lines) => IsWord(name) && "}" !in lines
  }

  function Added(it: Item, f: ProtoFile): (g: ProtoFile)
    requires GoodItem(it)
  {
    match it
    case Other(_) => f
    case Import(path) => f.(imports := f.imports + [path])
    case Message(b) => f.(messages := f.messages + Flattened(b, ""))
    case ServiceBlock(name, lines) => f.(services := f.services + [Service(name, Methods(lines, 0))])
    case EnumBlock(name, lines) => f.(enums := f.enums + [ParsedEnum(name, Variants(lines))])
  }

  lemma {:induction false} OtherRead(lines: seq<string>, i: nat, text: string, f: ProtoFile)
    requires GoodItem(Other(text)) && Stands(lines, i, [text])
    ensures i + |[text]| <= |lines|
    ensures FileFrom(lines, i, f) == FileFrom(lines, i + |[text]|, f)
  {
    hide Trim, IsWordChar, BlockName, Stands, MessageAt, ServiceAt, EnumAt, ParseSyntax, ParsePackage, ParseImport;
    StandsOne(lines, i, text);
  }

  lemma {:induction false} ImportLineRead(lines: seq<string>, i: nat, path: string, f: ProtoFile)
    requires GoodItem(Import(path)) && Stands(lines, i, ItemText(Import(path)))
    ensures i + |ItemText(Import(path))| <= |lines|
    ensures FileFrom(lines, i, f) == FileFrom(lines, i + |ItemText(Import(path))|, f.(imports := f.imports + [path]))
  {
    hide Trim, IsWordChar, BlockName, Stands, MessageAt, ServiceAt, EnumAt, ParseSyntax, ParsePackage, ParseImport;
    var text := "import \"" + path + "\";";
    StandsOne(lines, i, text);
    E.ImportRead(path);
    assert text[0] == 'i' && text[1] == 'm';
  }

  lemma {:induction false} MessageInFile(lines: seq<string>, i: nat, b: Block, f: ProtoFile)
    requires GoodBlock(b) && Stands(lines, i, BlockText(b))
    ensures i + |BlockText(b)| <= |lines|
    ensures FileFrom(lines, i, f) == FileFrom(lines, i + |BlockText(b)|, f.(messages := f.messages + Flattened(b, "")))
  {
    hide Trim, IsWordChar, BlockName, Stands, MessageAt, ServiceAt, EnumAt, ParseSyntax, ParsePackage, ParseImport;
    hide EntriesText, Flattened, GoodEntries;
    BlockRead(lines, i, b, "");
    Header(lines, i, b);
    assert Trim(lines[i])[0] == 'm';
  }

  lemma {:induction false} ServiceInFile(lines: seq<string>, i: nat, name: string, ls: seq<string>, f: ProtoFile)
    requires IsWord(name) && GoodServiceLines(ls) && Stands(lines, i, ServiceText(name, ls))
    ensures i + |ServiceText(name, ls)| <= |lines|
    ensures FileFrom(lines, i, f) == FileFrom(lines, i + |ServiceText(name, ls)|, f.(services := f.services + [Service(name, Methods(ls, 0))]))
  {
    hide Trim, IsWordChar, BlockName, Stands, MessageAt, ServiceAt, EnumAt, ParseSyntax, ParsePackage, ParseImport;
    hide Methods, GoodServiceLines;
    ServiceReads(lines, i, name, ls);
    assert "service " + name + " {" == "service" + " " + name + " {";
    HeaderStands(lines, i, "service", name, ls);
    assert Trim(lines[i])[0] == 's' && Trim(lines[i])[1] == 'e';
  }

  lemma {:induction false} EnumInFile(lines: seq<string>, i: nat, name: string, ls: seq<string>, f: ProtoFile)
    requires IsWord(name) && "}" !in ls && Stands(lines, i, EnumText(name, ls))
    ensures i + |EnumText(name, ls)| <= |lines|
    ensures FileFrom(lines, i, f) == FileFrom(lines, i + |EnumText(name, ls)|, f.(enums := f.enums + [ParsedEnum(name, Variants(ls))]))
  {
    hide Trim, IsWordChar, BlockName, Stands, MessageAt, ServiceAt, EnumAt, ParseSyntax, ParsePackage, ParseImport;
    hide Variants;
    EnumReads(lines, i, name, ls);
    assert "enum " + name + " {" == "enum" + " " + name + " {";
    HeaderStands(lines, i, "enum", name, ls);
    assert Trim(lines[i])[0] == 'e';
  }

  lemma {:induction false} ItemRead(lines: seq<string>, i: nat, it: Item, f: ProtoFile)
    requires GoodItem(it) && Stands(lines, i, ItemText(it))
    ensures i + |ItemText(it)| <= |lines| && FileFrom(lines, i, f) == FileFrom(lines, i + |ItemText(it)|, Added(it, f))
  {
    hide Stands, FileFrom, BlockText, ServiceText, EnumText, GoodBlock, GoodServiceLines, IsWordChar, Flattened, Methods, Variants;
    match it
    case Other(text) => OtherRead(lines, i, text, f);
    case Import(path) => ImportLineRead(lines, i, path, f);
    case Message(b) => MessageInFile(lines, i, b, f);
    case ServiceBlock(name, ls) => ServiceInFile(lines, i, name, ls, f);
    case EnumBlock(name, ls) => EnumInFile(lines, i, name, ls, f);
  }

  function ItemsText(its: seq<Item>): (ls: seq<string>) { if its == [] then [] else ItemText(its[0]) + ItemsText(its[1..]) }

  function AddedAll(its: seq<Item>, f: ProtoFile): (g: ProtoFile)
    requires forall k :: 0 <= k < |its| ==> GoodItem(its[k])
  {
    if its == [] then f else AddedAll(its[1..], Added(its[0], f))
  }

  lemma {:induction false} EndOfFile(lines: seq<string>, f: ProtoFile)
    ensures FileFrom(lines, |lines|, f) == Ok(f)
  {
  }

  lemma {:induction false} ItemsRead(lines: seq<string>, i: nat, its: seq<Item>, f: ProtoFile)
    requires (forall k :: 0 <= k < |its| ==> GoodItem(its[k])) && Stands(lines, i, ItemsText(its))
    requires i + |ItemsText(its)| == |lines|
    ensures FileFrom(lines, i, f) == Ok(AddedAll(its, f))
    decreases |its|
  {
    hide Stands, ItemText, GoodItem, Added, FileFrom;
    if its == [] {
      EndOfFile(lines, f);
    } else {
      StandsSplit(lines, i, ItemText(its[0]), ItemsText(its[1..]));
      ItemRead(lines, i, its[0], f);
      ItemsRead(lines, i + |ItemText(its[0])|, its[1..], Added(its[0], f));
    }
  }

  /**
    A file of imports, services, enums and nested messages, in any order and at any indentation, with blank lines,
    comments and options between, reads as just these, each kind in the order of the file.
  */
  lemma {:induction false} FileReads(source: string, its: seq<Item>)
    requires forall k :: 0 <= k < |its| ==> GoodItem(its[k])
    requires |Lines(source)| == |ItemsText(its)| && Stands(Lines(source), 0, ItemsText(its))
    ensures Parse(source) == Ok(AddedAll(its, ProtoFile("", "", [], [], [], [])))
  {
    hide Stands, ItemsText, GoodItem, AddedAll, FileFrom, Lines;
    ItemsRead(Lines(source), 0, its, NOTHING);
  }
}
