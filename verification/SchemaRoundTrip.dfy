/**
  Printed fields and message blocks read back, and both parsers agree on every printed field line; this is
  the part below whole files.
*/
module SchemaRoundTrip {
  import opened Bytes
  import opened Text
  import opened Strings
  import opened Schema
  import opened SchemaPrint
  import opened ProtoParser
  import opened SpecParser

  // ---- one field ----

  /** Names and types are words, and the type is not one of the label keywords. */
  predicate GoodField(f: ProtoField) {
    && IsWord(f.name)
    && if f.isMap then IsWord(Or(f.mapKey, "string")) && IsWord(Or(f.mapValue, "string"))
       else IsWord(f.protoType) && f.protoType != "repeated" && f.protoType != "optional"
  }

  /** The field as the parsers see it: `repeated` wins over `optional`, map fields carry neither. */
  function Parsed(f: ProtoField): (p: ParsedField) {
    if f.isMap then
      var k, v := Or(f.mapKey, "string"), Or(f.mapValue, "string");
      ParsedField(f.name, "map<" + k + ", " + v + ">", f.tag, false, false, true, Some(k), Some(v))
    else ParsedField(f.name, f.protoType, f.tag, f.repeated, f.optional && !f.repeated, false, None, None)
  }

  /** `name = tag`. */
  function NameAndTag(f: ProtoField): (s: string) { f.name + " " + ("= " + Decimal(f.tag)) }

  function Label(f: ProtoField): (s: string) {
    if f.repeated then "repeated " else if f.optional then "optional " else ""
  }

  /** The declaration without its semicolon, bracketed for reading from the left. */
  function Core(f: ProtoField): (s: string) {
    if f.isMap then "map<" + Or(f.mapKey, "string") + ", " + Or(f.mapValue, "string") + "> " + NameAndTag(f)
    else Label(f) + (f.protoType + " " + NameAndTag(f))
  }

  lemma {:induction false} DeclarationIsCore(f: ProtoField)
    ensures Declaration(f) == Core(f) + ";"
  {
    hide Decimal;
    var t := Decimal(f.tag);
    assert f.name + " = " + t + ";" == NameAndTag(f) + ";";
    if f.isMap {
      var a := "map<" + Or(f.mapKey, "string") + ", " + Or(f.mapValue, "string") + "> ";
      assert a + f.name + " = " + t + ";" == a + (f.name + " = " + t + ";");
    } else {
      assert Label(f) + f.protoType + " " + f.name + " = " + t + ";"
          == Label(f) + (f.protoType + " " + (f.name + " = " + t + ";"));
    }
  }

  lemma {:induction false} TagEnds(f: ProtoField)
    requires IsWord(f.name)
    ensures Solid(NameAndTag(f)) && !EndsWith(NameAndTag(f), ";") && '/' !in NameAndTag(f) && '<' !in NameAndTag(f)
  {
    WordIsPlain(f.name);
    DecimalIsWord(f.tag);
    WordIsPlain(Decimal(f.tag));
    var s, t := NameAndTag(f), Decimal(f.tag);
    assert s[|s| - 1] == t[|t| - 1];
  }

  lemma {:induction false} CoreShape(f: ProtoField)
    requires GoodField(f)
    ensures Solid(Core(f)) && !EndsWith(Core(f), ";") && '/' !in Core(f)
  {
    hide Decimal, IsSpace, IsWordChar;
    TagEnds(f);
    if f.isMap {
      var k, v := Or(f.mapKey, "string"), Or(f.mapValue, "string");
      WordIsPlain(k);
      WordIsPlain(v);
      MapStart(k, v);
    } else {
      WordIsPlain(f.protoType);
      LabelStart(f);
    }
  }

  lemma {:induction false} MapStart(k: string, v: string)
    requires '/' !in k && '/' !in v
    ensures var a := "map<" + k + ", " + v + "> "; a[0] == 'm' && !IsSpace('m') && '/' !in a
  {
  }

  lemma {:induction false} LabelStart(f: ProtoField)
    ensures (Label(f) != "" ==> !IsSpace(Label(f)[0])) && '/' !in Label(f)
  {
  }

  /** Both field parsers first cut the line down to its core. */
  lemma {:induction false} CutToCore(f: ProtoField)
    requires GoodField(f)
    ensures Trim(StripEnd(Trim(BeforeComment(Declaration(f))), ";")) == Core(f)
    ensures Trim(StripEnd(Trim(Declaration(f)), ";")) == Core(f)
    ensures Solid(Declaration(f)) && Declaration(f)[0] == Core(f)[0]
  {
    hide Core, Declaration, Decimal, IsSpace;
    DeclarationIsCore(f);
    CoreShape(f);
    NoComment(Declaration(f));
    SemicolonSolid(Core(f));
    TrimSolid(Declaration(f));
    StripEndOnce(Core(f), ";");
    TrimSolid(Core(f));
  }

  lemma {:induction false} SemicolonSolid(s: string)
    requires Solid(s)
    ensures Solid(s + ";") && (s + ";")[0] == s[0] && ('/' !in s ==> '/' !in s + ";")
  {
  }

  // ---- the tokens of a plain field ----

  lemma {:induction false} NameTokens(f: ProtoField)
    requires IsWord(f.name)
    ensures Words(NameAndTag(f)) == [f.name, "=", Decimal(f.tag)]
    ensures SplitSpaces(NameAndTag(f), 3) == [f.name, "=", Decimal(f.tag)]
  {
    hide Decimal, Words, SplitSpaces;
    var t := Decimal(f.tag);
    DecimalIsWord(f.tag);
    WordIsPlain(t);
    WordIsPlain(f.name);
    assert "= " + t == "=" + " " + t;
    WordsPair(f.name, "= " + t);
    WordsPair("=", t);
    WordsLast(t);
    SplitOne(f.name, "= " + t, 3);
    SplitOne("=", t, 2);
    SplitRest(t);
  }

  lemma {:induction false} TypeTokens(f: ProtoField)
    requires IsWord(f.name) && IsWord(f.protoType)
    ensures Words(f.protoType + " " + NameAndTag(f)) == [f.protoType, f.name, "=", Decimal(f.tag)]
    ensures SplitSpaces(f.protoType + " " + NameAndTag(f), 4) == [f.protoType, f.name, "=", Decimal(f.tag)]
  {
    hide Decimal, Words, SplitSpaces, NameAndTag;
    WordIsPlain(f.protoType);
    NameTokens(f);
    WordsPair(f.protoType, NameAndTag(f));
    SplitOne(f.protoType, NameAndTag(f), 4);
  }

  lemma {:induction false} CoreTokens(f: ProtoField)
    requires GoodField(f) && !f.isMap
    ensures Words(Core(f)) == (if f.repeated then ["repeated"] else if f.optional then ["optional"] else [])
                            + [f.protoType, f.name, "=", Decimal(f.tag)]
  {
    hide Decimal, Words, NameAndTag;
    TypeTokens(f);
    Labels();
    var rest := f.protoType + " " + NameAndTag(f);
    if f.repeated {
      WordsPair("repeated", rest);
    } else if f.optional {
      WordsPair("optional", rest);
    } else {
      assert "" + rest == rest;
    }
  }

  lemma {:induction false} Labels()
    ensures "repeated " == "repeated" + " " && "optional " == "optional" + " "
    ensures NoSpaceIn("repeated") && NoSpaceIn("optional")
  {
  }

  lemma {:induction false} NotMap(f: ProtoField)
    requires GoodField(f) && !f.isMap
    ensures '<' !in Core(f) && !("map<" <= Core(f)) && !("map <" <= Core(f))
  {
    hide Decimal, IsWordChar, IsSpace;
    WordIsPlain(f.protoType);
    TagEnds(f);
    var s := Core(f);
    assert '<' !in Label(f);
    assert '<' !in s;
    NoAngle(s);
  }

  lemma {:induction false} NoAngle(s: string)
    requires '<' !in s
    ensures !("map<" <= s) && !("map <" <= s)
  {
    if |s| >= 4 { assert s[3] in s; }
    if |s| >= 5 { assert s[4] in s; }
  }

  lemma {:induction false} PlainFieldParses(f: ProtoField)
    requires GoodField(f) && !f.isMap
    ensures ParseField(Declaration(f)) == Some(Parsed(f))
  {
    hide Decimal, Words, Core, Declaration, BeforeComment, Trim, StripEnd, ParseU32;
    CutToCore(f);
    NotMap(f);
    CoreTokens(f);
    DecimalInverts(f.tag);
  }

  // ---- map fields ----

  /** A map declaration, taken apart the way both parsers do. */
  lemma {:induction false} MapParts(k: string, v: string, rest: string)
    requires IsWord(k) && IsWord(v) && Solid(rest)
    ensures var line, close := "map<" + k + ", " + v + "> " + rest, |k| + |v| + 6;
            && "map<" <= line && FindChar(line, '<') == 3 && FindChar(line, '>') == close && close < |line|
            && line[4..close] == k + ", " + v && Trim(line[close + 1..]) == rest
  {
    hide FindChar, IsSpace, IsWordChar, Trim;
    var front := "map<" + k + ", " + v;
    var line := front + "> " + rest;
    WordIsPlain(k);
    WordIsPlain(v);
    assert line == front + ['>'] + (" " + rest) && '>' !in front;
    FindCharAt(front, '>', " " + rest);
    assert line == "map" + ['<'] + (k + ", " + v + "> " + rest);
    FindCharAt("map", '<', k + ", " + v + "> " + rest);
    assert line[|front| + 1..] == " " + rest;
    TrimOne(rest);
  }

  lemma {:induction false} TrimOne(s: string)
    requires Solid(s)
    ensures Trim(" " + s) == s
  {
    TrimPadded(" ", s, "");
    assert " " + s + "" == " " + s;
  }

  lemma {:induction false} KeyAndValue(k: string, v: string)
    requires IsWord(k) && IsWord(v)
    ensures var inner := k + ", " + v;
            && FindChar(inner, ',') == |k| && |k| < |inner|
            && Trim(inner[..|k|]) == k && Trim(inner[|k| + 1..]) == v
  {
    hide IsSpace, IsWordChar, Trim, FindChar;
    WordIsPlain(k);
    WordIsPlain(v);
    assert k + ", " + v == k + [','] + (" " + v);
    FindCharAt(k, ',', " " + v);
    assert (k + ", " + v)[..|k|] == k && (k + ", " + v)[|k| + 1..] == " " + v;
    TrimSolid(k);
    TrimOne(v);
  }

  lemma {:induction false} MapFieldParses(f: ProtoField)
    requires GoodField(f) && f.isMap
    ensures ParseField(Declaration(f)) == Some(Parsed(f))
  {
    hide Decimal, Words, Declaration, BeforeComment, Trim, StripEnd, ParseU32, FindChar, NameAndTag, IsWordChar, IsSpace;
    var k, v := Or(f.mapKey, "string"), Or(f.mapValue, "string");
    CutToCore(f);
    TagEnds(f);
    MapParts(k, v, NameAndTag(f));
    KeyAndValue(k, v);
    NameTokens(f);
    DecimalInverts(f.tag);
    assert ParseMapField(Core(f)) == Some(Parsed(f));
  }

  // ---- the other parser ----

  /** The same field for the second parser, which calls every map type just "map". */
  function SpecParsed(f: ProtoField): (p: ParsedField) {
    if f.isMap then Parsed(f).(protoType := "map") else Parsed(f)
  }

  lemma {:induction false} OtherWord(w: string, rest: string, keyword: string)
    requires ' ' !in w && ' ' !in keyword && w != keyword
    ensures !(keyword + " " <= w + " " + rest)
  {
    var s := w + " " + rest;
    FindCharAt(w, ' ', rest);
    assert s[..|w|] == w;
    if keyword + " " <= s {
      var tail := s[|keyword| + 1..];
      assert s == keyword + " " + tail && s[..|keyword|] == keyword;
      FindCharAt(keyword, ' ', tail);
    }
  }

  lemma {:induction false} PartsOfType(f: ProtoField, repeated: bool, optional: bool)
    requires GoodField(f) && !f.isMap
    ensures FieldOfParts(f.protoType + " " + NameAndTag(f), repeated, optional)
         == Some(ParsedField(f.name, f.protoType, f.tag, repeated, optional, false, None, None))
  {
    hide Decimal, SplitSpaces, NameAndTag, ParseU32, Trim, IsSpace;
    TypeTokens(f);
    DecimalIsWord(f.tag);
    WordIsPlain(Decimal(f.tag));
    TrimSolid(Decimal(f.tag));
    DecimalInverts(f.tag);
  }

  /** Without its label the core is the type, the name and the tag. */
  lemma {:induction false} Unlabelled(f: ProtoField)
    requires GoodField(f) && !f.isMap
    ensures var rest := f.protoType + " " + NameAndTag(f);
            && Trim(rest) == rest && !("repeated " <= rest) && !("optional " <= rest)
            && (f.repeated ==> StripAll(Core(f), "repeated ") == rest && "repeated " <= Core(f))
            && (!f.repeated && f.optional ==>
                  StripAll(Core(f), "optional ") == rest && "optional " <= Core(f) && !("repeated " <= Core(f)))
            && (!f.repeated && !f.optional ==> Core(f) == rest)
  {
    hide Decimal, NameAndTag, IsWordChar, IsSpace, Trim, StripAll;
    var rest := f.protoType + " " + NameAndTag(f);
    WordIsPlain(f.protoType);
    TagEnds(f);
    TrimSolid(rest);
    Labels();
    OtherWord(f.protoType, NameAndTag(f), "repeated");
    OtherWord(f.protoType, NameAndTag(f), "optional");
    StripAllOnce("repeated ", rest);
    StripAllOnce("optional ", rest);
    assert "" + rest == rest;
    assert ("optional " + rest)[0] == 'o';
  }

  lemma {:induction false} PlainFieldSpecs(f: ProtoField)
    requires GoodField(f) && !f.isMap
    ensures ParseFieldSpec(Declaration(f)) == Some(SpecParsed(f))
  {
    hide Decimal, Core, Declaration, Trim, StripEnd, StripAll, FieldOfParts, NameAndTag;
    CutToCore(f);
    CoreShape(f);
    NotMap(f);
    Unlabelled(f);
    PartsOfType(f, f.repeated, f.optional && !f.repeated);
  }

  lemma {:induction false} MapFieldSpecs(f: ProtoField)
    requires GoodField(f) && f.isMap
    ensures ParseFieldSpec(Declaration(f)) == Some(SpecParsed(f))
  {
    hide Decimal, SplitSpaces, Declaration, BeforeComment, Trim, StripEnd, ParseU32, FindChar, NameAndTag, IsWordChar, IsSpace;
    var k, v := Or(f.mapKey, "string"), Or(f.mapValue, "string");
    CutToCore(f);
    TagEnds(f);
    MapParts(k, v, NameAndTag(f));
    KeyAndValue(k, v);
    NameTokens(f);
    DecimalIsWord(f.tag);
    WordIsPlain(Decimal(f.tag));
    TrimSolid(Decimal(f.tag));
    DecimalInverts(f.tag);
    assert ParseMapSpec(Core(f)) == Some(SpecParsed(f));
  }

  /** Every printed field line is read back by both parsers, to the same field up to the name of a map type. */
  lemma {:induction false} FieldsAgree(f: ProtoField)
    requires GoodField(f)
    ensures ParseField(Declaration(f)) == Some(Parsed(f))
    ensures ParseFieldSpec(Declaration(f)) == Some(SpecParsed(f))
  {
    hide ParseField, ParseFieldSpec, Declaration, Parsed, SpecParsed;
    if f.isMap {
      MapFieldParses(f);
      MapFieldSpecs(f);
    } else {
      PlainFieldParses(f);
      PlainFieldSpecs(f);
    }
  }

  // ---- blocks of lines ----

  /** `block` stands at line `i`. */
  predicate At(lines: seq<string>, i: nat, block: seq<string>) {
    i + |block| <= |lines| && lines[i..i + |block|] == block
  }

  lemma {:induction false} AtSplit(lines: seq<string>, i: nat, a: seq<string>, b: seq<string>)
    requires At(lines, i, a + b)
    ensures At(lines, i, a) && At(lines, i + |a|, b)
  {
    assert lines[i..i + |a|] == (a + b)[..|a|];
    assert lines[i + |a|..i + |a| + |b|] == (a + b)[|a|..];
  }

  lemma {:induction false} AtOne(lines: seq<string>, i: nat, l: string)
    requires At(lines, i, [l])
    ensures i < |lines| && lines[i] == l
  {
    assert lines[i..i + 1][0] == l;
  }

  lemma {:induction false} CommentTrimmed(text: string)
    ensures IsComment(Trim("  // " + text)) && Trim("  // " + text) != "" && Trim("  // " + text) != "}"
    ensures !("message" <= Trim("  // " + text))
  {
    TrimComment(text);
  }

  /** Comment lines in a message block are passed over. */
  lemma {:induction false} CommentsSkipped(lines: seq<string>, i: nat, doc: seq<string>, raw: string, full: string,
                                           fields: seq<ParsedField>, nested: seq<ParsedMessage>)
    requires At(lines, i, CommentLines(doc))
    ensures MessageFrom(lines, i, raw, full, fields, nested)
         == MessageFrom(lines, i + |CommentLines(doc)|, raw, full, fields, nested)
    decreases |doc|
  {
    hide Trim, ParseField, MessageAt, IsComment, At;
    if doc != [] {
      AtSplit(lines, i, ["  // " + doc[0]], CommentLines(doc[1..]));
      AtOne(lines, i, "  // " + doc[0]);
      AtBound(lines, i + 1, CommentLines(doc[1..]));
      CommentTrimmed(doc[0]);
      CommentsSkipped(lines, i + 1, doc[1..], raw, full, fields, nested);
    } else {
      AtBound(lines, i, []);
    }
  }

  lemma {:induction false} AtBound(lines: seq<string>, i: nat, block: seq<string>)
    requires At(lines, i, block)
    ensures i + |block| <= |lines|
  {
  }

  /** The one kind of field line the block parser takes for a nested message. */
  predicate LooksNested(f: ProtoField) { !f.isMap && !f.repeated && !f.optional && "message" <= f.protoType }

  lemma {:induction false} NestedLook(f: ProtoField)
    requires GoodField(f)
    ensures "message" <= Declaration(f) <==> LooksNested(f)
  {
    hide Core, NameAndTag, Declaration, GoodField;
    DeclarationIsCore(f);
    if f.isMap {
      MapIsNotMessage(f);
    } else if f.repeated || f.optional {
      LabelIsNotMessage(f);
    } else {
      PlainIsItsType(f);
      WordPrefix(f.protoType, " " + (NameAndTag(f) + ";"), "message");
    }
  }

  lemma {:induction false} PlainIsItsType(f: ProtoField)
    requires !f.isMap && !f.repeated && !f.optional
    ensures Core(f) + ";" == f.protoType + (" " + (NameAndTag(f) + ";"))
  {
    hide NameAndTag;
  }

  lemma {:induction false} MapIsNotMessage(f: ProtoField)
    requires f.isMap
    ensures !("message" <= Core(f) + ";")
  {
    hide Decimal, NameAndTag;
    var k, v := Or(f.mapKey, "string"), Or(f.mapValue, "string");
    var s := "map<" + k;
    assert Core(f) + ";" == s + (", " + v + "> " + NameAndTag(f) + ";");
    assert (Core(f) + ";")[1] == s[1] == 'a';
  }

  lemma {:induction false} LabelIsNotMessage(f: ProtoField)
    requires !f.isMap && (f.repeated || f.optional)
    ensures !("message" <= Core(f) + ";")
  {
    hide Decimal, NameAndTag;
    assert Core(f) + ";" == Label(f) + (f.protoType + " " + NameAndTag(f) + ";");
    assert (Core(f) + ";")[0] == Label(f)[0] != 'm';
  }

  lemma {:induction false} WordPrefix(w: string, rest: string, p: string)
    requires ' ' !in p && rest != "" && rest[0] == ' '
    ensures p <= w + rest <==> p <= w
  {
    var s := w + rest;
    if |p| > |w| {
      assert s[|w|] == ' ';
      assert p[|w|] in p;
    }
    if |p| <= |w| { assert s[..|p|] == w[..|p|]; }
  }

  /** A field's lines in a message block add the parsed field. */
  lemma {:induction false} FieldRead(lines: seq<string>, i: nat, f: ProtoField, raw: string, full: string,
                                     fields: seq<ParsedField>, nested: seq<ParsedMessage>)
    requires GoodField(f) && !LooksNested(f) && At(lines, i, FieldLines(f))
    ensures i + |FieldLines(f)| <= |lines|
    ensures MessageFrom(lines, i, raw, full, fields, nested)
         == MessageFrom(lines, i + |FieldLines(f)|, raw, full, fields + [Parsed(f)], nested)
  {
    hide Trim, ParseField, MessageAt, At, Declaration, Parsed;
    AtBound(lines, i, FieldLines(f));
    AtSplit(lines, i, DocLines(f), ["  " + Declaration(f)]);
    var j := i + |DocLines(f)|;
    AtOne(lines, j, "  " + Declaration(f));
    if f.doc.Some? && f.doc.value != "" {
      CommentsSkipped(lines, i, Lines(f.doc.value), raw, full, fields, nested);
    }
    DeclarationRead(f);
  }

  lemma {:induction false} DeclarationRead(f: ProtoField)
    requires GoodField(f)
    ensures var l := Trim("  " + Declaration(f));
            && l == Declaration(f) && l != "" && l != "}" && !IsComment(l) && ParseField(l) == Some(Parsed(f))
            && ("message" <= l <==> LooksNested(f))
  {
    hide Trim, ParseField, Declaration, Parsed, Core, IsSpace;
    CutToCore(f);
    CoreShape(f);
    TrimIndented(Declaration(f));
    FieldsAgree(f);
    NestedLook(f);
    DeclarationIsCore(f);
    SlashFree(Core(f));
  }

  lemma {:induction false} SlashFree(s: string)
    requires s != "" && '/' !in s
    ensures s + ";" != "}" && !IsComment(s + ";")
  {
    assert (s + ";")[0] == s[0] && s[0] in s;
    assert (s + ";")[|s|] == ';';
  }

  function ParsedAll(fs: seq<ProtoField>): (ps: seq<ParsedField>) {
    if fs == [] then [] else [Parsed(fs[0])] + ParsedAll(fs[1..])
  }

  predicate GoodFields(fs: seq<ProtoField>) { forall i :: 0 <= i < |fs| ==> GoodField(fs[i]) }

  predicate NoneNested(fs: seq<ProtoField>) { forall i :: 0 <= i < |fs| ==> !LooksNested(fs[i]) }

  lemma {:induction false} FieldsRead(lines: seq<string>, i: nat, fs: seq<ProtoField>, raw: string, full: string,
                                      fields: seq<ParsedField>, nested: seq<ParsedMessage>)
    requires GoodFields(fs) && NoneNested(fs) && At(lines, i, FieldsLines(fs))
    ensures i + |FieldsLines(fs)| <= |lines|
    ensures MessageFrom(lines, i, raw, full, fields, nested)
         == MessageFrom(lines, i + |FieldsLines(fs)|, raw, full, fields + ParsedAll(fs), nested)
    decreases |fs|
  {
    hide MessageFrom, At, FieldLines, GoodField, LooksNested, Parsed;
    AtBound(lines, i, FieldsLines(fs));
    if fs == [] {
      assert fields + [] == fields;
    } else {
      AtSplit(lines, i, FieldLines(fs[0]), FieldsLines(fs[1..]));
      FieldRead(lines, i, fs[0], raw, full, fields, nested);
      FieldsRead(lines, i + |FieldLines(fs[0])|, fs[1..], raw, full, fields + [Parsed(fs[0])], nested);
      Cut(fields, [Parsed(fs[0])], ParsedAll(fs[1..]));
    }
  }

  /** A block header names its block. */
  lemma {:induction false} HeaderNames(keyword: string, name: string)
    requires IsWord(keyword) && IsWord(name)
    ensures var l := keyword + " " + name + " {";
            Trim(l) == l && BlockName(l, keyword) == Ok(name) && keyword <= l && l != "" && l != "}" && !IsComment(l)
  {
    hide IsSpace, IsWordChar, Trim, StripAll, StripEnd;
    var l := keyword + " " + name + " {";
    WordIsPlain(keyword);
    WordIsPlain(name);
    assert l == keyword + (" " + (name + " {")) && l[0] == keyword[0];
    assert keyword[0] in keyword;
    HeaderSolid(l);
    TrimSolid(l);
    NotKeyword(keyword, name + " {");
    StripAllOnce(keyword, " " + (name + " {"));
    NameBrace(name);
  }

  lemma {:induction false} HeaderSolid(l: string)
    requires l != "" && !IsSpace(l[0]) && l[|l| - 1] == '{'
    ensures Solid(l)
  {
  }

  lemma {:induction false} NotKeyword(keyword: string, rest: string)
    requires Solid(keyword)
    ensures !(keyword <= " " + rest)
  {
  }

  lemma {:induction false} NameBrace(name: string)
    requires Solid(name) && '{' !in name
    ensures Trim(" " + (name + " {")) == name + " {" && StripEnd(name + " {", "{") == name + " " && Trim(name + " ") == name
  {
    hide Trim;
    assert Solid(name + " {");
    TrimOne(name + " {");
    assert name + " {" == name + " " + "{";
    assert (name + " ")[|name|] == ' ';
    StripEndOnce(name + " ", "{");
    TrimPadded("", name, " ");
    assert "" + name + " " == name + " ";
  }

  /** A printed message block reads back as the one message, and reading goes on after it. */
  lemma {:induction false} MessageRead(lines: seq<string>, i: nat, name: string, fs: seq<ProtoField>)
    requires IsWord(name) && GoodFields(fs) && NoneNested(fs) && At(lines, i, MessageLines(name, fs))
    ensures i + |MessageLines(name, fs)| <= |lines| && i < |lines|
    ensures MessageAt(lines, i, "")
         == Ok(([ParsedMessage(name, ParsedAll(fs))], i + |MessageLines(name, fs)|))
  {
    hide Trim, At, FieldsLines, BlockName, IsWordChar, ParsedAll, GoodFields, NoneNested;
    var header := "message " + name + " {";
    assert "message " + name + " {" == "message" + " " + name + " {";
    AtBound(lines, i, MessageLines(name, fs));
    AtSplit(lines, i, [header] + FieldsLines(fs), ["}"]);
    AtSplit(lines, i, [header], FieldsLines(fs));
    AtOne(lines, i, header);
    var j := i + 1 + |FieldsLines(fs)|;
    AtOne(lines, j, "}");
    MessageWord();
    HeaderNames("message", name);
    FieldsRead(lines, i + 1, fs, name, name, [], []);
    assert [] + ParsedAll(fs) == ParsedAll(fs);
    BraceTrimmed();
    assert [ParsedMessage(name, ParsedAll(fs))] + [] == [ParsedMessage(name, ParsedAll(fs))];
    assert MessageFrom(lines, j, name, name, ParsedAll(fs), []) == Ok(([ParsedMessage(name, ParsedAll(fs))], j + 1));
  }

  lemma {:induction false} MessageWord()
    ensures IsWord("message") && IsWord("service")
  {
  }

  lemma {:induction false} BraceTrimmed()
    ensures Trim("}") == "}" && Trim("") == ""
  {
    TrimSolid("}");
  }
}
