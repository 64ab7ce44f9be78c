/** Enum blocks and imports read back. */
module EnumFiles {
  // Source: typeway-macros/src/lib.rs, typeway-grpc/src/proto_parse.rs

  import opened Bytes
  import opened Text
  import opened Strings
  import opened Schema
  import opened ProtoParser
  import opened SchemaRoundTrip

  // ---- enum blocks ----

  function VariantText(v: EnumVariant): (s: string) { v.name + " = " + Decimal(v.tag) + ";" }

  function VariantLines(vs: seq<EnumVariant>): (ls: seq<string>) {
    if vs == [] then [] else ["  " + VariantText(vs[0])] + VariantLines(vs[1..])
  }

  /** The definition that deriving a fieldless enum prints. */
  function EnumLines(name: string, vs: seq<EnumVariant>): (ls: seq<string>) {
    ["enum " + name + " {"] + VariantLines(vs) + ["}"]
  }

  /** Words for names, not beginning like the two kinds of line the parser passes over. */
  predicate GoodVariants(vs: seq<EnumVariant>) {
    forall i :: 0 <= i < |vs| ==> IsWord(vs[i].name) && !("option" <= vs[i].name) && !("reserved" <= vs[i].name)
  }

  lemma {:induction false} VariantSolid(v: EnumVariant)
    requires IsWord(v.name)
    ensures var t := Decimal(v.tag);
            && VariantText(v) == v.name + " " + ("= " + t) + ";" && Solid(v.name + " " + ("= " + t))
            && '/' !in VariantText(v) && !EndsWith(v.name + " " + ("= " + t), ";")
  {
    var t := Decimal(v.tag);
    WordIsPlain(v.name);
    DecimalIsWord(v.tag);
    WordIsPlain(t);
    var s := v.name + " " + ("= " + t);
    assert s[|s| - 1] == t[|t| - 1];
  }

  lemma {:induction false} VariantParses(v: EnumVariant)
    requires IsWord(v.name)
    ensures ParseEnumVariant(VariantText(v)) == Some(v)
    ensures Trim("  " + VariantText(v)) == VariantText(v)
  {
    hide Decimal, Trim, StripEnd, BeforeComment, FindChar, ParseU32, IsSpace, IsWordChar;
    var t := Decimal(v.tag);
    var s := v.name + " " + ("= " + t);
    VariantSolid(v);
    NoComment(VariantText(v));
    SemicolonSolid(s);
    TrimSolid(VariantText(v));
    TrimIndented(VariantText(v));
    StripEndOnce(s, ";");
    TrimSolid(s);
    VariantParts(v);
    DecimalInverts(v.tag);
  }

  lemma {:induction false} VariantParts(v: EnumVariant)
    requires IsWord(v.name)
    ensures var t := Decimal(v.tag);
            var s := v.name + " " + ("= " + t);
            && FindChar(s, '=') == |v.name| + 1 < |s| && '=' !in s[|v.name| + 2..]
            && Trim(s[|v.name| + 2..]) == t && Trim(s[..|v.name| + 1]) == v.name
  {
    hide Decimal, Trim, FindChar, IsSpace, IsWordChar;
    var t := Decimal(v.tag);
    var s := v.name + " " + ("= " + t);
    WordIsPlain(v.name);
    DecimalIsWord(v.tag);
    WordIsPlain(t);
    assert s == (v.name + " ") + ['='] + (" " + t) && '=' !in v.name + " ";
    FindCharAt(v.name + " ", '=', " " + t);
    assert s[|v.name| + 2..] == " " + t && s[..|v.name| + 1] == v.name + " ";
    TrimOne(t);
    OneSpace();
    TrimPadded("", v.name, " ");
    assert "" + v.name + " " == v.name + " ";
  }

  lemma {:induction false} OneSpace()
    ensures AllSpace(" ") && AllSpace("")
  {
  }

  /** A printed variant is neither blank, nor a comment, nor one of the lines passed over. */
  lemma {:induction false} VariantLine(v: EnumVariant)
    requires IsWord(v.name) && !("option" <= v.name) && !("reserved" <= v.name)
    ensures var l := VariantText(v);
            l != "" && l != "}" && !IsComment(l) && !("option" <= l) && !("reserved" <= l)
  {
    hide Decimal, IsSpace, IsWordChar;
    VariantSolid(v);
    WordIsPlain(v.name);
    var l, rest := VariantText(v), " " + ("= " + Decimal(v.tag) + ";");
    assert l == v.name + rest;
    WordPrefix(v.name, rest, "option");
    WordPrefix(v.name, rest, "reserved");
    assert l[0] == v.name[0] && l[0] in v.name;
    SlashFirst(l);
  }

  lemma {:induction false} SlashFirst(l: string)
    requires l != "" && l[0] != '/'
    ensures !IsComment(l)
  {
  }

  lemma {:induction false} VariantsRead(lines: seq<string>, i: nat, vs: seq<EnumVariant>, name: string, before: seq<EnumVariant>)
    requires GoodVariants(vs) && At(lines, i, VariantLines(vs))
    ensures i + |VariantLines(vs)| <= |lines|
    ensures EnumFrom(lines, i, name, before) == EnumFrom(lines, i + |VariantLines(vs)|, name, before + vs)
    decreases |vs|
  {
    hide Trim, At, ParseEnumVariant, IsWordChar, VariantText, IsComment;
    AtBound(lines, i, VariantLines(vs));
    if vs == [] {
      assert before + [] == before;
    } else {
      AtSplit(lines, i, ["  " + VariantText(vs[0])], VariantLines(vs[1..]));
      AtOne(lines, i, "  " + VariantText(vs[0]));
      VariantParses(vs[0]);
      VariantLine(vs[0]);
      VariantsRead(lines, i + 1, vs[1..], name, before + [vs[0]]);
      assert before + [vs[0]] + vs[1..] == before + vs;
    }
  }

  /** A printed enum reads back with its name and every variant, wherever it stands in a file. */
  lemma {:induction false} EnumRead(lines: seq<string>, i: nat, name: string, vs: seq<EnumVariant>)
    requires IsWord(name) && GoodVariants(vs) && At(lines, i, EnumLines(name, vs))
    ensures i < |lines| && i + |EnumLines(name, vs)| <= |lines|
    ensures EnumAt(lines, i) == Ok((ParsedEnum(name, vs), i + |EnumLines(name, vs)|))
  {
    hide Trim, At, BlockName, IsWordChar, VariantLines, GoodVariants;
    var header := "enum " + name + " {";
    assert header == "enum" + " " + name + " {";
    AtBound(lines, i, EnumLines(name, vs));
    AtSplit(lines, i, [header] + VariantLines(vs), ["}"]);
    AtSplit(lines, i, [header], VariantLines(vs));
    AtOne(lines, i, header);
    var j := i + 1 + |VariantLines(vs)|;
    AtOne(lines, j, "}");
    EnumWord();
    HeaderNames("enum", name);
    VariantsRead(lines, i + 1, vs, name, []);
    assert [] + vs == vs;
    BraceTrimmed();
  }

  lemma {:induction false} EnumWord()
    ensures IsWord("enum") && Solid("enum")
  {
  }

  // ---- imports ----

  lemma {:induction false} QuotedPath(path: string)
    requires path != "" && '\"' !in path
    ensures Solid("\"" + path + "\"" + ";") && Solid("\"" + path + "\"") && !EndsWith("\"" + path + "\"", ";")
    ensures TrimQuotes("\"" + path + "\"") == path
  {
    hide StripAll, StripEnd;
    var q := "\"" + path + "\"";
    assert q == "\"" + (path + "\"");
    assert (path + "\"")[0] == path[0] && path[0] in path;
    StripAllOnce("\"", path + "\"");
    assert path[|path| - 1] in path;
    assert !EndsWith(path, "\"");
    StripEndOnce(path, "\"");
  }

  lemma {:induction false} AfterKeyword(path: string)
    requires path != "" && '\"' !in path
    ensures Trim(StripEnd("\"" + path + "\"" + ";", ";")) == "\"" + path + "\""
  {
    hide Trim, StripEnd, TrimQuotes;
    QuotedPath(path);
    StripEndOnce("\"" + path + "\"", ";");
    TrimSolid("\"" + path + "\"");
  }

  /** `import "path";` gives the path, and so do `import public` and `import weak`. */
  lemma {:induction false} ImportRead(path: string)
    requires path != "" && '\"' !in path
    ensures ParseImport("import \"" + path + "\";") == Ok(path)
    ensures ParseImport("import public \"" + path + "\";") == Ok(path)
    ensures ParseImport("import weak \"" + path + "\";") == Ok(path)
  {
    hide Trim, StripAll, StripEnd, TrimQuotes;
    var rest := "\"" + path + "\"" + ";";
    QuotedPath(path);
    AfterKeyword(path);
    assert rest[0] == '\"';
    NoKeyword(rest);
    TrimOne(rest);
    TrimSolid(rest);
    assert "import \"" + path + "\";" == "import" + (" " + rest);
    StripAllOnce("import", " " + rest);
    KeywordImport("public", rest);
    KeywordImport("weak", rest);
    assert "import public \"" + path + "\";" == "import" + (" " + ("public" + (" " + rest)));
    assert "import weak \"" + path + "\";" == "import" + (" " + ("weak" + (" " + rest)));
  }

  lemma {:induction false} NoKeyword(rest: string)
    requires rest != "" && rest[0] == '\"'
    ensures StripAll(rest, "public") == rest && StripAll(rest, "weak") == rest
    ensures StripAll(" " + rest, "weak") == " " + rest && !("import" <= " " + rest)
  {
  }

  lemma {:induction false} KeywordImport(keyword: string, rest: string)
    requires keyword == "public" || keyword == "weak"
    requires Solid(rest) && rest[0] == '\"'
    ensures var line := "import" + (" " + (keyword + (" " + rest)));
            Trim(StripAll(StripAll(Trim(StripAll(line, "import")), "public"), "weak")) == rest
  {
    hide Trim;
    var tail := keyword + (" " + rest);
    assert Solid(tail) by { assert tail[|tail| - 1] == rest[|rest| - 1]; }
    assert (" " + tail)[0] == ' ';
    StripAllOnce("import", " " + tail);
    TrimOne(tail);
    StripAllOnce(keyword, " " + rest);
    NoKeyword(rest);
    TrimOne(rest);
    if keyword == "weak" { assert StripAll(tail, "public") == tail; }
  }
}
