/** The second parser on whole printed messages. */
module SpecAgreement {
  import opened Bytes
  import opened Text
  import opened Strings
  import opened Schema
  import opened SchemaPrint
  import opened SpecParser
  import opened SchemaRoundTrip

  /** What a comment line leaves as the description of the next field. */
  function CommentDoc(text: string): (d: string) { Trim(StripAll(Trim("  // " + text), "//")) }

  /** A comment line is kept as it is if and only if it has no white space around it. */
  lemma {:induction false} CommentDocKeeps(text: string)
    ensures CommentDoc(text) == text <==> text == "" || Solid(text)
  {
    hide StripAll, IsSpace;
    var rest := TrimEnd(" " + text);
    TrimComment(text);
    assert rest <= " " + text;
    assert rest != "" ==> rest[0] == ' ';
    StripAllOnce("//", rest);
    TrimmedIsSolid(rest);
    if Solid(text) {
      SolidEnd(text);
      TrimOne(text);
    }
    if text == "" { OneSpace(); }
  }

  lemma {:induction false} TrimmedIsSolid(s: string)
    ensures Trim(s) == "" || Solid(Trim(s))
  {
  }

  lemma {:induction false} SolidEnd(s: string)
    requires Solid(s)
    ensures TrimEnd(" " + s) == " " + s
  {
  }

  lemma {:induction false} OneSpace()
    ensures " " + "" == " " && TrimEnd(" ") == "" && Trim("") == ""
  {
    assert TrimEnd(" "[..0]) == "";
  }

  /** The last line of the field's comment. */
  function Description(f: ProtoField): (d: Option<string>) {
    if f.doc.Some? && f.doc.value != "" then LastDoc(Lines(f.doc.value), None) else None
  }

  function LastDoc(doc: seq<string>, before: Option<string>): (d: Option<string>) {
    if doc == [] then before else LastDoc(doc[1..], Some(CommentDoc(doc[0])))
  }

  lemma {:induction false} LastDocIs(doc: seq<string>, before: Option<string>)
    requires doc != []
    ensures LastDoc(doc, before) == Some(CommentDoc(doc[|doc| - 1]))
  {
    hide CommentDoc;
    if |doc| > 1 { LastDocIs(doc[1..], Some(CommentDoc(doc[0]))); }
  }

  /** The description is the comment's last line, exactly when that line has no white space around it. */
  lemma {:induction false} DescriptionIff(f: ProtoField)
    requires f.doc.Some? && Lines(f.doc.value) != []
    ensures var doc := Lines(f.doc.value);
            var last := doc[|doc| - 1];
            Description(f) == Some(last) <==> last == "" || Solid(last)
  {
    hide CommentDoc, Solid;
    var doc := Lines(f.doc.value);
    LastDocIs(doc, None);
    CommentDocKeeps(doc[|doc| - 1]);
  }

  function SpecFields(fs: seq<ProtoField>): (ps: seq<FieldSpec>) {
    if fs == [] then [] else [FieldSpec(SpecParsed(fs[0]), Description(fs[0]))] + SpecFields(fs[1..])
  }

  lemma {:induction false} SpecConcat(s: State, a: seq<string>, b: seq<string>)
    ensures SpecLines(s, a + b) == SpecLines(SpecLines(s, a), b)
    decreases |a|
  {
    hide SpecLine;
    if a == [] {
      assert a + b == b;
    } else {
      assert (a + b)[1..] == a[1..] + b;
      SpecConcat(SpecLine(s, a[0]), a[1..], b);
    }
  }

  lemma {:induction false} SpecComments(s: State, doc: seq<string>)
    ensures SpecLines(s, CommentLines(doc)) == s.(pending := LastDoc(doc, s.pending))
    decreases |doc|
  {
    hide SpecLine, CommentDoc;
    if doc != [] {
      SpecComment(s, doc[0]);
      SpecComments(s.(pending := Some(CommentDoc(doc[0]))), doc[1..]);
      assert CommentLines(doc)[1..] == CommentLines(doc[1..]);
    }
  }

  lemma {:induction false} SpecComment(s: State, text: string)
    ensures SpecLine(s, "  // " + text) == s.(pending := Some(CommentDoc(text)))
  {
    hide Trim, ParseFieldSpec;
    CommentTrimmed(text);
    TrimComment(text);
    assert Trim("  // " + text)[0] == '/';
  }

  lemma {:induction false} SpecField(s: State, f: ProtoField)
    requires GoodField(f) && s.pending == None
    ensures SpecLines(s, FieldLines(f)) == s.(fields := s.fields + [FieldSpec(SpecParsed(f), Description(f))])
  {
    hide SpecLine, Declaration, SpecParsed, LastDoc, GoodField;
    SpecConcat(s, DocLines(f), ["  " + Declaration(f)]);
    var mid := s.(pending := Description(f));
    if f.doc.Some? && f.doc.value != "" { SpecComments(s, Lines(f.doc.value)); }
    assert SpecLines(s, DocLines(f)) == mid;
    SpecDeclaration(mid, f);
  }

  lemma {:induction false} SpecDeclaration(s: State, f: ProtoField)
    requires GoodField(f)
    ensures SpecLine(s, "  " + Declaration(f))
         == s.(fields := s.fields + [FieldSpec(SpecParsed(f), s.pending)], pending := None)
  {
    hide Trim, ParseFieldSpec, Declaration, SpecParsed, Core, StripAll, StripEnd, IsSpace;
    DeclarationRead(f);
    FieldsAgree(f);
    DeclarationIsCore(f);
  }

  lemma {:induction false} SpecFieldsRead(s: State, fs: seq<ProtoField>)
    requires GoodFields(fs) && s.pending == None
    ensures SpecLines(s, FieldsLines(fs)) == s.(fields := s.fields + SpecFields(fs))
    decreases |fs|
  {
    hide FieldLines, GoodField, SpecParsed, Description, SpecLine;
    if fs == [] {
      assert s.fields + [] == s.fields;
    } else {
      var one := FieldSpec(SpecParsed(fs[0]), Description(fs[0]));
      SpecConcat(s, FieldLines(fs[0]), FieldsLines(fs[1..]));
      SpecField(s, fs[0]);
      SpecFieldsRead(s.(fields := s.fields + [one]), fs[1..]);
      Cut(s.fields, [one], SpecFields(fs[1..]));
    }
  }

  /** The name the header line gives: the message's own, unless that is the keyword itself. */
  lemma {:induction false} SpecHeader(s: State, name: string)
    requires IsWord(name)
    ensures SpecLine(s, "message " + name + " {") == s.(name := if name == "message" then "{" else name)
  {
    hide Trim, IsSpace, IsWordChar, StripAll, StripEnd, ParseFieldSpec;
    var l := "message " + name + " {";
    MessageWord();
    HeaderNames("message", name);
    assert l == "message" + " " + name + " {" && l == "message " + (name + " {") && EndsWith(l, "{");
    WordIsPlain(name);
    TrimSolid(name);
    if name == "message" {
      assert "message " + "message" + " {" == "message message {";
      KeywordTwice();
    } else {
      OtherWord(name, "{", "message");
      assert name + " " + "{" == name + " {" && "message" + " " == "message ";
      StripAllOnce("message ", name + " {");
      NotBrace(name);
      StripEndOnce(name, " {");
    }
  }

  lemma {:induction false} NotBrace(name: string)
    requires '{' !in name
    ensures !EndsWith(name, " {")
  {
    if |name| >= 2 { assert name[|name| - 1] in name && name[|name| - 2..][1] == name[|name| - 1]; }
  }

  lemma {:induction false} KeywordTwice()
    ensures Trim(StripEnd(StripAll("message message {", "message "), " {")) == "{"
  {
    var l := "message message {";
    assert l == "message " + ("message " + "{") && l[8..] == "message " + "{" && ("message " + "{")[8..] == "{";
    assert StripAll("{", "message ") == "{";
    assert StripAll("message " + "{", "message ") == "{";
    assert StripAll(l, "message ") == "{";
    assert StripEnd("{", " {") == "{";
    TrimSolid("{");
  }

  lemma {:induction false} SpecClose(s: State)
    ensures SpecLine(s, "}") == s
  {
    hide Trim;
    BraceTrimmed();
    assert "}"[0] == '}';
  }

  /**
    `parse_message_spec` on a printed message gives every field, with the last comment line above it
    as its description, and gives the name back if and only if it is not the word "message".
  */
  lemma {:induction false} SpecReads(name: string, fs: seq<ProtoField>)
    requires IsWord(name) && GoodFields(fs)
    requires forall i :: 0 <= i < |MessageLines(name, fs)| ==> OneLine(MessageLines(name, fs)[i])
    ensures ParseSpec(Join(MessageLines(name, fs))).fields == SpecFields(fs)
    ensures ParseSpec(Join(MessageLines(name, fs))).name == name <==> name != "message"
  {
    hide SpecLine, FieldsLines, Join, Lines, SpecFields, GoodFields, IsWordChar, OneLine;
    var lines, start := MessageLines(name, fs), State("", [], None);
    var header := "message " + name + " {";
    LinesJoin(lines);
    assert lines[|lines| - 1] == "}";
    SpecConcat(start, [header] + FieldsLines(fs), ["}"]);
    SpecConcat(start, [header], FieldsLines(fs));
    SpecHeader(start, name);
    var named := SpecLine(start, header);
    SpecFieldsRead(named, fs);
    var full := named.(fields := named.fields + SpecFields(fs));
    SpecClose(full);
    assert [] + SpecFields(fs) == SpecFields(fs);
    assert "{" != "message";
  }
}
