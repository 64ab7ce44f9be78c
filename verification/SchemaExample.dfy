/** A generated file, spelled out. */
module SchemaExample {
  // Source: typeway-grpc/src/proto_gen.rs, typeway-grpc/src/mapping.rs

  import opened Bytes
  import opened Text
  import opened Strings
  import opened SchemaPrint

  function Plain(name: string, protoType: string, tag: U32): (f: ProtoField) {
    ProtoField(name, protoType, tag, false, false, false, None, None, None)
  }

  const ID := Plain("id", "uint32", 1).(doc := Some("Key."))
  const TAGS := Plain("tags", "bytes", 2).(repeated := true)
  const NOTE := Plain("note", "bool", 12).(optional := true)
  const META := Plain("meta", "map", 4).(isMap := true, mapKey := Some("string"), mapValue := Some("bytes"))

  const USER := ProtoMessage("User", Block("User", [ID, TAGS, NOTE, META]))

  const RPCS := [
    Rpc("List", "GET", "/users", Some(USER), USER, true, false),
    Rpc("Add", "POST", "/users", Some(USER), USER, false, true)
  ]

  lemma {:induction false} Numbers()
    ensures Decimal(1) == "1" && Decimal(2) == "2" && Decimal(4) == "4" && Decimal(12) == "12"
  {
    assert Decimal(12) == Decimal(1) + [Digit(2)];
  }

  lemma {:induction false} PlainLines()
    ensures FieldLines(ID) == ["  // Key.", "  uint32 id = 1;"]
  {
    hide Decimal;
    Numbers();
    OneLineDoc();
    assert Declaration(ID) == "uint32 id = 1;";
    assert "  " + "uint32 id = 1;" == "  uint32 id = 1;";
    assert "  // " + "Key." == "  // Key.";
    assert CommentLines(["Key."]) == ["  // Key."] + CommentLines([]);
  }

  lemma {:induction false} OneLineDoc()
    ensures Lines("Key.") == ["Key."]
  {
    LinesLast("Key.");
  }

  lemma {:induction false} RepeatedLine()
    ensures FieldLines(TAGS) == ["  repeated bytes tags = 2;"]
  {
    hide Decimal;
    Numbers();
    assert "repeated " + "bytes" == "repeated bytes";
    assert "repeated bytes" + " " + "tags" == "repeated bytes tags";
    assert "repeated bytes tags" + " = " + "2" + ";" == "repeated bytes tags = 2;";
    assert Declaration(TAGS) == "repeated bytes tags = 2;";
    assert "  " + "repeated bytes tags = 2;" == "  repeated bytes tags = 2;";
  }

  lemma {:induction false} OptionalLine()
    ensures FieldLines(NOTE) == ["  optional bool note = 12;"]
  {
    hide Decimal;
    Numbers();
    assert "optional " + "bool" == "optional bool";
    assert "optional bool" + " " + "note" == "optional bool note";
    assert "optional bool note" + " = " == "optional bool note = ";
    assert "optional bool note = " + "12" + ";" == "optional bool note = 12;";
    assert Declaration(NOTE) == "optional bool note = 12;";
    assert "  " + "optional bool note = 12;" == "  optional bool note = 12;";
  }

  lemma {:induction false} MapLine()
    ensures FieldLines(META) == ["  map<string, bytes> meta = 4;"]
  {
    hide Decimal;
    Numbers();
    assert "map<" + "string" + ", " == "map<string, ";
    assert "map<string, " + "bytes" + "> " == "map<string, bytes> ";
    assert "map<string, bytes> " + "meta" == "map<string, bytes> meta";
    assert "map<string, bytes> meta" + " = " + "4" + ";" == "map<string, bytes> meta = 4;";
    assert Declaration(META) == "map<string, bytes> meta = 4;";
    assert "  " + "map<string, bytes> meta = 4;" == "  map<string, bytes> meta = 4;";
  }

  const USER_LINES := [
    "message User {",
    "  // Key.",
    "  uint32 id = 1;",
    "  repeated bytes tags = 2;",
    "  optional bool note = 12;",
    "  map<string, bytes> meta = 4;",
    "}"
  ]

  lemma {:induction false} MessagePrinted()
    ensures DefinitionLines(USER.definition) == USER_LINES
  {
    hide FieldLines;
    PlainLines();
    RepeatedLine();
    OptionalLine();
    MapLine();
    var fs := [ID, TAGS, NOTE, META];
    assert fs[1..] == [TAGS, NOTE, META] && [TAGS, NOTE, META][1..] == [NOTE, META] && [NOTE, META][1..] == [META] && [META][1..] == [];
    assert FieldsLines([META]) == FieldLines(META);
    assert FieldsLines([NOTE, META]) == FieldLines(NOTE) + FieldLines(META);
    assert FieldsLines([TAGS, NOTE, META]) == FieldLines(TAGS) + (FieldLines(NOTE) + FieldLines(META));
    assert "message " + "User" + " {" == "message User {";
  }

  lemma {:induction false} ListPrinted()
    ensures RpcLine(RPCS[0]) == "  rpc List(User) returns (stream User);"
  {
    var r := RPCS[0];
    assert InputType(r) == "User" && OutputType(r) == "stream User";
    assert "  rpc " + "List" + "(" + "User" == "  rpc List(User";
    assert "  rpc List(User" + ") returns (" == "  rpc List(User) returns (";
    assert "  rpc List(User) returns (" + "stream User" + ");" == "  rpc List(User) returns (stream User);";
  }

  lemma {:induction false} AddPrinted()
    ensures RpcLine(RPCS[1]) == "  rpc Add(stream User) returns (User);"
  {
    var r := RPCS[1];
    assert InputType(r) == "stream User" && OutputType(r) == "User";
    assert "  rpc " + "Add" + "(" == "  rpc Add(";
    assert "  rpc Add(" + "stream User" == "  rpc Add(stream User";
    assert "  rpc Add(stream User" + ") returns (" == "  rpc Add(stream User) returns (";
    assert "  rpc Add(stream User) returns (" + "User" + ");" == "  rpc Add(stream User) returns (User);";
  }

  lemma {:induction false} RpcsPrinted()
    ensures RpcLines(RPCS) == [
      "  // GET /users",
      "  rpc List(User) returns (stream User);",
      "  // POST /users",
      "  rpc Add(stream User) returns (User);"
    ]
  {
    hide RpcLine;
    ListPrinted();
    AddPrinted();
    var a, b := RPCS[0], RPCS[1];
    assert RpcComment(a) == "  // GET /users" && RpcComment(b) == "  // POST /users";
    assert RPCS[1..] == [b] && [b][1..] == [];
    assert RpcLines([b]) == [RpcComment(b), RpcLine(b)] + RpcLines([]);
  }

  lemma {:induction false} OneDefinition()
    ensures Distinct(RPCS) == [USER.definition]
  {
    hide DefinitionText, HasText;
    var d := USER.definition;
    var a, b := RPCS[0], RPCS[1];
    assert RPCS[1..] == [b] && [b][1..] == [];
    assert AllDefinitions([]) == [];
    assert RpcDefinitions(a) == [d, d] && RpcDefinitions(b) == [d, d];
    assert AllDefinitions([b]) == [d, d];
    assert AllDefinitions(RPCS) == [d, d, d, d];
    assert [d, d, d, d][1..] == [d, d, d] && [d, d, d][1..] == [d, d] && [d, d][1..] == [d] && [d][1..] == [];
    OneText(d);
    assert InsertAll([d], []) == [d];
    assert InsertAll([d], [d]) == [d];
    assert InsertAll([d], [d, d]) == [d];
    assert InsertAll([d], [d, d, d]) == [d];
    assert InsertAll([], [d, d, d, d]) == [d];
  }

  lemma {:induction false} OneText(d: Definition)
    ensures Insert([], d) == [d] && Insert([d], d) == [d]
  {
    hide DefinitionText;
    assert [] + [d] == [d] && [d][0] == d;
  }

  /** The file for two RPCs over one message. */
  lemma {:induction false} FilePrinted()
    ensures FileLines("UserService", "users.v1", RPCS) == [
      "syntax = \"proto3\";",
      "",
      "package users.v1;",
      "",
      "service UserService {",
      "  // GET /users",
      "  rpc List(User) returns (stream User);",
      "  // POST /users",
      "  rpc Add(stream User) returns (User);",
      "}",
      "",
      "message User {",
      "  // Key.",
      "  uint32 id = 1;",
      "  repeated bytes tags = 2;",
      "  optional bool note = 12;",
      "  map<string, bytes> meta = 4;",
      "}",
      ""
    ]
  {
    hide RpcLines, DefinitionLines, Distinct;
    MessagePrinted();
    RpcsPrinted();
    OneDefinition();
    assert "package " + "users.v1" + ";" == "package users.v1;";
    assert "service " + "UserService" + " {" == "service UserService {";
    assert [USER.definition][1..] == [];
    assert BlocksLines([USER.definition]) == USER_LINES + [""] + BlocksLines([]);
  }
}
