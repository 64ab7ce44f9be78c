/** The second, independent parser of message definitions (typeway-grpc/src/spec.rs). */
module SpecParser {
  import opened Bytes
  import opened Text
  import opened Strings
  import opened Schema

  datatype FieldSpec = FieldSpec(field: ParsedField, description: Option<string>)

  datatype MessageSpec = MessageSpec(name: string, fields: seq<FieldSpec>)

  /** `parse_map_field`: the caller has seen `map<` in front. */
  function ParseMapSpec(line: string): (f: Option<ParsedField>)
    requires "map<" <= line
  {
    OpenAngle(line);
    var close := FindChar(line, '>');
    if close == |line| then None else
    var inner := line[4..close];
    var comma := FindChar(inner, ',');
    if comma == |inner| then None else
    var key, value := Trim(inner[..comma]), Trim(inner[comma + 1..]);
    var parts := SplitSpaces(Trim(line[close + 1..]), 3);
    if |parts| < 3 then None
    else
      match ParseU32(Trim(parts[2]))
      case None => None
      case Some(tag) => Some(ParsedField(parts[0], "map", tag, false, false, true, Some(key), Some(value)))
  }

  /** The first angle bracket opens at position 3, and none closes before it. */
  lemma {:induction false} OpenAngle(line: string)
    requires "map<" <= line
    ensures FindChar(line, '<') == 3 && FindChar(line, '>') >= 4
  {
    FindCharAt("map", '<', line[4..]);
    assert "map" + ['<'] + line[4..] == line;
    assert forall i :: 0 <= i < 4 ==> line[i] != '>';
  }

  /** `type name = tag`, split at single spaces; the third part is not looked at. */
  function FieldOfParts(rest: string, repeated: bool, optional: bool): (f: Option<ParsedField>) {
    var parts := SplitSpaces(rest, 4);
    if |parts| < 4 then None
    else
      match ParseU32(Trim(parts[3]))
      case None => None
      case Some(tag) => Some(ParsedField(parts[1], parts[0], tag, repeated, optional, false, None, None))
  }

  /** `parse_field_spec`. */
  function ParseFieldSpec(text: string): (f: Option<ParsedField>) {
    var line := Trim(StripEnd(Trim(text), ";"));
    if line == "" then None
    else if "map<" <= line then ParseMapSpec(line)
    else if "repeated " <= line then FieldOfParts(Trim(StripAll(line, "repeated ")), true, false)
    else if "optional " <= line then FieldOfParts(Trim(StripAll(line, "optional ")), false, true)
    else FieldOfParts(line, false, false)
  }

  /** One turn of `parse_message_spec`. */
  datatype State = State(name: string, fields: seq<FieldSpec>, pending: Option<string>)

  function SpecLine(s: State, text: string): (t: State) {
    var line := Trim(text);
    if "message " <= line && EndsWith(line, "{") then
      s.(name := Trim(StripEnd(StripAll(line, "message "), " {")))
    else if "//" <= line then s.(pending := Some(Trim(StripAll(line, "//"))))
    else if line != "" && line != "}" then
      match ParseFieldSpec(line)
      case Some(f) => s.(fields := s.fields + [FieldSpec(f, s.pending)], pending := None)
      case None => s.(pending := None)
    else s
  }

  function SpecLines(s: State, lines: seq<string>): (t: State)
    decreases |lines|
  {
    if lines == [] then s else SpecLines(SpecLine(s, lines[0]), lines[1..])
  }

  function ParseSpec(definition: string): (m: MessageSpec) {
    var s := SpecLines(State("", [], None), Lines(definition));
    MessageSpec(s.name, s.fields)
  }

  /** `parse_message_spec`. */
  method ParseMessageSpec(definition: string) returns (m: MessageSpec)
    ensures m == ParseSpec(definition)
  {
    hide Trim, ParseFieldSpec, StripAll, StripEnd, Lines;
    var name, fields := "", [];
    var pending: Option<string> := None;
    var lines := Lines(definition);
    for i := 0 to |lines|
      invariant SpecLines(State("", [], None), lines) == SpecLines(State(name, fields, pending), lines[i..])
    {
      var line := Trim(lines[i]);
      ghost var s := SpecLine(State(name, fields, pending), lines[i]);
      assert lines[i..][1..] == lines[i + 1..] && lines[i..][0] == lines[i];
      if "message " <= line && EndsWith(line, "{") {
        name := Trim(StripEnd(StripAll(line, "message "), " {"));
      } else if "//" <= line {
        pending := Some(Trim(StripAll(line, "//")));
      } else if line != "" && line != "}" {
        var f := ParseFieldSpec(line);
        if f.Some? {
          fields := fields + [FieldSpec(f.value, pending)];
          pending := None;
        } else {
          pending := None;
        }
      }
      assert s == State(name, fields, pending);
    }
    m := MessageSpec(name, fields);
  }
}
