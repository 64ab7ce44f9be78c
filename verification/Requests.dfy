/** Request messages built from a path and a body type (typeway-grpc/src/proto_gen.rs). */
module Requests {
  import opened Bytes
  import opened Text
  import opened Paths
  import opened SchemaPrint

  // ---- captures of a pattern ----

  predicate IsBraced(part: string) { part != "" && part[0] == '{' && part[|part| - 1] == '}' }

  /** `captures_from_pattern` over the parts from the `n`-th capture on. */
  function CaptureFields(parts: seq<string>, n: nat): (fs: seq<ProtoField>) {
    if parts == [] then []
    else if !IsBraced(parts[0]) then CaptureFields(parts[1..], n)
    else
      [ProtoField(if parts[0] == HOLE then "param" + Decimal(n + 1) else parts[0][1..|parts[0]| - 1],
                  "string", WrapU32(n + 1), false, false, false, None, None, None)]
      + CaptureFields(parts[1..], n + 1)
  }

  function FromPattern(pattern: string): (fs: seq<ProtoField>) { CaptureFields(Split(pattern), 0) }

  /** Literals that the splitter and the capture test leave alone. */
  predicate PlainLiterals<V>(path: seq<Seg<V>>) {
    forall i :: 0 <= i < |path| && path[i].Lit? ==>
      path[i].value != "" && Plain(path[i].value) && !IsBraced(path[i].value)
  }

  lemma {:induction false} SlotsArePlain<V>(path: seq<Seg<V>>)
    requires PlainLiterals(path)
    ensures forall i :: 0 <= i < |path| ==> Plain(Slots(path)[i]) && Slots(path)[i] != ""
  {
    if path != [] { SlotsArePlain(path[1..]); }
  }

  /** `param1`, `param2`, … with tags 1, 2, … */
  predicate Numbered(fs: seq<ProtoField>, n: nat) {
    fs == [] || (IsParam(fs[0], n + 1) && Numbered(fs[1..], n + 1))
  }

  predicate IsParam(f: ProtoField, k: nat) {
    f.name == "param" + Decimal(k) && f.tag == WrapU32(k) && f.protoType == "string" && !f.repeated && !f.isMap
  }

  lemma {:induction false} CapturesOfSlots<V>(path: seq<Seg<V>>, n: nat)
    requires PlainLiterals(path)
    ensures |CaptureFields(Slots(path), n)| == Captures(path) && Numbered(CaptureFields(Slots(path), n), n)
  {
    hide Decimal, Plain;
    if path != [] {
      var m := if path[0].Lit? then n else n + 1;
      CapturesOfSlots(path[1..], m);
      assert Slots(path)[1..] == Slots(path[1..]);
      if path[0].Capture? {
        var fs := CaptureFields(Slots(path), n);
        assert fs[1..] == CaptureFields(Slots(path[1..]), m);
      }
    }
  }

  /** The request message has one numbered string field per capture of the path, in order. */
  lemma {:induction false} CapturesMatch<V>(path: seq<Seg<V>>)
    requires PlainLiterals(path)
    ensures |FromPattern(Pattern(path))| == Captures(path) && Numbered(FromPattern(Pattern(path)), 0)
  {
    hide Split, CaptureFields, Slashed, Numbered;
    PatternIsSlots(path);
    SlotsArePlain(path);
    SplitSlashed(Slots(path));
    NonEmptyAll(Slots(path));
    CapturesOfSlots(path, 0);
  }

  /** A part of a pattern as it is written. */
  datatype Part = Literal(text: string) | Unnamed | Named(name: string)

  function PartText(p: Part): (s: string) {
    match p case Literal(text) => text case Unnamed => "{}" case Named(name) => "{" + name + "}"
  }

  function PartTexts(ps: seq<Part>): (ss: seq<string>)
    ensures |ss| == |ps| && forall i :: 0 <= i < |ps| ==> ss[i] == PartText(ps[i])
  {
    if ps == [] then [] else [PartText(ps[0])] + PartTexts(ps[1..])
  }

  predicate GoodPart(p: Part) {
    match p
    case Literal(text) => text != "" && '/' !in text && !(text[0] == '{' && text[|text| - 1] == '}')
    case Unnamed => true
    case Named(name) => name != "" && '/' !in name
  }

  /** The captures from the `n`-th on: a name of their own or a number, and the number as tag. */
  function PartFields(ps: seq<Part>, n: nat): (fs: seq<ProtoField>) {
    if ps == [] then []
    else if ps[0].Literal? then PartFields(ps[1..], n)
    else
      [ProtoField(if ps[0].Named? then ps[0].name else "param" + Decimal(n + 1), "string",
                  (n + 1) % 0x1_0000_0000, false, false, false, None, None, None)] + PartFields(ps[1..], n + 1)
  }

  lemma {:induction false} PartRead(p: Part)
    requires GoodPart(p)
    ensures var s := PartText(p);
            && (IsBraced(s) <==> !p.Literal?) && (s == HOLE <==> p.Unnamed?)
            && s != "" && '/' !in s && (p.Named? ==> s[1..|s| - 1] == p.name)
  {
  }

  lemma {:induction false} PartsRead(ps: seq<Part>, n: nat)
    requires forall i :: 0 <= i < |ps| ==> GoodPart(ps[i])
    ensures CaptureFields(PartTexts(ps), n) == PartFields(ps, n)
  {
    hide Decimal, PartText, GoodPart, IsBraced;
    if ps != [] {
      PartRead(ps[0]);
      PartsRead(ps[1..], if ps[0].Literal? then n else n + 1);
      assert PartTexts(ps)[1..] == PartTexts(ps[1..]);
    }
  }

  /** Named and unnamed captures of a pattern become string fields, named so or numbered, in order; literals none. */
  lemma {:induction false} PatternFields(ps: seq<Part>)
    requires forall i :: 0 <= i < |ps| ==> GoodPart(ps[i])
    ensures FromPattern(Slashed(PartTexts(ps))) == PartFields(ps, 0)
  {
    hide Split, CaptureFields, Slashed, PartFields, PartText, GoodPart;
    forall i | 0 <= i < |ps| ensures Plain(PartTexts(ps)[i]) && PartTexts(ps)[i] != "" { PartRead(ps[i]); }
    SplitSlashed(PartTexts(ps));
    NonEmptyAll(PartTexts(ps));
    PartsRead(ps, 0);
  }

  // ---- body fields after the captures ----

  /** The body of an endpoint: none, a message whose fields are inlined, or a type wrapped in one field. */
  datatype RequestBody = NoBody | Inline(fields: seq<ProtoField>) | Wrapped(typeName: string, repeated: bool)

  function Retag(fs: seq<ProtoField>, offset: nat): (r: seq<ProtoField>)
    ensures |r| == |fs|
  {
    if fs == [] then [] else [fs[0].(tag := WrapU32(fs[0].tag + offset))] + Retag(fs[1..], offset)
  }

  function BodyField(n: nat, typeName: string, repeated: bool): (f: ProtoField) {
    ProtoField("body", typeName, WrapU32(n + 1), repeated, false, false, None, None, None)
  }

  function RequestFields(captures: seq<ProtoField>, body: RequestBody): (fs: seq<ProtoField>) {
    match body
    case NoBody => captures
    case Inline(fields) => captures + Retag(fields, |captures|)
    case Wrapped(t, repeated) => captures + [BodyField(|captures|, t, repeated)]
  }

  /** The flattening loop: each body field is re-tagged past the captures and pushed. */
  method Flatten(captures: seq<ProtoField>, body: RequestBody) returns (fields: seq<ProtoField>)
    ensures fields == RequestFields(captures, body)
  {
    fields := captures;
    if body.Inline? {
      var offset, inner := |captures|, body.fields;
      for i := 0 to |inner|
        invariant fields + Retag(inner[i..], offset) == captures + Retag(inner, offset)
      {
        var field := inner[i].(tag := WrapU32(inner[i].tag + offset));
        assert inner[i..][1..] == inner[i + 1..];
        Cut(fields, [field], Retag(inner[i + 1..], offset));
        fields := fields + [field];
      }
      assert inner[|inner|..] == [] && fields + [] == fields;
    } else if body.Wrapped? {
      fields := fields + [BodyField(|captures|, body.typeName, body.repeated)];
    }
  }

  lemma {:induction false} RetagKeeps(fs: seq<ProtoField>, n: nat, k: nat)
    requires k < |fs|
    ensures Retag(fs, n)[k].(tag := fs[k].tag) == fs[k] && Retag(fs, n)[k].tag == (fs[k].tag + n) % 0x1_0000_0000
  {
    if k > 0 { RetagKeeps(fs[1..], n, k - 1); }
  }

  /** The captures as they are, then the fields of the body with nothing but their tags moved, or one for the whole body. */
  lemma {:induction false} RequestExact(captures: seq<ProtoField>, body: RequestBody, k: nat)
    ensures captures <= RequestFields(captures, body)
    ensures var own := RequestFields(captures, body)[|captures|..];
            match body
            case NoBody => own == []
            case Inline(fields) =>
              && |own| == |fields|
              && (k < |fields| ==> own[k].(tag := fields[k].tag) == fields[k]
                                   && own[k].tag == (fields[k].tag + |captures|) % 0x1_0000_0000)
            case Wrapped(typeName, repeated) =>
              && |own| == 1 && own[0].name == "body" && own[0].protoType == typeName && own[0].repeated == repeated
              && own[0].tag == (|captures| + 1) % 0x1_0000_0000 && !own[0].optional && !own[0].isMap && own[0].doc == None
  {
    hide Retag;
    if body.Inline? && k < |body.fields| { RetagKeeps(body.fields, |captures|, k); }
  }

  function Tags(fs: seq<ProtoField>): (ts: seq<int>)
    ensures |ts| == |fs|
  {
    if fs == [] then [] else [fs[0].tag as int] + Tags(fs[1..])
  }

  predicate Distinct(ts: seq<int>) { forall i, j :: 0 <= i < j < |ts| ==> ts[i] != ts[j] }

  /** Tags of a body that can be moved past `n` captures without wrapping. */
  predicate TagsFit(fs: seq<ProtoField>, n: nat) {
    forall i :: 0 <= i < |fs| ==> 1 <= fs[i].tag < 0x1_0000_0000 - n
  }

  function Shift(ts: seq<int>, n: nat): (r: seq<int>)
    ensures |r| == |ts| && forall i :: 0 <= i < |ts| ==> r[i] == ts[i] + n
  {
    seq(|ts|, i requires 0 <= i < |ts| => ts[i] + n)
  }

  lemma {:induction false} NumberedTags(fs: seq<ProtoField>, n: nat)
    requires Numbered(fs, n) && n + |fs| < 0x1_0000_0000
    ensures forall i :: 0 <= i < |fs| ==> Tags(fs)[i] == n + i + 1
  {
    hide Decimal;
    if fs != [] { NumberedTags(fs[1..], n + 1); }
  }

  lemma {:induction false} RetaggedTags(fs: seq<ProtoField>, n: nat)
    requires TagsFit(fs, n)
    ensures Tags(Retag(fs, n)) == Shift(Tags(fs), n) && forall i :: 0 <= i < |fs| ==> Tags(fs)[i] >= 1
  {
    if fs != [] {
      var one, rest := fs[0].(tag := WrapU32(fs[0].tag + n)), Retag(fs[1..], n);
      RetaggedTags(fs[1..], n);
      assert 1 <= fs[0].tag < 0x1_0000_0000 - n;
      TagsCons(one, rest);
      ShiftCons(fs[0].tag, Tags(fs[1..]), n);
    }
  }

  lemma {:induction false} TagsCons(f: ProtoField, fs: seq<ProtoField>)
    ensures Tags([f] + fs) == [f.tag as int] + Tags(fs)
  {
    assert ([f] + fs)[1..] == fs;
  }

  lemma {:induction false} ShiftCons(t: int, ts: seq<int>, n: nat)
    ensures Shift([t] + ts, n) == [t + n] + Shift(ts, n)
  {
  }

  lemma {:induction false} TagsConcat(a: seq<ProtoField>, b: seq<ProtoField>)
    ensures Tags(a + b) == Tags(a) + Tags(b)
  {
    if a == [] {
      assert a + b == b;
    } else {
      assert (a + b)[1..] == a[1..] + b;
      TagsConcat(a[1..], b);
    }
  }

  /** 1, …, n followed by tags moved past n. */
  lemma {:induction false} ShiftDistinct(a: seq<int>, b: seq<int>)
    requires forall i :: 0 <= i < |a| ==> a[i] == i + 1
    requires forall i :: 0 <= i < |b| ==> b[i] >= 1
    ensures Distinct(a + Shift(b, |a|)) <==> Distinct(b)
  {
    var s, n := a + Shift(b, |a|), |a|;
    if Distinct(s) {
      forall i, j | 0 <= i < j < |b| ensures b[i] != b[j] { assert s[n + i] != s[n + j]; }
    }
  }

  /**
    Re-tagging never makes a body field collide with a capture: the request's tags differ if and
    only if the body's do.
  */
  lemma {:induction false} FlattenedTags(captures: seq<ProtoField>, body: RequestBody)
    requires Numbered(captures, 0) && |captures| < 0xFFFF_FFFF
    requires body.Inline? ==> TagsFit(body.fields, |captures|)
    ensures Distinct(Tags(RequestFields(captures, body))) <==> (body.Inline? ==> Distinct(Tags(body.fields)))
  {
    hide Distinct, Numbered, Retag, TagsFit;
    var n := |captures|;
    NumberedTags(captures, 0);
    match body {
      case NoBody =>
        ShiftDistinct(Tags(captures), []);
        assert Tags(captures) + Shift([], n) == Tags(captures);
        FewDistinct([]);
      case Inline(fields) =>
        TagsConcat(captures, Retag(fields, n));
        RetaggedTags(fields, n);
        ShiftDistinct(Tags(captures), Tags(fields));
      case Wrapped(t, repeated) =>
        var f := BodyField(n, t, repeated);
        TagsConcat(captures, [f]);
        assert [f][1..] == [] && Tags([f]) == [n + 1] == Shift([1], n);
        ShiftDistinct(Tags(captures), [1]);
        FewDistinct([1]);
    }
  }

  lemma {:induction false} FewDistinct(ts: seq<int>)
    requires |ts| <= 1
    ensures Distinct(ts)
  {
  }
}
