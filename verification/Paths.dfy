/** Client paths against server paths. */
module Paths {
  // Source: typeway-core/src/path.rs, typeway-client/src/call.rs, typeway-server/src/extract.rs

  import opened Bytes

  /** One element of a path: a literal, or a capture with its `FromStr` and `Display`. */
  datatype Seg<!V> = Lit(value: string) | Capture(parse: string -> Option<V>, show: V -> string)

  /** `ExtractPath::extract`. */
  function Extract<V>(path: seq<Seg<V>>, parts: seq<string>): (r: Option<seq<V>>) {
    if path == [] then if parts == [] then Some([]) else None
    else if parts == [] then None
    else
      match path[0]
      case Lit(value) => if parts[0] == value then Extract(path[1..], parts[1..]) else None
      case Capture(parse, _) =>
        match parse(parts[0])
        case None => None
        case Some(v) =>
          match Extract(path[1..], parts[1..])
          case None => None
          case Some(vs) => Some([v] + vs)
  }

  const HOLE := "{}"

  /** `ExtractPath::pattern`. */
  function Pattern<V>(path: seq<Seg<V>>): (p: string) {
    if path == [] then "" else "/" + (if path[0].Lit? then path[0].value else HOLE) + Pattern(path[1..])
  }

  /** `replacen("{}", text, 1)`. */
  function ReplaceFirst(s: string, text: string): (r: string) {
    if HOLE <= s then text + s[2..] else if s == "" then "" else [s[0]] + ReplaceFirst(s[1..], text)
  }

  function FillAll(pattern: string, texts: seq<string>): (r: string)
    decreases |texts|
  {
    if texts == [] then pattern else FillAll(ReplaceFirst(pattern, texts[0]), texts[1..])
  }

  /** `build_path`: the result is rewritten once per capture. */
  method BuildPath(pattern: string, texts: seq<string>) returns (result: string)
    ensures result == FillAll(pattern, texts)
  {
    result := pattern;
    for i := 0 to |texts|
      invariant FillAll(pattern, texts) == FillAll(result, texts[i..])
    {
      assert texts[i..][1..] == texts[i + 1..];
      result := ReplaceFirst(result, texts[i]);
    }
    assert texts[|texts|..] == [];
  }

  /** `split('/')` without the empty parts, reading on from `part`. */
  function SplitFrom(s: string, part: string): (parts: seq<string>) {
    if s == "" then if part == "" then [] else [part]
    else if s[0] == '/' then (if part == "" then [] else [part]) + SplitFrom(s[1..], "")
    else SplitFrom(s[1..], part + [s[0]])
  }

  function Split(s: string): (parts: seq<string>) { SplitFrom(s, "") }

  // ---- building, segment by segment ----

  /** How many captures the path has. */
  function Captures<V>(path: seq<Seg<V>>): (n: nat) {
    if path == [] then 0 else (if path[0].Capture? then 1 else 0) + Captures(path[1..])
  }

  /** The text of each segment, captures filled in left to right. */
  function Texts<V>(path: seq<Seg<V>>, vals: seq<V>): (ts: seq<string>)
    requires |vals| == Captures(path)
    ensures |ts| == |path|
  {
    if path == [] then []
    else if path[0].Lit? then [path[0].value] + Texts(path[1..], vals)
    else [path[0].show(vals[0])] + Texts(path[1..], vals[1..])
  }

  function Shown<V>(path: seq<Seg<V>>, vals: seq<V>): (ts: seq<string>)
    requires |vals| == Captures(path)
  {
    if path == [] then []
    else if path[0].Lit? then Shown(path[1..], vals)
    else [path[0].show(vals[0])] + Shown(path[1..], vals[1..])
  }

  /** The URL the client requests. */
  function Build<V>(path: seq<Seg<V>>, vals: seq<V>): (url: string)
    requires |vals| == Captures(path)
  {
    FillAll(Pattern(path), Shown(path, vals))
  }

  /** Segments each after a slash. */
  function Slashed(ts: seq<string>): (s: string) { if ts == [] then "" else "/" + ts[0] + Slashed(ts[1..]) }

  predicate HasHole(s: string) { s != "" && (HOLE <= s || HasHole(s[1..])) }

  predicate HoleFree(ts: seq<string>) { forall i :: 0 <= i < |ts| ==> !HasHole(ts[i]) }

  /** A placeholder does not reach across a slash. */
  lemma {:induction false} HoleInFront(p: string, rest: string)
    requires p != "" && (rest == "" || rest[0] == '/')
    ensures HOLE <= p + rest <==> HOLE <= p
  {
    var s := p + rest;
    assert forall i :: 0 <= i < |p| ==> s[i] == p[i];
    if |p| == 1 && rest != "" { assert s[1] == '/'; }
  }

  /** The first placeholder of a text is in its first segment, or else in what follows. */
  lemma {:induction false} ReplaceBySegment(p: string, rest: string, text: string)
    requires rest == "" || rest[0] == '/'
    ensures ReplaceFirst(p + rest, text)
         == if HasHole(p) then ReplaceFirst(p, text) + rest else p + ReplaceFirst(rest, text)
  {
    if p == "" {
      assert p + rest == rest && "" + ReplaceFirst(rest, text) == ReplaceFirst(rest, text);
    } else {
      assert (p + rest)[1..] == p[1..] + rest;
      HoleInFront(p, rest);
      if HOLE <= p {
        assert text + (p + rest)[2..] == text + p[2..] + rest;
      } else {
        ReplaceBySegment(p[1..], rest, text);
        if HasHole(p) { Cut([p[0]], ReplaceFirst(p[1..], text), rest); }
        else { Cut([p[0]], p[1..], ReplaceFirst(rest, text)); assert [p[0]] + p[1..] == p; }
      }
    }
  }

  // ---- filling, segment by segment ----

  /** The segments of the pattern: literals and placeholders. */
  function Slots<V>(path: seq<Seg<V>>): (ts: seq<string>)
    ensures |ts| == |path|
  {
    if path == [] then [] else [if path[0].Lit? then path[0].value else HOLE] + Slots(path[1..])
  }

  lemma {:induction false} PatternIsSlots<V>(path: seq<Seg<V>>)
    ensures Pattern(path) == Slashed(Slots(path))
  {
    if path != [] { PatternIsSlots(path[1..]); }
  }

  function FirstHole(segs: seq<string>): (k: nat)
    ensures k <= |segs| && HoleFree(segs[..k]) && (k < |segs| ==> HasHole(segs[k]))
  {
    if segs == [] || HasHole(segs[0]) then 0
    else
      var k := 1 + FirstHole(segs[1..]);
      assert segs[..k] == [segs[0]] + segs[1..][..k - 1];
      k
  }

  /** One fill: the first segment with a placeholder takes the text. */
  function Fill(segs: seq<string>, text: string): (r: seq<string>)
    ensures |r| == |segs|
  {
    var k := FirstHole(segs);
    if k < |segs| then segs[k := ReplaceFirst(segs[k], text)] else segs
  }

  function Fills(segs: seq<string>, texts: seq<string>): (r: seq<string>)
    ensures |r| == |segs|
    decreases |texts|
  {
    if texts == [] then segs else Fills(Fill(segs, texts[0]), texts[1..])
  }

  lemma {:induction false} FirstHoleIs(segs: seq<string>, p: nat)
    requires p < |segs| && HasHole(segs[p]) && forall i :: 0 <= i < p ==> !HasHole(segs[i])
    ensures FirstHole(segs) == p
  {
    hide HasHole;
    if p > 0 { FirstHoleIs(segs[1..], p - 1); }
  }

  /** A fill at the first placeholder that stands after `front`. */
  lemma {:induction false} FillAt(front: seq<string>, s: string, back: seq<string>, text: string)
    requires HoleFree(front) && HasHole(s)
    ensures Fill(front + ([s] + back), text) == front + ([ReplaceFirst(s, text)] + back)
  {
    hide HasHole, ReplaceFirst;
    var segs := front + ([s] + back);
    assert forall i :: 0 <= i < |front| ==> segs[i] == front[i];
    FirstHoleIs(segs, |front|);
  }

  lemma {:induction false} ReplaceSlashed(segs: seq<string>, text: string)
    ensures ReplaceFirst(Slashed(segs), text) == Slashed(Fill(segs, text))
  {
    hide HasHole, ReplaceFirst, Fill, HoleFree;
    if segs == [] {
      NothingToFill(text);
    } else {
      var s, back := segs[0], segs[1..];
      assert segs == [s] + back;
      ReplaceSlashed(back, text);
      ReplaceSlash(s, Slashed(back), text);
      FillFront(s, back, text);
      SlashedCons(ReplaceFirst(s, text), back);
      SlashedCons(s, Fill(back, text));
    }
  }

  lemma {:induction false} NothingToFill(text: string)
    ensures ReplaceFirst("", text) == "" && Fill([], text) == [] && Slashed([]) == ""
  {
  }

  lemma {:induction false} SlashedCons(s: string, back: seq<string>)
    ensures Slashed([s] + back) == "/" + s + Slashed(back)
  {
    ConsParts(s, back);
  }

  lemma {:induction false} ReplaceSlash(s: string, rest: string, text: string)
    requires rest == "" || rest[0] == '/'
    ensures ReplaceFirst("/" + s + rest, text)
         == if HasHole(s) then "/" + ReplaceFirst(s, text) + rest else "/" + s + ReplaceFirst(rest, text)
  {
    hide HasHole;
    ReplaceBySegment(s, rest, text);
    Cut("/", s, rest);
    assert ("/" + (s + rest))[1..] == s + rest && ("/" + (s + rest))[0] == '/';
    Cut("/", ReplaceFirst(s, text), rest);
    Cut("/", s, ReplaceFirst(rest, text));
  }

  lemma {:induction false} FillFront(s: string, back: seq<string>, text: string)
    ensures Fill([s] + back, text) == if HasHole(s) then [ReplaceFirst(s, text)] + back else [s] + Fill(back, text)
  {
    hide HasHole, ReplaceFirst, HoleFree;
    ConsParts(s, back);
  }

  lemma {:induction false} ConsParts(t: string, more: seq<string>)
    ensures ([t] + more)[0] == t && ([t] + more)[1..] == more
  {
  }

  lemma {:induction false} FillAllSlashed(segs: seq<string>, texts: seq<string>)
    ensures FillAll(Slashed(segs), texts) == Slashed(Fills(segs, texts))
    decreases |texts|
  {
    hide Slashed, Fill, ReplaceFirst;
    if texts != [] {
      ReplaceSlashed(segs, texts[0]);
      FillAllSlashed(Fill(segs, texts[0]), texts[1..]);
    }
  }

  /** The URL, segment by segment. */
  function Filled<V>(path: seq<Seg<V>>, vals: seq<V>): (segs: seq<string>)
    requires |vals| == Captures(path)
    ensures |segs| == |path|
  {
    Fills(Slots(path), Shown(path, vals))
  }

  lemma {:induction false} BuildIsFilled<V>(path: seq<Seg<V>>, vals: seq<V>)
    requires |vals| == Captures(path)
    ensures Build(path, vals) == Slashed(Filled(path, vals))
  {
    PatternIsSlots(path);
    FillAllSlashed(Slots(path), Shown(path, vals));
  }

  // ---- exactly when every text lands in its own place ----

  /** After a text with a placeholder in it come only texts that are the placeholder itself. */
  predicate Placeable(shown: seq<string>) {
    forall i, j :: 0 <= i < j < |shown| && HasHole(shown[i]) ==> shown[j] == HOLE
  }

  /** Literals are non-empty segments without placeholders. */
  predicate GoodLiterals<V>(path: seq<Seg<V>>) {
    forall i :: 0 <= i < |path| && path[i].Lit? ==> path[i].value != "" && Plain(path[i].value) && !HasHole(path[i].value)
  }

  predicate AllHoles(ts: seq<string>) { forall i :: 0 <= i < |ts| ==> ts[i] == HOLE }

  lemma {:induction false} ReplaceByHole(s: string)
    ensures ReplaceFirst(s, HOLE) == s
  {
    if HOLE <= s { assert s == HOLE + s[2..]; } else if s != "" { ReplaceByHole(s[1..]); }
  }

  /** Filling with the placeholder itself changes nothing. */
  lemma {:induction false} HolesChangeNothing(segs: seq<string>, texts: seq<string>)
    requires AllHoles(texts)
    ensures Fills(segs, texts) == segs
    decreases |texts|
  {
    hide HasHole, ReplaceFirst;
    if texts != [] {
      var k := FirstHole(segs);
      if k < |segs| {
        ReplaceByHole(segs[k]);
        assert segs[k := segs[k]] == segs;
      }
      assert forall i :: 0 <= i < |texts| - 1 ==> texts[1..][i] == texts[i + 1];
      HolesChangeNothing(segs, texts[1..]);
    }
  }

  lemma {:induction false} FillsConcat(segs: seq<string>, a: seq<string>, b: seq<string>)
    ensures Fills(segs, a + b) == Fills(Fills(segs, a), b)
    decreases |a|
  {
    if a == [] {
      assert a + b == b;
    } else {
      assert (a + b)[1..] == a[1..] + b;
      FillsConcat(Fill(segs, a[0]), a[1..], b);
    }
  }

  /** Where the `c`th capture stands. */
  function Position<V>(path: seq<Seg<V>>, c: nat): (k: nat)
    requires c < Captures(path)
    ensures k < |path| && path[k].Capture?
  {
    if path[0].Lit? then 1 + Position(path[1..], c) else if c == 0 then 0 else 1 + Position(path[1..], c - 1)
  }

  lemma {:induction false} ShownAt<V>(path: seq<Seg<V>>, vals: seq<V>, c: nat)
    requires |vals| == Captures(path) && c < |vals|
    ensures |Shown(path, vals)| == |vals|
    ensures Shown(path, vals)[c] == Texts(path, vals)[Position(path, c)] == path[Position(path, c)].show(vals[c])
  {
    ShownCount(path, vals);
    if path[0].Lit? {
      ShownAt(path[1..], vals, c);
    } else if c > 0 {
      assert vals[1..][c - 1] == vals[c];
      ShownAt(path[1..], vals[1..], c - 1);
    }
  }

  lemma {:induction false} ShownCount<V>(path: seq<Seg<V>>, vals: seq<V>)
    requires |vals| == Captures(path)
    ensures |Shown(path, vals)| == |vals|
  {
    if path != [] { ShownCount(path[1..], if path[0].Lit? then vals else vals[1..]); }
  }

  /**
    Each fill uses up at most one placeholder of the pattern, and none while an earlier segment still holds
    one: with too few fills the `c`th placeholder is never reached.
  */
  lemma {:induction false} NeverReached<V>(front: seq<string>, path: seq<Seg<V>>, texts: seq<string>, c: nat)
    requires GoodLiterals(path) && c < Captures(path)
    requires |texts| <= c || (!HoleFree(front) && |texts| <= c + 1)
    ensures Fills(front + Slots(path), texts)[|front| + Position(path, c)] == HOLE
    decreases |texts| + |path|
  {
    hide Fills, HoleFree, GoodLiterals;
    var x, back := Slots(path)[0], Slots(path[1..]);
    if texts == [] {
      SlotAt(path, c);
      FillsNothing(front, Slots(path));
    } else if !HoleFree(front) {
      var front2 := FillsInFront(front, Slots(path), texts);
      NeverReached(front2, path, texts[1..], c);
    } else {
      Cut(front, [x], back);
      GoodTail(path);
      if path[0].Lit? {
        NeverReached(front + [x], path[1..], texts, c);
      } else {
        FillsNext(front, back, texts);
        NeverReached(front + [texts[0]], path[1..], texts[1..], c - 1);
      }
    }
  }

  lemma {:induction false} GoodTail<V>(path: seq<Seg<V>>)
    requires path != [] && GoodLiterals(path)
    ensures GoodLiterals(path[1..])
  {
    hide HasHole, Plain;
    assert forall i :: 0 <= i < |path[1..]| ==> path[1..][i] == path[i + 1];
  }

  lemma {:induction false} FillsNothing(front: seq<string>, back: seq<string>)
    ensures Fills(front + back, []) == front + back
  {
  }

  lemma {:induction false} FillsInFront(front: seq<string>, back: seq<string>, texts: seq<string>) returns (front2: seq<string>)
    requires !HoleFree(front) && texts != []
    ensures |front2| == |front| && Fills(front + back, texts) == Fills(front2 + back, texts[1..])
  {
    hide HasHole, ReplaceFirst;
    HoleInside(front, back);
    var k := FirstHole(front + back);
    var t := ReplaceFirst((front + back)[k], texts[0]);
    front2 := front[k := t];
    assert (front + back)[k := t] == front2 + back;
  }

  /** The next placeholder of the pattern takes the next text. */
  lemma {:induction false} FillsNext(front: seq<string>, back: seq<string>, texts: seq<string>)
    requires HoleFree(front) && texts != []
    ensures Fills(front + ([HOLE] + back), texts) == Fills(front + [texts[0]] + back, texts[1..])
  {
    hide HasHole, ReplaceFirst, Fill, HoleFree;
    HoleIsHole();
    FillAt(front, HOLE, back, texts[0]);
    Cut(front, [texts[0]], back);
  }

  lemma {:induction false} HoleIsHole()
    ensures HasHole(HOLE) && forall t :: ReplaceFirst(HOLE, t) == t
  {
    assert HOLE[2..] == "";
  }

  lemma {:induction false} HoleInside(front: seq<string>, back: seq<string>)
    requires !HoleFree(front)
    ensures FirstHole(front + back) < |front|
  {
    hide HasHole;
    var p := FirstHole(front);
    assert front[..|front|] == front;
    assert forall i :: 0 <= i < p ==> !HasHole(front[..p][i]) && (front + back)[i] == front[..p][i];
    FirstHoleIs(front + back, p);
  }

  lemma {:induction false} SlotAt<V>(path: seq<Seg<V>>, c: nat)
    requires c < Captures(path)
    ensures Slots(path)[Position(path, c)] == HOLE
  {
    var c2 := if path[0].Lit? then c else c - 1;
    if path[0].Lit? || c > 0 {
      SlotAt(path[1..], c2);
      var k := Position(path[1..], c2);
      assert Position(path, c) == 1 + k;
      assert Slots(path)[1 + k] == Slots(path[1..])[k];
    }
  }

  /** The last of the texts that is not the placeholder, if there is one. */
  function LastText(texts: seq<string>): (k: nat)
    ensures k <= |texts| && AllHoles(texts[k..]) && (k > 0 ==> texts[k - 1] != HOLE)
  {
    if texts == [] || texts[|texts| - 1] != HOLE then |texts| else
    var k := LastText(texts[..|texts| - 1]);
    assert forall i :: 0 <= i < |texts| - 1 - k ==> texts[k..][i] == texts[..|texts| - 1][k..][i];
    k
  }

  /** Behind a segment with a placeholder in it, some capture keeps the placeholder instead of its text. */
  lemma {:induction false} Blocked<V>(front: seq<string>, path: seq<Seg<V>>, vals: seq<V>) returns (c: nat)
    requires !HoleFree(front) && GoodLiterals(path) && |vals| == Captures(path)
    requires !AllHoles(Shown(path, vals))
    ensures c < Captures(path) && |Shown(path, vals)| == |vals| && Shown(path, vals)[c] != HOLE
    ensures Fills(front + Slots(path), Shown(path, vals))[|front| + Position(path, c)] == HOLE
  {
    hide HoleFree, Slots, GoodLiterals;
    var shown := Shown(path, vals);
    var k := LastText(shown);
    assert shown[0..] == shown;
    ShownCount(path, vals);
    c := k - 1;
    assert shown == shown[..k] + shown[k..];
    FillsConcat(front + Slots(path), shown[..k], shown[k..]);
    HolesChangeNothing(Fills(front + Slots(path), shown[..k]), shown[k..]);
    NeverReached(front, path, shown[..k], c);
  }

  lemma {:induction false} SlotsAreTexts<V>(path: seq<Seg<V>>, vals: seq<V>)
    requires |vals| == Captures(path) && AllHoles(Shown(path, vals))
    ensures Slots(path) == Texts(path, vals)
  {
    if path != [] {
      var more := Shown(path[1..], if path[0].Lit? then vals else vals[1..]);
      assert path[0].Capture? ==> Shown(path, vals)[0] == HOLE && forall i :: 0 <= i < |more| ==> more[i] == Shown(path, vals)[i + 1];
      SlotsAreTexts(path[1..], if path[0].Lit? then vals else vals[1..]);
    }
  }

  lemma {:induction false} PlaceableCons(t: string, more: seq<string>)
    ensures Placeable([t] + more) <==> if HasHole(t) then AllHoles(more) else Placeable(more)
  {
    hide HasHole;
    var shown := [t] + more;
    assert forall i :: 0 <= i < |more| ==> shown[i + 1] == more[i];
    if HasHole(t) && Placeable(shown) { assert HasHole(shown[0]); }
    if !HasHole(t) && Placeable(more) {
      forall i, j | 0 <= i < j < |shown| && HasHole(shown[i]) ensures shown[j] == HOLE {
        assert shown[i] == more[i - 1] && shown[j] == more[j - 1];
      }
    }
    if !HasHole(t) && Placeable(shown) {
      forall i, j | 0 <= i < j < |more| && HasHole(more[i]) ensures more[j] == HOLE {
        assert HasHole(shown[i + 1]);
      }
    }
  }

  /** The first segment moves to the filled front. */
  lemma {:induction false} HeadFilled<V>(done: seq<string>, path: seq<Seg<V>>, vals: seq<V>)
    requires path != [] && |vals| == Captures(path) && HoleFree(done)
    ensures var t, vals2 := Texts(path, vals)[0], if path[0].Lit? then vals else vals[1..];
            && Fills(done + Slots(path), Shown(path, vals)) == Fills(done + [t] + Slots(path[1..]), Shown(path[1..], vals2))
            && done + Texts(path, vals) == done + [t] + Texts(path[1..], vals2)
  {
    hide HasHole, Fills, HoleFree;
    var t, back := Texts(path, vals)[0], Slots(path[1..]);
    if path[0].Lit? {
      Cut(done, [t], back);
      Cut(done, [t], Texts(path[1..], vals));
    } else {
      Cut(done, [t], Texts(path[1..], vals[1..]));
      ConsParts(t, Shown(path[1..], vals[1..]));
      FillsNext(done, back, Shown(path, vals));
    }
  }

  /** Filling the placeholders one after another puts each text in its own place. */
  lemma {:induction false} FillInOrder<V>(done: seq<string>, path: seq<Seg<V>>, vals: seq<V>)
    requires |vals| == Captures(path) && HoleFree(done) && GoodLiterals(path) && Placeable(Shown(path, vals))
    ensures Fills(done + Slots(path), Shown(path, vals)) == done + Texts(path, vals)
    decreases |path|
  {
    hide HasHole, Fills;
    if path == [] {
      FillsNothing(done, []);
    } else {
      var t, vals2 := Texts(path, vals)[0], if path[0].Lit? then vals else vals[1..];
      HeadFilled(done, path, vals);
      if path[0].Capture? { PlaceableCons(t, Shown(path[1..], vals2)); }
      if HasHole(t) {
        HolesChangeNothing(done + [t] + Slots(path[1..]), Shown(path[1..], vals2));
        SlotsAreTexts(path[1..], vals2);
      } else {
        FillInOrder(done + [t], path[1..], vals2);
      }
    }
  }

  lemma {:induction false} PositionMoves<V>(path: seq<Seg<V>>, c: nat)
    requires path != [] && c < Captures(path[1..])
    ensures var c2 := if path[0].Capture? then c + 1 else c;
            c2 < Captures(path) && Position(path, c2) == 1 + Position(path[1..], c)
  {
  }

  lemma {:induction false} NoTextsPlaceable()
    ensures Placeable([])
  {
  }

  /** Otherwise some capture is left with the placeholder, and its text went elsewhere. */
  lemma {:induction false} Misplaced<V>(done: seq<string>, path: seq<Seg<V>>, vals: seq<V>) returns (c: nat)
    requires |vals| == Captures(path) && HoleFree(done) && GoodLiterals(path) && !Placeable(Shown(path, vals))
    ensures c < Captures(path) && |Shown(path, vals)| == |vals| && Shown(path, vals)[c] != HOLE
    ensures Fills(done + Slots(path), Shown(path, vals))[|done| + Position(path, c)] == HOLE
    decreases |path|
  {
    hide HasHole, Fills, Slots, Placeable, GoodLiterals, Position, Texts, HoleFree;
    NoTextsPlaceable();
    var t, vals2 := Texts(path, vals)[0], if path[0].Lit? then vals else vals[1..];
    HeadFilled(done, path, vals);
    HeadText(done, path, vals);
    if HasHole(t) {
      c := Blocked(done + [t], path[1..], vals2);
    } else {
      c := Misplaced(done + [t], path[1..], vals2);
    }
    PositionMoves(path, c);
    if path[0].Capture? { c := c + 1; }
  }

  /** What the first text does to the front and to the texts behind it. */
  lemma {:induction false} HeadText<V>(done: seq<string>, path: seq<Seg<V>>, vals: seq<V>)
    requires path != [] && |vals| == Captures(path) && HoleFree(done) && GoodLiterals(path)
    requires !Placeable(Shown(path, vals))
    ensures var t, vals2 := Texts(path, vals)[0], if path[0].Lit? then vals else vals[1..];
            && |vals2| == Captures(path[1..]) && GoodLiterals(path[1..]) && |Shown(path, vals)| == |vals|
            && HoleFree(done + [t]) == !HasHole(t)
            && (if path[0].Lit? then !HasHole(t) && Shown(path, vals) == Shown(path[1..], vals2)
                else Shown(path, vals) == [t] + Shown(path[1..], vals2))
            && (if HasHole(t) then !AllHoles(Shown(path[1..], vals2)) else !Placeable(Shown(path[1..], vals2)))
  {
    hide HasHole, Placeable, AllHoles, Plain;
    var t, vals2 := Texts(path, vals)[0], if path[0].Lit? then vals else vals[1..];
    ShownCount(path, vals);
    GoodTail(path);
    if path[0].Capture? { PlaceableCons(t, Shown(path[1..], vals2)); }
    assert (done + [t])[|done|] == t;
  }

  /**
    The URL holds every text in its own place if and only if, after a text with "{}" in it, every text is "{}".
  */
  lemma {:induction false} FilledIff<V>(path: seq<Seg<V>>, vals: seq<V>)
    requires |vals| == Captures(path) && GoodLiterals(path)
    ensures Filled(path, vals) == Texts(path, vals) <==> Placeable(Shown(path, vals))
  {
    hide Placeable, GoodLiterals, Fills;
    assert [] + Slots(path) == Slots(path) && [] + Texts(path, vals) == Texts(path, vals);
    if Placeable(Shown(path, vals)) {
      FillInOrder([], path, vals);
    } else {
      var c := Misplaced([], path, vals);
      ShownAt(path, vals, c);
    }
  }

  // ---- splitting what was built ----

  predicate Plain(t: string) { '/' !in t }

  lemma {:induction false} SplitPart(part: string, t: string, rest: string)
    requires Plain(t) && (rest == "" || rest[0] == '/')
    ensures SplitFrom(t + rest, part) == (if part + t == "" then [] else [part + t]) + Split(rest)
    decreases |t|
  {
    if t == "" {
      assert t + rest == rest && part + t == part;
      if rest != "" {
        assert [] + SplitFrom(rest[1..], "") == SplitFrom(rest[1..], "");
      }
    } else {
      assert (t + rest)[1..] == t[1..] + rest && (t + rest)[0] == t[0];
      assert part + [t[0]] + t[1..] == part + t;
      assert forall c :: c in t[1..] ==> c in t;
      SplitPart(part + [t[0]], t[1..], rest);
    }
  }

  /** The non-empty texts come back, whatever was empty is gone. */
  lemma {:induction false} SplitSlashed(ts: seq<string>)
    requires forall i :: 0 <= i < |ts| ==> Plain(ts[i])
    ensures Split(Slashed(ts)) == NonEmpty(ts)
  {
    hide SplitFrom;
    if ts == [] {
      SplitEmpty();
    } else {
      SplitSlashed(ts[1..]);
      SplitPart("", ts[0], Slashed(ts[1..]));
      assert "" + ts[0] == ts[0];
      SplitSlash(ts[0] + Slashed(ts[1..]));
      assert "/" + ts[0] + Slashed(ts[1..]) == "/" + (ts[0] + Slashed(ts[1..]));
    }
  }

  lemma {:induction false} SplitEmpty()
    ensures Split("") == []
  {
  }

  lemma {:induction false} SplitSlash(s: string)
    ensures Split("/" + s) == SplitFrom(s, "")
  {
    assert ("/" + s)[1..] == s;
    assert [] + SplitFrom(s, "") == SplitFrom(s, "");
  }

  function NonEmpty(ts: seq<string>): (r: seq<string>) {
    if ts == [] then [] else (if ts[0] == "" then [] else [ts[0]]) + NonEmpty(ts[1..])
  }

  lemma {:induction false} NonEmptyAll(ts: seq<string>)
    ensures |NonEmpty(ts)| <= |ts|
    ensures |NonEmpty(ts)| == |ts| <==> forall i :: 0 <= i < |ts| ==> ts[i] != ""
    ensures |NonEmpty(ts)| == |ts| ==> NonEmpty(ts) == ts
  {
    if ts != [] {
      NonEmptyAll(ts[1..]);
      assert forall i :: 1 <= i < |ts| ==> ts[i] == ts[1..][i - 1];
    }
  }

  // ---- client against server ----

  /** Every captured value parses back from its text. */
  ghost predicate ParsesBack<V>(path: seq<Seg<V>>, vals: seq<V>)
    requires |vals| == Captures(path)
  {
    path == [] ||
    if path[0].Lit? then ParsesBack(path[1..], vals)
    else path[0].parse(path[0].show(vals[0])) == Some(vals[0]) && ParsesBack(path[1..], vals[1..])
  }

  lemma {:induction false} ExtractTexts<V>(path: seq<Seg<V>>, vals: seq<V>)
    requires |vals| == Captures(path)
    ensures Extract(path, Texts(path, vals)) == Some(vals) <==> ParsesBack(path, vals)
  {
    if path == [] {
      assert vals == [];
    } else if path[0].Lit? {
      ExtractTexts(path[1..], vals);
      assert Texts(path, vals)[1..] == Texts(path[1..], vals);
    } else {
      ExtractTexts(path[1..], vals[1..]);
      assert Texts(path, vals)[1..] == Texts(path[1..], vals[1..]);
      assert [vals[0]] + vals[1..] == vals;
      if Extract(path, Texts(path, vals)) == Some(vals) { ExtractHead(path, vals, Texts(path, vals)); }
    }
  }

  // ---- when the captures come back ----

  /** A text the server can hand to a capture. */
  predicate Segment(t: string) { t != "" && Plain(t) }

  predicate Segments(ts: seq<string>) { forall i :: 0 <= i < |ts| ==> Segment(ts[i]) }

  /**
    What the captures' `FromStr` must not do: read a segment as a value that is not shown as a segment, or read
    "{}" as a value that is shown otherwise. A capture that reads each value only from its own text never does,
    nor does one that always shows a segment and rejects "{}", as the number types do.
  */
  ghost predicate Steady<V>(path: seq<Seg<V>>, vals: seq<V>)
    requires |vals| == Captures(path)
  {
    path == [] ||
    if path[0].Lit? then Steady(path[1..], vals)
    else
      && (forall t :: path[0].parse(t) == Some(vals[0]) && Segment(t) ==> Segment(path[0].show(vals[0])))
      && (path[0].parse(HOLE) == Some(vals[0]) ==> path[0].show(vals[0]) == HOLE)
      && Steady(path[1..], vals[1..])
  }

  lemma {:induction false} SplitFromSegments(s: string, part: string)
    requires Plain(part)
    ensures Segments(SplitFrom(s, part))
    decreases |s|
  {
    if s != "" { SplitFromSegments(s[1..], if s[0] == '/' then "" else part + [s[0]]); }
  }

  /** From no URL at all does the server read values whose texts are empty or hold a slash. */
  lemma {:induction false} ReadsSegments<V>(path: seq<Seg<V>>, vals: seq<V>, parts: seq<string>)
    requires |vals| == Captures(path) && Steady(path, vals) && Segments(parts)
    requires Extract(path, parts) == Some(vals)
    ensures Segments(Shown(path, vals))
  {
    hide Segment;
    if path != [] {
      assert parts[0] == parts[0] && forall i :: 0 <= i < |parts[1..]| ==> parts[1..][i] == parts[i + 1];
      if path[0].Lit? {
        ReadsSegments(path[1..], vals, parts[1..]);
      } else {
        ExtractHead(path, vals, parts);
        ReadsSegments(path[1..], vals[1..], parts[1..]);
      }
    }
  }

  lemma {:induction false} ExtractHead<V>(path: seq<Seg<V>>, vals: seq<V>, parts: seq<string>)
    requires path != [] && path[0].Capture? && Extract(path, parts) == Some(vals)
    ensures vals != [] && parts != [] && path[0].parse(parts[0]) == Some(vals[0])
    ensures Extract(path[1..], parts[1..]) == Some(vals[1..])
  {
    var rest := Extract(path[1..], parts[1..]).value;
    assert vals == [vals[0]] + rest && vals[1..] == rest;
  }

  lemma {:induction false} ExtractTail<V>(path: seq<Seg<V>>, vals: seq<V>, parts: seq<string>)
    requires path != [] && |vals| == Captures(path) && Steady(path, vals) && Extract(path, parts) == Some(vals)
    ensures parts != []
    ensures var vals2 := if path[0].Lit? then vals else vals[1..];
            && |vals2| == Captures(path[1..]) && Steady(path[1..], vals2) && Extract(path[1..], parts[1..]) == Some(vals2)
    ensures path[0].Capture? && parts[0] == HOLE ==> path[0].show(vals[0]) == HOLE
  {
    if path[0].Capture? { ExtractHead(path, vals, parts); }
  }

  /** The `c`th capture reads the segment at its position. */
  lemma {:induction false} ExtractAt<V>(path: seq<Seg<V>>, vals: seq<V>, parts: seq<string>, c: nat)
    requires |vals| == Captures(path) && c < |vals| && Steady(path, vals) && Extract(path, parts) == Some(vals)
    ensures |parts| == |path|
    ensures parts[Position(path, c)] == HOLE ==> path[Position(path, c)].show(vals[c]) == HOLE
  {
    hide Extract, Steady;
    ExtractCount(path, parts);
    ExtractTail(path, vals, parts);
    if path[0].Lit? || c > 0 {
      var vals2, c2 := if path[0].Lit? then vals else vals[1..], if path[0].Lit? then c else c - 1;
      ExtractAt(path[1..], vals2, parts[1..], c2);
      var k := Position(path[1..], c2);
      assert Position(path, c) == 1 + k;
      assert parts[1 + k] == parts[1..][k] && path[1 + k] == path[1..][k] && vals2[c2] == vals[c];
    }
  }

  lemma {:induction false} ExtractCount<V>(path: seq<Seg<V>>, parts: seq<string>)
    ensures Extract(path, parts).Some? ==> |parts| == |path|
  {
    if path != [] && parts != [] { ExtractCount(path[1..], parts[1..]); }
  }

  /** Slash-free texts keep every segment slash-free. */
  lemma {:induction false} FillsPlain(segs: seq<string>, texts: seq<string>)
    requires AllPlain(segs) && AllPlain(texts)
    ensures AllPlain(Fills(segs, texts))
    decreases |texts|
  {
    hide HasHole, ReplaceFirst, Plain;
    if texts != [] {
      var k := FirstHole(segs);
      if k < |segs| { ReplacePlain(segs[k], texts[0]); }
      FillsPlain(Fill(segs, texts[0]), texts[1..]);
    }
  }

  predicate AllPlain(ts: seq<string>) { forall i :: 0 <= i < |ts| ==> Plain(ts[i]) }

  lemma {:induction false} ReplacePlain(s: string, text: string)
    requires Plain(s) && Plain(text)
    ensures Plain(ReplaceFirst(s, text))
  {
    if !(HOLE <= s) && s != "" { ReplacePlain(s[1..], text); }
  }

  lemma {:induction false} SlotsPlain<V>(path: seq<Seg<V>>)
    requires GoodLiterals(path)
    ensures AllPlain(Slots(path))
  {
    hide HasHole;
    if path != [] {
      assert forall i :: 0 <= i < |path[1..]| ==> path[1..][i] == path[i + 1];
      SlotsPlain(path[1..]);
    }
  }

  /** Slash-free texts: the server's parts are the non-empty segments of the URL. */
  lemma {:induction false} BuildSplits<V>(path: seq<Seg<V>>, vals: seq<V>)
    requires |vals| == Captures(path) && GoodLiterals(path) && AllPlain(Shown(path, vals))
    ensures Split(Build(path, vals)) == NonEmpty(Filled(path, vals))
  {
    hide Split, Slashed, Fills, Plain, GoodLiterals;
    BuildIsFilled(path, vals);
    SlotsPlain(path);
    FillsPlain(Slots(path), Shown(path, vals));
    SplitSlashed(Filled(path, vals));
  }

  lemma {:induction false} TextsSegments<V>(path: seq<Seg<V>>, vals: seq<V>)
    requires |vals| == Captures(path) && GoodLiterals(path) && Segments(Shown(path, vals))
    ensures Segments(Texts(path, vals))
  {
    hide HasHole, Plain;
    if path != [] {
      assert forall i :: 0 <= i < |path[1..]| ==> path[1..][i] == path[i + 1];
      var shown, vals2 := Shown(path, vals), if path[0].Lit? then vals else vals[1..];
      assert path[0].Capture? ==> shown[0] == path[0].show(vals[0]) && shown[1..] == Shown(path[1..], vals2);
      assert forall i :: 0 <= i < |shown| - 1 ==> shown[1..][i] == shown[i + 1];
      TextsSegments(path[1..], vals2);
    }
  }

  /**
    Client and server agree, exactly: the server extracts the client's captures if and only if every value
    parses back from its text, no text is empty or holds a slash, and after a text with "{}" in it every
    text is "{}".
  */
  lemma {:induction false} PathRoundTripIff<V>(path: seq<Seg<V>>, vals: seq<V>)
    requires |vals| == Captures(path) && GoodLiterals(path) && Steady(path, vals)
    ensures Extract(path, Split(Build(path, vals))) == Some(vals)
       <==> ParsesBack(path, vals) && Segments(Shown(path, vals)) && Placeable(Shown(path, vals))
  {
    hide Build, SplitFrom, ParsesBack, Extract, Texts, Steady, GoodLiterals, Placeable, Plain, Filled;
    var shown, segs, parts := Shown(path, vals), Filled(path, vals), Split(Build(path, vals));
    if Extract(path, parts) == Some(vals) {
      SplitFromSegments(Build(path, vals), "");
      ReadsSegments(path, vals, parts);
    }
    if Segments(shown) {
      BuildSplits(path, vals);
      NonEmptyAll(segs);
      FilledIff(path, vals);
      TextsSegments(path, vals);
      ExtractTexts(path, vals);
      if Extract(path, parts) == Some(vals) {
        ExtractCount(path, parts);
        if !Placeable(shown) { HoleMisplaces(path, vals); }
      }
    }
  }

  /** The capture that keeps the placeholder reads it, and so reads another value. */
  lemma {:induction false} HoleMisplaces<V>(path: seq<Seg<V>>, vals: seq<V>)
    requires |vals| == Captures(path) && GoodLiterals(path) && Steady(path, vals) && !Placeable(Shown(path, vals))
    ensures Extract(path, Filled(path, vals)) != Some(vals)
  {
    hide Fills, Steady, GoodLiterals, Placeable, Extract, Slots, Shown, Position, Texts;
    var c := Misplaced([], path, vals);
    assert [] + Slots(path) == Slots(path);
    ShownAt(path, vals, c);
    if Extract(path, Filled(path, vals)) == Some(vals) { ExtractAt(path, vals, Filled(path, vals), c); }
  }

  function StringCapture(): (s: Seg<string>) { Capture((s: string) => Some(s), (s: string) => s) }

  /** Paths whose captures are strings: nothing else is asked. */
  lemma {:induction false} StringsSteady(path: seq<Seg<string>>, vals: seq<string>)
    requires |vals| == Captures(path)
    requires forall i :: 0 <= i < |path| && path[i].Capture? ==> path[i] == StringCapture()
    ensures Steady(path, vals) && ParsesBack(path, vals) && Shown(path, vals) == vals
  {
    if path != [] {
      assert forall i :: 0 <= i < |path[1..]| ==> path[1..][i] == path[i + 1];
      StringsSteady(path[1..], if path[0].Lit? then vals else vals[1..]);
      assert path[0].Capture? ==> path[0] == StringCapture() && vals == [vals[0]] + vals[1..];
    }
  }
}
