/**
  The string operations the schema code uses: trimming, stripping, finding, splitting and lines, each
  with the law its printers and parsers rely on. Strings are sequences of characters, and white space
  is what `char::is_whitespace` accepts.
*/
module Strings {
  import opened Bytes
  import opened Text

  // ---- operations ----

  /** `char::is_whitespace`. */
  predicate IsSpace(c: char) {
    var n := c as int;
    || 9 <= n <= 13 || n == 32 || n == 0x85 || n == 0xA0 || n == 0x1680 || 0x2000 <= n <= 0x200A
    || n == 0x2028 || n == 0x2029 || n == 0x202F || n == 0x205F || n == 0x3000
  }

  /** The 25 characters of the Unicode property White_Space. */
  const WHITE_SPACE := {0x9, 0xA, 0xB, 0xC, 0xD, 0x20, 0x85, 0xA0, 0x1680,
                        0x2000, 0x2001, 0x2002, 0x2003, 0x2004, 0x2005, 0x2006, 0x2007, 0x2008, 0x2009, 0x200A,
                        0x2028, 0x2029, 0x202F, 0x205F, 0x3000}

  lemma {:induction false} SpacesAre(c: char)
    ensures IsSpace(c) <==> c as int in WHITE_SPACE
  {
  }

  function TrimStart(s: string): (t: string)
    ensures |t| <= |s| && (t != "" ==> !IsSpace(t[0]))
  {
    if s != "" && IsSpace(s[0]) then TrimStart(s[1..]) else s
  }

  function TrimEnd(s: string): (t: string)
    ensures t <= s && (t != "" ==> !IsSpace(t[|t| - 1]))
  {
    if s != "" && IsSpace(s[|s| - 1]) then TrimEnd(s[..|s| - 1]) else s
  }

  function Trim(s: string): (t: string) { TrimEnd(TrimStart(s)) }

  /** `trim_start_matches`, with a non-empty text: strips it as often as it repeats. */
  function StripAll(s: string, pat: string): (t: string)
    requires pat != ""
    decreases |s|
  {
    if pat <= s then StripAll(s[|pat|..], pat) else s
  }

  predicate EndsWith(s: string, pat: string) { |pat| <= |s| && s[|s| - |pat|..] == pat }

  /** `trim_end_matches`. */
  function StripEnd(s: string, pat: string): (t: string)
    requires pat != ""
    decreases |s|
  {
    if EndsWith(s, pat) then StripEnd(s[..|s| - |pat|], pat) else s
  }

  /** `find` of a character, or the length. */
  function FindChar(s: string, c: char): (k: nat)
    ensures k <= |s| && (k < |s| ==> s[k] == c) && c !in s[..k]
  {
    if s == "" || s[0] == c then 0 else 1 + FindChar(s[1..], c)
  }

  /** `find` of a text: its first position. */
  function FindStr(s: string, t: string): (k: Option<nat>)
    ensures k.Some? ==> k.value + |t| <= |s|
  {
    if t <= s then Some(0)
    else if s == "" then None
    else match FindStr(s[1..], t) case None => None case Some(k) => Some(k + 1)
  }

  /** `split("//").next()`. */
  function BeforeComment(s: string): (t: string) {
    match FindStr(s, "//") case None => s case Some(k) => s[..k]
  }

  function WordEnd(s: string): (k: nat)
    ensures k <= |s| && (s != "" && !IsSpace(s[0]) ==> k > 0)
  {
    if s == "" || IsSpace(s[0]) then 0 else 1 + WordEnd(s[1..])
  }

  /** `split_whitespace`. */
  function Words(s: string): (ws: seq<string>)
    decreases |s|
  {
    var t := TrimStart(s);
    if t == "" then [] else [t[..WordEnd(t)]] + Words(t[WordEnd(t)..])
  }

  /** `splitn(n, ' ')`. */
  function SplitSpaces(s: string, n: nat): (parts: seq<string>)
    decreases n
  {
    var k := FindChar(s, ' ');
    if n <= 1 || k == |s| then [s] else [s[..k]] + SplitSpaces(s[k + 1..], n - 1)
  }

  /** `lines`: a carriage return goes with the newline it precedes, and a final newline adds no line. */
  function Lines(s: string): (ls: seq<string>)
    decreases |s|
  {
    if s == "" then []
    else
      var k := FindChar(s, '\n');
      if k == |s| then [s]
      else [if k > 0 && s[k - 1] == '\r' then s[..k - 1] else s[..k]] + Lines(s[k + 1..])
  }

  /** `join("\n")`. */
  function Join(ls: seq<string>): (s: string) {
    if ls == [] then "" else if |ls| == 1 then ls[0] else ls[0] + "\n" + Join(ls[1..])
  }

  // ---- trimming ----

  predicate AllSpace(s: string) { forall i :: 0 <= i < |s| ==> IsSpace(s[i]) }

  /** Starts and ends with something other than white space. */
  predicate Solid(s: string) { s != "" && !IsSpace(s[0]) && !IsSpace(s[|s| - 1]) }

  lemma {:induction false} TrimPadded(p: string, s: string, q: string)
    requires AllSpace(p) && AllSpace(q) && Solid(s)
    ensures Trim(p + s + q) == s
  {
    Cut(p, s, q);
    TrimFront(p, s + q);
    TrimBack(s, q);
  }

  lemma {:induction false} TrimFront(p: string, s: string)
    requires AllSpace(p) && s != "" && !IsSpace(s[0])
    ensures TrimStart(p + s) == s
  {
    if p == "" {
      assert p + s == s;
    } else {
      assert (p + s)[1..] == p[1..] + s;
      TrimFront(p[1..], s);
    }
  }

  lemma {:induction false} TrimBack(s: string, q: string)
    requires AllSpace(q) && Solid(s)
    ensures TrimEnd(s + q) == s
  {
    if q == "" {
      assert s + q == s;
    } else {
      assert (s + q)[..|s + q| - 1] == s + q[..|q| - 1];
      TrimBack(s, q[..|q| - 1]);
    }
  }

  lemma {:induction false} TrimSolid(s: string)
    requires Solid(s)
    ensures Trim(s) == s
  {
    TrimPadded("", s, "");
    assert "" + s + "" == s;
  }

  lemma {:induction false} TrimIndented(s: string)
    requires Solid(s)
    ensures Trim("  " + s) == s
  {
    TrimPadded("  ", s, "");
    assert "  " + s + "" == "  " + s;
  }

  /** An indented comment still starts with its slashes after trimming. */
  lemma {:induction false} TrimComment(s: string)
    ensures Trim("  // " + s) == "//" + TrimEnd(" " + s)
  {
    assert "  // " + s == "  " + ("// " + s);
    TrimFront("  ", "// " + s);
    assert "// " + s == "//" + (" " + s);
    TrimEndKeeps("//", " " + s);
  }

  lemma {:induction false} TrimEndKeeps(p: string, s: string)
    requires p != "" && !IsSpace(p[|p| - 1])
    ensures TrimEnd(p + s) == p + TrimEnd(s)
  {
    if s == "" {
      assert p + s == p;
    } else if IsSpace(s[|s| - 1]) {
      assert (p + s)[..|p + s| - 1] == p + s[..|s| - 1];
      TrimEndKeeps(p, s[..|s| - 1]);
    }
  }

  // ---- finding ----

  lemma {:induction false} FindCharAt(a: string, c: char, b: string)
    requires c !in a
    ensures FindChar(a + [c] + b, c) == |a|
  {
    if a == "" {
      assert a + [c] + b == [c] + b;
    } else {
      assert (a + [c] + b)[1..] == a[1..] + [c] + b;
      assert c !in a[1..];
      FindCharAt(a[1..], c, b);
    }
  }

  lemma {:induction false} NoComment(s: string)
    requires '/' !in s
    ensures BeforeComment(s) == s
  {
    NoSlashes(s);
  }

  lemma {:induction false} NoSlashes(s: string)
    requires '/' !in s
    ensures FindStr(s, "//") == None
  {
    if s != "" {
      assert s[0] in s;
      NoSlashes(s[1..]);
    }
  }

  // ---- words ----

  predicate IsWordChar(c: char) { 'a' <= c <= 'z' || 'A' <= c <= 'Z' || IsDigit(c) || c == '_' || c == '.' }

  /** A non-empty name: letters, digits, underscores and dots. */
  predicate IsWord(s: string) { s != "" && forall i :: 0 <= i < |s| ==> IsWordChar(s[i]) }

  predicate NoSpaceIn(s: string) { forall i :: 0 <= i < |s| ==> !IsSpace(s[i]) }

  lemma {:induction false} WordIsPlain(s: string)
    requires IsWord(s)
    ensures Solid(s) && NoSpaceIn(s)
    ensures '/' !in s && '<' !in s && '>' !in s && '(' !in s && ')' !in s && ',' !in s && ';' !in s && ' ' !in s
    ensures '{' !in s && '\n' !in s && '\r' !in s && '\"' !in s && '=' !in s && '}' !in s
  {
  }

  lemma {:induction false} DecimalIsWord(n: nat)
    ensures IsWord(Decimal(n))
  {
  }

  lemma {:induction false} WordEndAt(w: string, rest: string)
    requires NoSpaceIn(w) && (rest == "" || IsSpace(rest[0]))
    ensures WordEnd(w + rest) == |w|
  {
    if w == "" {
      assert w + rest == rest;
    } else {
      assert (w + rest)[1..] == w[1..] + rest;
      WordEndAt(w[1..], rest);
    }
  }

  lemma {:induction false} WordsCons(w: string, rest: string)
    requires w != "" && NoSpaceIn(w) && (rest == "" || IsSpace(rest[0]))
    ensures Words(w + rest) == [w] + Words(rest)
  {
    WordEndAt(w, rest);
    assert TrimStart(w + rest) == w + rest;
    assert (w + rest)[..|w|] == w && (w + rest)[|w|..] == rest;
  }

  /** `a b`, split at white space. */
  lemma {:induction false} WordsPair(a: string, rest: string)
    requires a != "" && NoSpaceIn(a)
    ensures Words(a + " " + rest) == [a] + Words(rest)
  {
    assert a + " " + rest == a + (" " + rest);
    WordsCons(a, " " + rest);
  }

  lemma {:induction false} WordsLast(a: string)
    requires a != "" && NoSpaceIn(a)
    ensures Words(a) == [a]
  {
    WordsCons(a, "");
    assert a + "" == a && [a] + [] == [a];
  }

  lemma {:induction false} SplitOne(a: string, rest: string, n: nat)
    requires ' ' !in a && n >= 2
    ensures SplitSpaces(a + " " + rest, n) == [a] + SplitSpaces(rest, n - 1)
  {
    FindCharAt(a, ' ', rest);
    assert (a + " " + rest)[..|a|] == a && (a + " " + rest)[|a| + 1..] == rest;
  }

  lemma {:induction false} SplitRest(s: string)
    ensures SplitSpaces(s, 1) == [s]
  {
  }

  // ---- stripping ----

  lemma {:induction false} StripEndOnce(s: string, pat: string)
    requires pat != "" && !EndsWith(s, pat)
    ensures StripEnd(s + pat, pat) == s
  {
    assert (s + pat)[|s + pat| - |pat|..] == pat && (s + pat)[..|s + pat| - |pat|] == s;
  }

  lemma {:induction false} StripAllOnce(pat: string, s: string)
    requires pat != "" && !(pat <= s)
    ensures StripAll(pat + s, pat) == s
  {
    assert (pat + s)[|pat|..] == s && (pat + s)[..|pat|] == pat;
  }

  // ---- lines ----

  /** A line that survives joining and splitting. */
  predicate OneLine(s: string) { '\n' !in s && (s != "" ==> s[|s| - 1] != '\r') }

  lemma {:induction false} LinesHead(l: string, rest: string)
    requires OneLine(l)
    ensures Lines(l + "\n" + rest) == [l] + Lines(rest)
  {
    var s := l + "\n" + rest;
    FindCharAt(l, '\n', rest);
    assert s[..|l|] == l && s[|l| + 1..] == rest;
    if l != "" { assert s[|l| - 1] == l[|l| - 1]; }
  }

  /** Of a line that ends in a carriage return and a newline both go, and no more. */
  lemma {:induction false} CarriageReturn(l: string, rest: string)
    requires '\n' !in l
    ensures Lines(l + "\r\n" + rest) == [l] + Lines(rest)
  {
    var s := l + "\r\n" + rest;
    FindCharAt(l + "\r", '\n', rest);
    assert s == (l + "\r") + ['\n'] + rest;
    assert s[|l|] == '\r' && s[..|l|] == l && s[|l| + 2..] == rest;
  }

  lemma {:induction false} LinesLast(l: string)
    requires OneLine(l)
    ensures Lines(l) == if l == "" then [] else [l]
  {
  }

  /** Joined lines split back, except that a final empty line is not a line. */
  lemma {:induction false} LinesJoin(ls: seq<string>)
    requires ls != [] && forall i :: 0 <= i < |ls| ==> OneLine(ls[i])
    ensures Lines(Join(ls)) == if ls[|ls| - 1] == "" then ls[..|ls| - 1] else ls
  {
    hide Lines, OneLine;
    if |ls| == 1 {
      LinesLast(ls[0]);
    } else {
      var tail := ls[1..];
      LinesHead(ls[0], Join(tail));
      LinesJoin(tail);
      assert ls == [ls[0]] + tail && ls[..|ls| - 1] == [ls[0]] + tail[..|tail| - 1];
    }
  }

  lemma {:induction false} JoinConcat(a: seq<string>, b: seq<string>)
    requires a != [] && b != []
    ensures Join(a + b) == Join(a) + "\n" + Join(b)
  {
    assert (a + b)[1..] == a[1..] + b;
    if |a| == 1 {
      assert a[1..] + b == b;
    } else {
      JoinConcat(a[1..], b);
      assert a[0] + "\n" + (Join(a[1..]) + "\n" + Join(b)) == a[0] + "\n" + Join(a[1..]) + "\n" + Join(b);
    }
  }
}
