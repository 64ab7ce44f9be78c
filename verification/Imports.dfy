/** The recursive import resolver (typeway-grpc/src/proto_parse.rs, `parse_proto_recursive`). */
module Imports {
  import opened Bytes
  import opened Schema

  /** The readable files, each with what `parse_proto` makes of it, and the include directories in order. */
  datatype Disk = Disk(files: map<string, Result<ProtoFile, string>>, dirs: seq<string>)

  /** `Path::join`: an absolute second part replaces the first. */
  function Join(dir: string, path: string): (full: string) {
    if path != [] && path[0] == '/' then path
    else if dir == "" || dir[|dir| - 1] == '/' then dir + path
    else dir + "/" + path
  }

  /** The first include directory that has the file. */
  function Find(d: Disk, path: string): (f: Option<Result<ProtoFile, string>>) {
    FindIn(d, d.dirs, path)
  }

  function FindIn(d: Disk, dirs: seq<string>, path: string): (f: Option<Result<ProtoFile, string>>) {
    if dirs == [] then None
    else if Join(dirs[0], path) in d.files then Some(d.files[Join(dirs[0], path)])
    else FindIn(d, dirs[1..], path)
  }

  /** Joining as paths are joined: an absolute path stands alone, and one slash parts the two. */
  lemma {:induction false} JoinIs(dir: string, rest: string)
    ensures Join(dir, "/" + rest) == "/" + rest && Join("", rest) == rest
    ensures Join(dir + "/", rest) == if "/" <= rest then rest else dir + "/" + rest
    ensures dir != "" && dir[|dir| - 1] != '/' && !("/" <= rest) ==> Join(dir, rest) == dir + "/" + rest
  {
  }

  /** The first directory that has the file is the one that counts. */
  lemma {:induction false} FindFirst(d: Disk, path: string, k: nat)
    requires k <= |d.dirs| && forall i :: 0 <= i < k ==> Join(d.dirs[i], path) !in d.files
    ensures k < |d.dirs| && Join(d.dirs[k], path) in d.files ==> Find(d, path) == Some(d.files[Join(d.dirs[k], path)])
    ensures k == |d.dirs| ==> Find(d, path) == None
  {
    FindFrom(d, path, k, 0);
    assert d.dirs[0..] == d.dirs;
  }

  lemma {:induction false} FindFrom(d: Disk, path: string, k: nat, i: nat)
    requires i <= k <= |d.dirs| && forall j :: 0 <= j < k ==> Join(d.dirs[j], path) !in d.files
    ensures FindIn(d, d.dirs[i..], path) == FindIn(d, d.dirs[k..], path)
    ensures k < |d.dirs| && Join(d.dirs[k], path) in d.files ==> FindIn(d, d.dirs[k..], path) == Some(d.files[Join(d.dirs[k], path)])
    ensures k == |d.dirs| ==> FindIn(d, d.dirs[k..], path) == None
    decreases k - i
  {
    hide Join;
    if i < k {
      assert d.dirs[i..][1..] == d.dirs[i + 1..];
      FindFrom(d, path, k, i + 1);
    }
  }

  predicate WellKnown(path: string) { "google/protobuf/" <= path }

  /** Is the file there, and does it parse? */
  predicate Readable(d: Disk, path: string) { Find(d, path).Some? && Find(d, path).value.Ok? }

  function FileAt(d: Disk, path: string): (f: ProtoFile)
    requires Readable(d, path)
  {
    Find(d, path).value.value
  }

  // ---- what the recursion does ----

  /** Messages and enums contributed by imports, and the paths handled so far in the order they were met. */
  datatype Loaded = Loaded(messages: seq<ParsedMessage>, enums: seq<ParsedEnum>, seen: seq<string>)

  ghost function AllImports(d: Disk): (s: set<string>) {
    set path, i | path in d.files && d.files[path].Ok? && 0 <= i < |d.files[path].value.imports| ::
      d.files[path].value.imports[i]
  }

  ghost function Elems(s: seq<string>): (e: set<string>) { set i | 0 <= i < |s| :: s[i] }

  /** The paths not yet seen that can still come up: what the recursion uses up. */
  ghost function Pending(d: Disk, imports: seq<string>, seen: seq<string>): (s: set<string>) {
    AllImports(d) + Elems(imports) - Elems(seen)
  }

  lemma {:induction false} FoundImports(d: Disk, dirs: seq<string>, path: string)
    ensures var f := FindIn(d, dirs, path);
            f.Some? && f.value.Ok? ==> Elems(f.value.value.imports) <= AllImports(d)
  {
    if dirs != [] && Join(dirs[0], path) !in d.files { FoundImports(d, dirs[1..], path); }
  }

  lemma {:induction false} PrefixElems(a: seq<string>, b: seq<string>)
    requires a <= b
    ensures Elems(a) <= Elems(b)
  {
    assert forall i :: 0 <= i < |a| ==> a[i] == b[i];
  }

  lemma {:induction false} SnocElems(a: seq<string>, p: string)
    ensures Elems(a + [p]) == Elems(a) + {p}
  {
    PrefixElems(a, a + [p]);
    assert (a + [p])[|a|] == p;
  }

  lemma {:induction false} SubsetSize(a: set<string>, b: set<string>)
    requires a <= b
    ensures |a| <= |b| && (a != b ==> |a| < |b|)
  {
    assert |b - a| + |a| == |b|;
    if a != b {
      var p :| p in b && p !in a;
      assert p in b - a;
    }
  }

  /** Following an unseen import uses up a pending path. */
  lemma {:induction false} FollowShrinks(d: Disk, imports: seq<string>, seen: seq<string>, p: string, more: seq<string>)
    requires p in imports && p !in seen && Elems(more) <= AllImports(d)
    ensures |Pending(d, more, seen + [p])| < |Pending(d, imports, seen)|
  {
    SnocElems(seen, p);
    var a, b := Pending(d, more, seen + [p]), Pending(d, imports, seen);
    assert p in b && p !in a;
    SubsetSize(a, b);
  }

  lemma {:induction false} RestShrinks(d: Disk, imports: seq<string>, seen: seq<string>, seen2: seq<string>)
    requires imports != [] && seen <= seen2
    ensures |Pending(d, imports[1..], seen2)| <= |Pending(d, imports, seen)|
  {
    PrefixElems(seen, seen2);
    SubsetSize(Pending(d, imports[1..], seen2), Pending(d, imports, seen));
  }

  /** The import loop, entered with the paths seen so far. */
  function Load(d: Disk, imports: seq<string>, seen: seq<string>): (r: Result<Loaded, string>)
    ensures r.Ok? ==> seen <= r.value.seen
    decreases |Pending(d, imports, seen)|, |imports|
  {
    if imports == [] then Ok(Loaded([], [], seen))
    else
      var p := imports[0];
      RestShrinks(d, imports, seen, seen);
      RestShrinks(d, imports, seen, seen + [p]);
      if WellKnown(p) || p in seen then Load(d, imports[1..], seen)
      else
        match Find(d, p)
        case None => Load(d, imports[1..], seen + [p])
        case Some(Err(e)) => Err(e)
        case Some(Ok(f)) =>
          FoundImports(d, d.dirs, p);
          FollowShrinks(d, imports, seen, p, f.imports);
          var sub :- Load(d, f.imports, seen + [p]);
          RestShrinks(d, imports, seen, sub.seen);
          var rest :- Load(d, imports[1..], sub.seen);
          Ok(Loaded(f.messages + sub.messages + rest.messages, f.enums + sub.enums + rest.enums, rest.seen))
  }

  /** The importing file with what its imports contribute appended. */
  function Merge(f: ProtoFile, l: Loaded): (m: ProtoFile) {
    f.(messages := f.messages + l.messages, enums := f.enums + l.enums)
  }

  /** `parse_proto_with_imports`. */
  function Resolve(d: Disk, parsed: Result<ProtoFile, string>): (r: Result<ProtoFile, string>) {
    var root :- parsed;
    var l :- Load(d, root.imports, []);
    Ok(Merge(root, l))
  }

  // ---- the recursive method over a shared `seen` set ----

  class Resolver {
    const disk: Disk
    var seen: set<string>
    ghost var order: seq<string>

    ghost predicate Valid()
      reads this
    {
      forall p :: p in seen <==> p in order
    }

    constructor (d: Disk)
      ensures Valid() && disk == d && order == []
    {
      disk, seen, order := d, {}, [];
    }

    /** One import path of the loop: skipped, missing, or followed. */
    method Follow(p: string, imports: seq<string>) returns (r: Result<ProtoFile, string>)
      requires Valid() && p in imports && !WellKnown(p) && p !in order
      modifies this`seen, this`order
      ensures Valid() && old(order) + [p] <= order
      ensures Find(disk, p).None? ==> order == old(order) + [p]
      ensures match Find(disk, p)
              case None => r.Ok? && r.value.messages == [] && r.value.enums == []
              case Some(Err(e)) => r == Err(e)
              case Some(Ok(f)) =>
                match Load(disk, f.imports, old(order) + [p])
                case Err(e) => r == Err(e)
                case Ok(l) =>
                  && order == l.seen
                  && r == Ok(Merge(f, l))
      decreases |Pending(disk, imports, order)|, 0
    {
      seen, order := seen + {p}, order + [p];
      var i := 0;
      while i < |disk.dirs|
        invariant i <= |disk.dirs| && Valid() && order == old(order) + [p]
        invariant Find(disk, p) == FindIn(disk, disk.dirs[i..], p)
      {
        var full := Join(disk.dirs[i], p);
        if full in disk.files {
          FoundImports(disk, disk.dirs, p);
          FollowShrinks(disk, imports, old(order), p,
                        if disk.files[full].Ok? then disk.files[full].value.imports else []);
          r := ParseRecursive(disk.files[full]);
          return;
        }
        assert disk.dirs[i..][1..] == disk.dirs[i + 1..];
        i := i + 1;
      }
      r := Ok(ProtoFile("", "", [], [], [], []));
    }

    method ParseRecursive(parsed: Result<ProtoFile, string>) returns (r: Result<ProtoFile, string>)
      requires Valid()
      modifies this`seen, this`order
      ensures Valid() && old(order) <= order
      ensures match parsed
              case Err(e) => r == Err(e)
              case Ok(f) =>
                match Load(disk, f.imports, old(order))
                case Err(e) => r == Err(e)
                case Ok(l) =>
                  && order == l.seen
                  && r == Ok(Merge(f, l))
      decreases if parsed.Ok? then |Pending(disk, parsed.value.imports, order)| else 0, 1
    {
      hide Load, Pending, Prepend, WellKnown, Find;
      if parsed.Err? { return parsed; }
      var root := parsed.value;
      var messages, enums, i := root.messages, root.enums, 0;
      ghost var addedM, addedE := [], [];
      PrependNothing(disk, root.imports, order);
      while i < |root.imports|
        invariant i <= |root.imports| && Valid() && old(order) <= order
        invariant messages == root.messages + addedM && enums == root.enums + addedE
        invariant Load(disk, root.imports, old(order))
               == Prepend(addedM, addedE, Load(disk, root.imports[i..], order))
      {
        var p := root.imports[i];
        assert root.imports[i..][1..] == root.imports[i + 1..] && root.imports[i..][0] == p;
        if !WellKnown(p) && p !in seen {
          ghost var before := order;
          PendingShrinks(disk, root.imports, old(order), order);
          var sub := Follow(p, root.imports);
          PrependLoad(disk, root.imports[i..], before, addedM, addedE);
          assert addedM + [] == addedM && addedE + [] == addedE;
          if sub.Err? { return sub; }
          messages, enums := messages + sub.value.messages, enums + sub.value.enums;
          addedM, addedE := addedM + sub.value.messages, addedE + sub.value.enums;
        } else {
          LoadSkips(disk, root.imports[i..], order);
        }
        i := i + 1;
      }
      assert root.imports[i..] == [];
      LoadNothing(disk, order, addedM, addedE);
      r := Ok(root.(messages := messages, enums := enums));
    }
  }

  function Prepend(ms: seq<ParsedMessage>, es: seq<ParsedEnum>, r: Result<Loaded, string>): (q: Result<Loaded, string>) {
    match r
    case Err(e) => Err(e)
    case Ok(l) => Ok(Loaded(ms + l.messages, es + l.enums, l.seen))
  }

  lemma {:induction false} PendingShrinks(d: Disk, imports: seq<string>, seen: seq<string>, seen2: seq<string>)
    requires seen <= seen2
    ensures |Pending(d, imports, seen2)| <= |Pending(d, imports, seen)|
  {
    PrefixElems(seen, seen2);
    SubsetSize(Pending(d, imports, seen2), Pending(d, imports, seen));
  }

  lemma {:induction false} LoadSkips(d: Disk, imports: seq<string>, seen: seq<string>)
    requires imports != [] && (WellKnown(imports[0]) || imports[0] in seen)
    ensures Load(d, imports, seen) == Load(d, imports[1..], seen)
  {
  }

  lemma {:induction false} LoadNothing(d: Disk, seen: seq<string>, ms: seq<ParsedMessage>, es: seq<ParsedEnum>)
    ensures Prepend(ms, es, Load(d, [], seen)) == Ok(Loaded(ms, es, seen))
  {
    assert ms + [] == ms && es + [] == es;
  }

  lemma {:induction false} PrependNothing(d: Disk, imports: seq<string>, seen: seq<string>)
    ensures imports[0..] == imports && Prepend([], [], Load(d, imports, seen)) == Load(d, imports, seen)
  {
    var r := Load(d, imports, seen);
    if r.Ok? { assert [] + r.value.messages == r.value.messages && [] + r.value.enums == r.value.enums; }
  }

  /** One turn of `Load` on a path that is followed, with what was gathered before it. */
  lemma {:induction false} PrependLoad(d: Disk, imports: seq<string>, seen: seq<string>,
                                       ms: seq<ParsedMessage>, es: seq<ParsedEnum>)
    requires imports != [] && !WellKnown(imports[0]) && imports[0] !in seen
    ensures var p, r := imports[0], Prepend(ms, es, Load(d, imports, seen));
            match Find(d, p)
            case None => r == Prepend(ms, es, Load(d, imports[1..], seen + [p]))
            case Some(Err(e)) => r == Err(e)
            case Some(Ok(f)) =>
              match Load(d, f.imports, seen + [p])
              case Err(e) => r == Err(e)
              case Ok(l) =>
                r == Prepend(ms + (f.messages + l.messages), es + (f.enums + l.enums), Load(d, imports[1..], l.seen))
  {
    var p := imports[0];
    if Readable(d, p) {
      var f := FileAt(d, p);
      var l := Load(d, f.imports, seen + [p]);
      if l.Ok? {
        var rest := Load(d, imports[1..], l.value.seen);
        if rest.Ok? {
          Cut(ms, f.messages + l.value.messages, rest.value.messages);
          Cut(es, f.enums + l.value.enums, rest.value.enums);
        }
      }
    }
  }

  // ---- which files a resolution expands ----

  /** A chain of imports, none built in: each path named by the file before it, every file but the last readable. */
  predicate Leads(d: Disk, imports: seq<string>, chain: seq<string>)
    decreases |chain|
  {
    && chain != [] && chain[0] in imports && !("google/protobuf/" <= chain[0])
    && (|chain| == 1 || (Readable(d, chain[0]) && Leads(d, FileAt(d, chain[0]).imports, chain[1..])))
  }

  ghost predicate Reachable(d: Disk, imports: seq<string>, p: string) {
    exists chain :: Leads(d, imports, chain) && chain[|chain| - 1] == p
  }

  lemma {:induction false} ReachDirect(d: Disk, imports: seq<string>, p: string)
    requires p in imports && !WellKnown(p)
    ensures Reachable(d, imports, p)
  {
    assert Leads(d, imports, [p]);
  }

  lemma {:induction false} ReachVia(d: Disk, imports: seq<string>, p: string, q: string)
    requires p in imports && !WellKnown(p) && Readable(d, p) && Reachable(d, FileAt(d, p).imports, q)
    ensures Reachable(d, imports, q)
  {
    hide Find;
    var chain :| Leads(d, FileAt(d, p).imports, chain) && chain[|chain| - 1] == q;
    var longer := [p] + chain;
    assert longer[1..] == chain && longer[0] == p && longer[|longer| - 1] == q;
    assert Leads(d, imports, longer);
  }

  lemma {:induction false} ReachMore(d: Disk, imports: seq<string>, q: string)
    requires imports != [] && Reachable(d, imports[1..], q)
    ensures Reachable(d, imports, q)
  {
    var chain :| Leads(d, imports[1..], chain) && chain[|chain| - 1] == q;
    assert Leads(d, imports, chain);
  }

  predicate NoRepeats(s: seq<string>) { forall i, j :: 0 <= i < j < |s| ==> s[i] != s[j] }

  /** The readable files along `order`, their messages end to end. */
  function GatherMessages(d: Disk, order: seq<string>): (ms: seq<ParsedMessage>) {
    if order == [] then []
    else (if Readable(d, order[0]) then FileAt(d, order[0]).messages else []) + GatherMessages(d, order[1..])
  }

  function GatherEnums(d: Disk, order: seq<string>): (es: seq<ParsedEnum>) {
    if order == [] then []
    else (if Readable(d, order[0]) then FileAt(d, order[0]).enums else []) + GatherEnums(d, order[1..])
  }

  lemma {:induction false} GatherConcat(d: Disk, a: seq<string>, b: seq<string>)
    ensures GatherMessages(d, a + b) == GatherMessages(d, a) + GatherMessages(d, b)
    ensures GatherEnums(d, a + b) == GatherEnums(d, a) + GatherEnums(d, b)
  {
    hide Readable, FileAt;
    if a == [] {
      assert a + b == b;
    } else {
      assert (a + b)[1..] == a[1..] + b;
      GatherConcat(d, a[1..], b);
    }
  }

  /** All the non-built-in imports have been met. */
  predicate Met(imports: seq<string>, seen: seq<string>) {
    forall i :: 0 <= i < |imports| && !WellKnown(imports[i]) ==> imports[i] in seen
  }

  lemma {:induction false} MetLater(imports: seq<string>, seen: seq<string>, later: seq<string>)
    requires Met(imports, seen) && seen <= later
    ensures Met(imports, later)
  {
    assert forall p :: p in seen ==> p in later;
  }

  /** A path met on the way parses if it is there, and its imports have been met too. */
  predicate Handled(d: Disk, p: string, seen: seq<string>) {
    Find(d, p).Some? ==> Find(d, p).value.Ok? && Met(FileAt(d, p).imports, seen)
  }

  /** Everything met since `from` is handled. */
  predicate HandledSince(d: Disk, from: seq<string>, seen: seq<string>) {
    forall i :: |from| <= i < |seen| ==> Handled(d, seen[i], seen)
  }

  /** The new part of `seen` is reachable and free of repeats, and its files make up the contribution. */
  ghost predicate Explains(d: Disk, imports: seq<string>, seen: seq<string>, l: Loaded) {
    && seen <= l.seen && NoRepeats(l.seen)
    && (forall i :: |seen| <= i < |l.seen| ==> Reachable(d, imports, l.seen[i]))
    && l.messages == GatherMessages(d, l.seen[|seen|..])
    && l.enums == GatherEnums(d, l.seen[|seen|..])
  }

  lemma {:induction false} HandledJoin(d: Disk, seen: seq<string>, p: string, mid: seq<string>, end: seq<string>)
    requires seen + [p] <= mid <= end && Handled(d, p, mid)
    requires HandledSince(d, seen + [p], mid) && HandledSince(d, mid, end)
    ensures HandledSince(d, seen, end)
  {
    hide Met, Find;
    forall i | |seen| <= i < |end| ensures Handled(d, end[i], end) {
      if i < |mid| {
        assert end[i] == mid[i];
        assert Handled(d, mid[i], mid) by { if i == |seen| { assert mid[i] == p; } }
        HandledLater(d, mid[i], mid, end);
      }
    }
  }

  lemma {:induction false} HandledLater(d: Disk, p: string, seen: seq<string>, later: seq<string>)
    requires Handled(d, p, seen) && seen <= later
    ensures Handled(d, p, later)
  {
    hide Met;
    if Readable(d, p) { MetLater(FileAt(d, p).imports, seen, later); }
  }

  lemma {:induction false} FoundFile(d: Disk, p: string)
    requires Readable(d, p)
    ensures Elems(FileAt(d, p).imports) <= AllImports(d)
  {
    FoundImports(d, d.dirs, p);
  }

  /** A completed loop has met its imports and handled everything it met. */
  lemma {:induction false} LoadHandles(d: Disk, imports: seq<string>, seen: seq<string>)
    requires Load(d, imports, seen).Ok?
    ensures var l := Load(d, imports, seen).value; Met(imports, l.seen) && HandledSince(d, seen, l.seen)
    decreases |Pending(d, imports, seen)|, |imports|
  {
    hide Find, WellKnown, Pending, Handled, HandledSince;
    var end := Load(d, imports, seen).value.seen;
    if imports == [] {
      NothingSince(d, seen);
    } else {
      var p := imports[0];
      RestShrinks(d, imports, seen, seen);
      RestShrinks(d, imports, seen, seen + [p]);
      if WellKnown(p) || p in seen {
        LoadHandles(d, imports[1..], seen);
      } else if Find(d, p).None? {
        LoadHandles(d, imports[1..], seen + [p]);
        assert seen + [p] <= seen + [p];
        HandledMissing(d, seen, p);
        HandledJoin(d, seen, p, seen + [p], end);
      } else {
        var f, sub := FileAt(d, p), Load(d, FileAt(d, p).imports, seen + [p]).value;
        FoundFile(d, p);
        FollowShrinks(d, imports, seen, p, f.imports);
        RestShrinks(d, imports, seen, sub.seen);
        LoadHandles(d, f.imports, seen + [p]);
        LoadHandles(d, imports[1..], sub.seen);
        HandledFound(d, p, sub.seen);
        HandledJoin(d, seen, p, sub.seen, end);
      }
      MetHead(imports, seen, end);
    }
  }

  lemma {:induction false} NothingSince(d: Disk, seen: seq<string>)
    ensures HandledSince(d, seen, seen)
  {
  }

  lemma {:induction false} HandledMissing(d: Disk, seen: seq<string>, p: string)
    requires Find(d, p).None?
    ensures Handled(d, p, seen + [p]) && HandledSince(d, seen + [p], seen + [p])
  {
  }

  lemma {:induction false} HandledFound(d: Disk, p: string, seen: seq<string>)
    requires Readable(d, p) && Met(FileAt(d, p).imports, seen)
    ensures Handled(d, p, seen)
  {
  }

  lemma {:induction false} MetHead(imports: seq<string>, seen: seq<string>, end: seq<string>)
    requires imports != [] && Met(imports[1..], end)
    requires WellKnown(imports[0]) || (imports[0] in seen && seen <= end) || seen + [imports[0]] <= end
    ensures Met(imports, end)
  {
    if seen + [imports[0]] <= end { assert end[|seen|] == imports[0]; }
    forall i | 0 <= i < |imports| && !WellKnown(imports[i]) ensures imports[i] in end {
      if i > 0 { assert imports[i] == imports[1..][i - 1]; }
    }
  }

  lemma {:induction false} NoRepeatsSnoc(seen: seq<string>, p: string)
    requires NoRepeats(seen) && p !in seen
    ensures NoRepeats(seen + [p])
  {
  }

  lemma {:induction false} ExplainSkip(d: Disk, imports: seq<string>, seen: seq<string>, l: Loaded)
    requires imports != [] && Explains(d, imports[1..], seen, l)
    ensures Explains(d, imports, seen, l)
  {
    hide Reachable, NoRepeats;
    forall i | |seen| <= i < |l.seen| ensures Reachable(d, imports, l.seen[i]) { ReachMore(d, imports, l.seen[i]); }
  }

  lemma {:induction false} ExplainMissing(d: Disk, imports: seq<string>, seen: seq<string>, l: Loaded)
    requires imports != [] && !WellKnown(imports[0]) && !Readable(d, imports[0])
    requires Explains(d, imports[1..], seen + [imports[0]], l)
    ensures Explains(d, imports, seen, l)
  {
    hide Reachable, NoRepeats, Readable;
    var p := imports[0];
    assert (seen + [p])[..|seen|] == seen && l.seen[|seen|] == (seen + [p])[|seen|];
    forall i | |seen| <= i < |l.seen| ensures Reachable(d, imports, l.seen[i]) {
      if i == |seen| { ReachDirect(d, imports, p); } else { ReachMore(d, imports, l.seen[i]); }
    }
    var tail := l.seen[|seen|..];
    assert tail[0] == p && tail[1..] == l.seen[|seen + [p]|..];
  }

  lemma {:induction false} ExplainFollow(d: Disk, imports: seq<string>, seen: seq<string>, s: Loaded, t: Loaded)
    requires imports != [] && !WellKnown(imports[0]) && Readable(d, imports[0])
    requires Explains(d, FileAt(d, imports[0]).imports, seen + [imports[0]], s) && Explains(d, imports[1..], s.seen, t)
    ensures var f := FileAt(d, imports[0]);
            Explains(d, imports, seen, Loaded(f.messages + s.messages + t.messages, f.enums + s.enums + t.enums, t.seen))
  {
    hide Reachable, NoRepeats, Readable, FileAt;
    var p, k := imports[0], |seen| + 1;
    assert s.seen[|seen|] == (seen + [p])[|seen|] == p;
    forall i | |seen| <= i < |t.seen| ensures Reachable(d, imports, t.seen[i]) {
      if i == |seen| { ReachDirect(d, imports, p); }
      else if i < |s.seen| {
        assert t.seen[i] == s.seen[i];
        ReachVia(d, imports, p, s.seen[i]);
      } else { ReachMore(d, imports, t.seen[i]); }
    }
    assert t.seen[|seen|..] == [p] + (s.seen[k..] + t.seen[|s.seen|..]);
    GatherConcat(d, s.seen[k..], t.seen[|s.seen|..]);
    Cut(FileAt(d, p).messages, s.messages, t.messages);
    Cut(FileAt(d, p).enums, s.enums, t.enums);
  }

  lemma {:induction false} ExplainNothing(d: Disk, seen: seq<string>)
    requires NoRepeats(seen)
    ensures Explains(d, [], seen, Loaded([], [], seen))
  {
    assert seen[|seen|..] == [];
  }

  /** A completed loop met only reachable paths, each once, and gathered their files in that order. */
  lemma {:induction false} LoadExplains(d: Disk, imports: seq<string>, seen: seq<string>)
    requires NoRepeats(seen) && Load(d, imports, seen).Ok?
    ensures Explains(d, imports, seen, Load(d, imports, seen).value)
    decreases |Pending(d, imports, seen)|, |imports|
  {
    hide Find, WellKnown, Pending, Explains, NoRepeats;
    if imports == [] {
      ExplainNothing(d, seen);
    } else {
      var p := imports[0];
      RestShrinks(d, imports, seen, seen);
      RestShrinks(d, imports, seen, seen + [p]);
      if WellKnown(p) || p in seen {
        LoadExplains(d, imports[1..], seen);
        ExplainSkip(d, imports, seen, Load(d, imports, seen).value);
      } else {
        NoRepeatsSnoc(seen, p);
        if Find(d, p).None? {
          LoadExplains(d, imports[1..], seen + [p]);
          ExplainMissing(d, imports, seen, Load(d, imports, seen).value);
        } else {
          var f, s := FileAt(d, p), Load(d, FileAt(d, p).imports, seen + [p]).value;
          FoundFile(d, p);
          FollowShrinks(d, imports, seen, p, f.imports);
          RestShrinks(d, imports, seen, s.seen);
          LoadExplains(d, f.imports, seen + [p]);
          assert NoRepeats(s.seen) by { ExplainedOnce(d, f.imports, seen + [p], s); }
          LoadExplains(d, imports[1..], s.seen);
          ExplainFollow(d, imports, seen, s, Load(d, imports[1..], s.seen).value);
        }
      }
    }
  }

  lemma {:induction false} ExplainedOnce(d: Disk, imports: seq<string>, seen: seq<string>, l: Loaded)
    requires Explains(d, imports, seen, l)
    ensures NoRepeats(l.seen)
  {
  }

  /** A failed loop points at a reachable file that is there and does not parse. */
  lemma {:induction false} LoadFails(d: Disk, imports: seq<string>, seen: seq<string>) returns (p: string)
    requires Load(d, imports, seen).Err?
    ensures Reachable(d, imports, p) && Find(d, p) == Some(Err(Load(d, imports, seen).error))
    decreases |Pending(d, imports, seen)|, |imports|
  {
    hide Find, WellKnown, Pending, Reachable;
    var h := imports[0];
    RestShrinks(d, imports, seen, seen);
    RestShrinks(d, imports, seen, seen + [h]);
    if WellKnown(h) || h in seen {
      p := LoadFails(d, imports[1..], seen);
      ReachMore(d, imports, p);
    } else if Find(d, h).None? {
      p := LoadFails(d, imports[1..], seen + [h]);
      ReachMore(d, imports, p);
    } else if Find(d, h).value.Err? {
      p := h;
      ReachDirect(d, imports, h);
    } else {
      var f := FileAt(d, h);
      FoundFile(d, h);
      FollowShrinks(d, imports, seen, h, f.imports);
      if Load(d, f.imports, seen + [h]).Err? {
        p := LoadFails(d, f.imports, seen + [h]);
        ReachVia(d, imports, h, p);
      } else {
        var s := Load(d, f.imports, seen + [h]).value.seen;
        RestShrinks(d, imports, seen, s);
        p := LoadFails(d, imports[1..], s);
        ReachMore(d, imports, p);
      }
    }
  }

  /** From a list that has been met, through handled files, every chain stays inside `seen`. */
  lemma {:induction false} ChainInside(d: Disk, imports: seq<string>, seen: seq<string>, chain: seq<string>)
    requires Met(imports, seen) && HandledSince(d, [], seen) && Leads(d, imports, chain)
    ensures chain[|chain| - 1] in seen
    decreases |chain|
  {
    hide Find;
    var k :| 0 <= k < |imports| && imports[k] == chain[0];
    assert chain[0] in seen;
    if |chain| > 1 {
      var i :| 0 <= i < |seen| && seen[i] == chain[0];
      assert Handled(d, seen[i], seen);
      ChainInside(d, FileAt(d, chain[0]).imports, seen, chain[1..]);
    }
  }

  lemma {:induction false} ReachInside(d: Disk, imports: seq<string>, seen: seq<string>, p: string)
    requires Met(imports, seen) && HandledSince(d, [], seen) && Reachable(d, imports, p)
    ensures p in seen && Handled(d, p, seen)
  {
    hide Handled, Met, Find;
    var chain :| Leads(d, imports, chain) && chain[|chain| - 1] == p;
    ChainInside(d, imports, seen, chain);
    var i :| 0 <= i < |seen| && seen[i] == p;
  }

  /** Every reachable file that is there parses. */
  ghost predicate AllParse(d: Disk, imports: seq<string>) {
    forall p :: Reachable(d, imports, p) && Find(d, p).Some? ==> Find(d, p).value.Ok?
  }

  /**
    On any import graph, cyclic or not, resolution ends; it fails exactly when a reachable file is
    there and does not parse; and otherwise it appends to the root the messages and enums of
    exactly the reachable files, each file once, in the order the paths were first met.
  */
  lemma {:induction false} ResolveExact(d: Disk, root: ProtoFile) returns (order: seq<string>)
    ensures Resolve(d, Ok(root)).Ok? <==> AllParse(d, root.imports)
    ensures Resolve(d, Ok(root)).Ok? ==>
              && NoRepeats(order) && (forall p :: p in order <==> Reachable(d, root.imports, p))
              && Resolve(d, Ok(root)).value
                 == root.(messages := root.messages + GatherMessages(d, order),
                          enums := root.enums + GatherEnums(d, order))
  {
    hide Load, Find, Reachable, Met, HandledSince, Handled, GatherMessages, GatherEnums;
    order := [];
    if Load(d, root.imports, []).Err? {
      var p := LoadFails(d, root.imports, []);
    } else {
      var l := Load(d, root.imports, []).value;
      order := l.seen;
      LoadHandles(d, root.imports, []);
      LoadExplains(d, root.imports, []);
      assert order[0..] == order;
      forall p | Reachable(d, root.imports, p) ensures p in order && (Find(d, p).Some? ==> Find(d, p).value.Ok?) {
        ReachInside(d, root.imports, order, p);
        HandledParses(d, p, order);
      }
    }
  }

  lemma {:induction false} HandledParses(d: Disk, p: string, seen: seq<string>)
    requires Handled(d, p, seen)
    ensures Find(d, p).Some? ==> Find(d, p).value.Ok?
  {
  }

  /** A definition that only the file at `p` has is gathered once if that path was met, and else not at all. */
  lemma {:induction false} GatherCount(d: Disk, order: seq<string>, p: string, m: ParsedMessage)
    requires NoRepeats(order) && Readable(d, p)
    requires forall q :: q in order && q != p && Readable(d, q) ==> m !in FileAt(d, q).messages
    ensures multiset(GatherMessages(d, order))[m] == if p in order then multiset(FileAt(d, p).messages)[m] else 0
  {
    hide Readable, FileAt;
    if order != [] {
      var q, rest := order[0], order[1..];
      assert order == [q] + rest;
      assert forall x :: x in rest ==> x in order;
      GatherCount(d, rest, p, m);
      if q == p { assert p !in rest; }
    }
  }

  /**
    The path of the root file itself is not in `seen` at the start: the root's own definitions appear twice
    if and only if its path is reachable from its imports.
  */
  lemma {:induction false} RootTwiceIff(d: Disk, p: string, m: ParsedMessage)
    requires Readable(d, p) && m in FileAt(d, p).messages && Resolve(d, Ok(FileAt(d, p))).Ok?
    requires forall q :: Reachable(d, FileAt(d, p).imports, q) && q != p && Readable(d, q) ==> m !in FileAt(d, q).messages
    ensures var root := FileAt(d, p);
            var found := multiset(Resolve(d, Ok(root)).value.messages)[m];
            found == multiset(root.messages)[m] * (if Reachable(d, root.imports, p) then 2 else 1)
  {
    hide Readable, FileAt, Reachable, Resolve, NoRepeats;
    var root := FileAt(d, p);
    var order := ResolveExact(d, root);
    GatherCount(d, order, p, m);
  }
}
