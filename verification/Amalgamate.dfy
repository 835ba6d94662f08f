/** The include walk of the single-header generator (tools/amalgamate.py:145-238). */
module Amalgamate {
  import opened Collections

  type Path = string

  /** What a line of a header is to the walk; local includes are given resolved. */
  datatype Line =
    | Opens(text: string)                         // #if, #ifdef, #ifndef
    | Closes(text: string)                        // #endif
    | SystemInclude(token: string, text: string)
    | LocalInclude(target: Path)
    | Other(text: string)                         // among them excluded and unresolvable includes

  type Tree = map<Path, seq<Line>>

  datatype Chunk = Chunk(path: Path, text: string)

  // ---------------------------------------------------------------- one header

  function Deeper(line: Line, depth: nat): (d: nat) {
    if line.Opens? then depth + 1 else if line.Closes? && depth > 0 then depth - 1 else depth
  }

  function KeptLine(line: Line, depth: nat): (k: seq<string>) {
    match line
    case LocalInclude(_) => []
    case SystemInclude(_, text) => if depth > 0 then [text] else []
    case Opens(text) => [text]
    case Closes(text) => [text]
    case Other(text) => [text]
  }

  /** The lines left in place: a system include only inside a conditional. */
  function Kept(lines: seq<Line>, depth: nat): (k: seq<string>) {
    if |lines| == 0 then []
    else KeptLine(lines[0], Deeper(lines[0], depth)) + Kept(lines[1..], Deeper(lines[0], depth))
  }

  function HoistedLine(line: Line, depth: nat): (s: set<string>) {
    if line.SystemInclude? && depth == 0 then {line.token} else {}
  }

  /** The system includes outside every conditional. */
  function Hoisted(lines: seq<Line>, depth: nat): (s: set<string>) {
    if |lines| == 0 then {}
    else HoistedLine(lines[0], Deeper(lines[0], depth)) + Hoisted(lines[1..], Deeper(lines[0], depth))
  }

  function TargetLine(line: Line): (s: set<Path>) {
    if line.LocalInclude? then {line.target} else {}
  }

  function Targets(lines: seq<Line>): (s: set<Path>) {
    if |lines| == 0 then {} else TargetLine(lines[0]) + Targets(lines[1..])
  }

  /** The first `i` lines are behind: `output` is what they left. */
  ghost predicate Scanned(lines: seq<Line>, i: nat, depth: nat, output: seq<string>)
    requires i <= |lines|
  {
    && Kept(lines, 0) == output + Kept(lines[i..], depth)
    && Hoisted(lines[i..], depth) <= Hoisted(lines, 0)
    && Targets(lines[i..]) <= Targets(lines)
  }

  lemma ScanStart(lines: seq<Line>)
    ensures Scanned(lines, 0, 0, [])
  {
    assert lines[0..] == lines && [] + Kept(lines, 0) == Kept(lines, 0);
  }

  lemma ScanLine(lines: seq<Line>, i: nat, depth: nat, output: seq<string>)
    requires i < |lines| && Scanned(lines, i, depth, output)
    ensures var d := Deeper(lines[i], depth);
      && Scanned(lines, i + 1, d, output + KeptLine(lines[i], d))
      && HoistedLine(lines[i], d) <= Hoisted(lines, 0) && TargetLine(lines[i]) <= Targets(lines)
      && Hoisted(lines[i..], depth) == HoistedLine(lines[i], d) + Hoisted(lines[i + 1..], d)
      && Targets(lines[i..]) == TargetLine(lines[i]) + Targets(lines[i + 1..])
  {
    var d := Deeper(lines[i], depth);
    assert lines[i..][0] == lines[i] && lines[i..][1..] == lines[i + 1..];
    var a, b := KeptLine(lines[i], d), Kept(lines[i + 1..], d);
    assert output + (a + b) == (output + a) + b;
  }

  lemma ScanEnd(lines: seq<Line>, depth: nat, output: seq<string>)
    requires Scanned(lines, |lines|, depth, output)
    ensures output == Kept(lines, 0) && Hoisted(lines[|lines|..], depth) == {} && Targets(lines[|lines|..]) == {}
  {
    assert output + [] == output;
  }

  // ---------------------------------------------------------------- conditionals

  /** Conditionals opened less those closed from line `j` up to line `n`. */
  function Net(lines: seq<Line>, j: nat, n: nat): (k: int)
    requires n <= |lines|
  {
    if j >= n then 0
    else Net(lines, j, n - 1) + (if lines[n - 1].Opens? then 1 else if lines[n - 1].Closes? then -1 else 0)
  }

  /** Line `i` lies inside a conditional: from some line on to this one, more were opened than closed. */
  ghost predicate Inside(lines: seq<Line>, i: nat)
    requires i < |lines|
  {
    var n := i + 1;
    exists j: nat :: j <= i && Net(lines, j, n) > 0
  }

  /** The depth after `n` lines. */
  ghost function DepthAfter(lines: seq<Line>, n: nat): (d: nat)
    requires n <= |lines|
  {
    if n == 0 then 0 else Deeper(lines[n - 1], DepthAfter(lines, n - 1))
  }

  /** It is the most that is open from some line on; what is closed and was never opened does not count. */
  lemma {:induction false} DepthIsOpen(lines: seq<Line>, n: nat) returns (j: nat)
    requires n <= |lines|
    ensures j <= n && Net(lines, j, n) == DepthAfter(lines, n)
    ensures forall k: nat :: k <= n ==> Net(lines, k, n) <= DepthAfter(lines, n)
  {
    if n == 0 {
      j := 0;
    } else {
      j := DepthIsOpen(lines, n - 1);
      if lines[n - 1].Closes? && DepthAfter(lines, n - 1) == 0 {
        j := n;
      }
      forall k: nat | k <= n
        ensures Net(lines, k, n) <= DepthAfter(lines, n)
      {
        assert k < n ==> Net(lines, k, n - 1) <= DepthAfter(lines, n - 1);
      }
    }
  }

  lemma InsideIsDepth(lines: seq<Line>, i: nat)
    requires i < |lines|
    ensures Inside(lines, i) <==> DepthAfter(lines, i + 1) > 0
  {
    var j := DepthIsOpen(lines, i + 1);
    if DepthAfter(lines, i + 1) > 0 {
      assert j <= i && Net(lines, j, i + 1) > 0;
    }
  }

  /** A line stays where it is unless it is a resolved include, or a system include outside every conditional. */
  ghost predicate Stays(lines: seq<Line>, i: nat)
    requires i < |lines|
  {
    !lines[i].LocalInclude? && (lines[i].SystemInclude? ==> Inside(lines, i))
  }

  /** The texts of the lines before `n` that stay, in order. */
  ghost function Staying(lines: seq<Line>, n: nat): (k: seq<string>)
    requires n <= |lines|
  {
    if n == 0 then []
    else Staying(lines, n - 1) + (if Stays(lines, n - 1) then [lines[n - 1].text] else [])
  }

  ghost predicate Lifts(lines: seq<Line>, i: nat, token: string) {
    i < |lines| && lines[i].SystemInclude? && lines[i].token == token && !Inside(lines, i)
  }

  lemma {:induction false} StayingSoFar(lines: seq<Line>, n: nat)
    requires n <= |lines|
    ensures Kept(lines, 0) == Staying(lines, n) + Kept(lines[n..], DepthAfter(lines, n))
  {
    hide Kept, Inside;
    if n == 0 {
      assert lines[0..] == lines && [] + Kept(lines, 0) == Kept(lines, 0);
    } else {
      StayingSoFar(lines, n - 1);
      InsideIsDepth(lines, n - 1);
      KeptStep(lines, n - 1, DepthAfter(lines, n - 1));
      Regroup(Staying(lines, n - 1), KeptLine(lines[n - 1], DepthAfter(lines, n)), Kept(lines[n..], DepthAfter(lines, n)));
    }
  }

  lemma KeptStep(lines: seq<Line>, i: nat, d: nat)
    requires i < |lines|
    ensures Kept(lines[i..], d) == KeptLine(lines[i], Deeper(lines[i], d)) + Kept(lines[i + 1..], Deeper(lines[i], d))
    ensures Hoisted(lines[i..], d) == HoistedLine(lines[i], Deeper(lines[i], d)) + Hoisted(lines[i + 1..], Deeper(lines[i], d))
  {
    assert lines[i..][0] == lines[i] && lines[i..][1..] == lines[i + 1..];
  }

  lemma Regroup(a: seq<string>, b: seq<string>, c: seq<string>)
    ensures a + (b + c) == (a + b) + c
  {
  }

  /** What is left of a header is the lines that stay. */
  lemma KeptExactly(lines: seq<Line>)
    ensures Kept(lines, 0) == Staying(lines, |lines|)
  {
    StayingSoFar(lines, |lines|);
    assert Kept(lines[|lines|..], DepthAfter(lines, |lines|)) == [];
  }

  lemma {:induction false} LiftedSoFar(lines: seq<Line>, n: nat, token: string)
    requires n <= |lines|
    ensures token in Hoisted(lines, 0) <==>
      (exists i: nat :: i < n && Lifts(lines, i, token)) || token in Hoisted(lines[n..], DepthAfter(lines, n))
  {
    hide Hoisted, Inside;
    if n == 0 {
      assert lines[0..] == lines;
    } else {
      LiftedSoFar(lines, n - 1, token);
      InsideIsDepth(lines, n - 1);
      KeptStep(lines, n - 1, DepthAfter(lines, n - 1));
      assert token in HoistedLine(lines[n - 1], DepthAfter(lines, n)) <==> Lifts(lines, n - 1, token);
    }
  }

  /** The system includes that move to the top are those outside every conditional. */
  lemma HoistedExactly(lines: seq<Line>, token: string)
    ensures token in Hoisted(lines, 0) <==> exists i: nat :: Lifts(lines, i, token)
  {
    LiftedSoFar(lines, |lines|, token);
    assert Hoisted(lines[|lines|..], DepthAfter(lines, |lines|)) == {};
  }

  /** The headers a header includes. */
  lemma {:induction false} TargetsExactly(lines: seq<Line>, q: Path)
    ensures q in Targets(lines) <==> LocalInclude(q) in lines
  {
    if |lines| > 0 {
      TargetsExactly(lines[1..], q);
      assert lines == [lines[0]] + lines[1..];
    }
  }

  // ---------------------------------------------------------------- the include graph

  /** Every resolved include is a file. */
  ghost predicate Closed(tree: Tree) {
    forall p, q :: p in tree && q in Targets(tree[p]) ==> q in tree
  }

  ghost predicate Edge(tree: Tree, p: Path, q: Path) {
    p in tree && q in Targets(tree[p])
  }

  ghost predicate Walk(tree: Tree, w: seq<Path>) {
    |w| > 0 && forall i :: 0 <= i < |w| - 1 ==> Edge(tree, w[i], w[i + 1])
  }

  ghost predicate Joins(tree: Tree, w: seq<Path>, p: Path, q: Path) {
    Walk(tree, w) && w[0] == p && w[|w| - 1] == q
  }

  /** `p` includes `q`, directly, through others, or by being it. */
  ghost predicate Reaches(tree: Tree, p: Path, q: Path) {
    exists w :: Joins(tree, w, p, q)
  }

  lemma ReachesSelf(tree: Tree, p: Path)
    ensures Reaches(tree, p, p)
  {
    assert Joins(tree, [p], p, p);
  }

  lemma ReachesNext(tree: Tree, p: Path, q: Path, r: Path)
    requires Reaches(tree, p, q) && Edge(tree, q, r)
    ensures Reaches(tree, p, r)
  {
    var w :| Joins(tree, w, p, q);
    var v := w + [r];
    forall i | 0 <= i < |v| - 1
      ensures Edge(tree, v[i], v[i + 1])
    {
      assert i < |w| - 1 ==> Edge(tree, w[i], w[i + 1]);
    }
    assert Joins(tree, v, p, r);
  }

  /** A set closed under inclusion holds whatever its members reach. */
  lemma {:induction false} ClosedReach(tree: Tree, s: set<Path>, w: seq<Path>, p: Path, q: Path)
    requires p in s && Joins(tree, w, p, q)
    requires forall x, y :: x in s && Edge(tree, x, y) ==> y in s
    ensures q in s
    decreases |w|
  {
    if |w| > 1 {
      assert Edge(tree, w[0], w[0 + 1]);
      var v := w[1..];
      forall i | 0 <= i < |v| - 1
        ensures Edge(tree, v[i], v[i + 1])
      {
        assert Edge(tree, w[i + 1], w[i + 1 + 1]);
      }
      ClosedReach(tree, s, v, w[1], q);
    }
  }

  /** Whatever the headers of `s` include is among them, or reaches `p`. */
  ghost predicate ClosedBut(tree: Tree, s: seq<Path>, p: Path) {
    forall x, y :: x in s && Edge(tree, x, y) ==> y in s || Reaches(tree, y, p)
  }

  /** Headers in the order they were finished: when one is, all that is still missing includes it. */
  ghost predicate Ordered(tree: Tree, done: seq<Path>) {
    forall i :: 0 <= i < |done| ==> ClosedBut(tree, done[..i + 1], done[i])
  }

  /** The chunks the finished headers give; a header that comes to nothing gives none. */
  ghost function Emitted(tree: Tree, clean: seq<string> -> string, done: seq<Path>): (c: seq<Chunk>)
    requires forall p :: p in done ==> p in tree
  {
    if |done| == 0 then []
    else
      var p := done[|done| - 1];
      var text := clean(Kept(tree[p], 0));
      Emitted(tree, clean, done[..|done| - 1]) + (if text == "" then [] else [Chunk(p, text)])
  }

  // ---------------------------------------------------------------- the walk

  class Walker {
    const tree: Tree
    const clean: seq<string> -> string   // strip_include_guards, then nothing if only whitespace is left
    var visited: set<Path>
    var systemSeen: set<string>
    var systemIncludes: seq<string>
    var bodyChunks: seq<Chunk>
    ghost var done: seq<Path>            // headers finished, in order

    constructor (t: Tree, c: seq<string> -> string)
      ensures tree == t && clean == c && visited == {} && done == [] && Valid({})
    {
      tree, clean := t, c;
      visited, systemSeen, systemIncludes, bodyChunks, done := {}, {}, [], [], [];
    }

    /** The headers in `open` are begun, the other visited ones are done. */
    ghost predicate Valid(open: set<Path>)
      reads this
    {
      && visited <= tree.Keys
      && (forall p :: p in done <==> p in visited && p !in open)
      && Unique(done) && Ordered(tree, done)
      && (forall p, q :: p in done && Edge(tree, p, q) ==> q in visited)
      && bodyChunks == Emitted(tree, clean, done)
      && Unique(systemIncludes) && (forall t :: t in systemIncludes <==> t in systemSeen)
      && (forall p, t :: p in done && t in Hoisted(tree[p], 0) ==> t in systemSeen)
      && (forall t :: t in systemSeen ==> exists p :: p in visited && t in Hoisted(tree[p], 0))
    }

    /** A header is begun. */
    method Begin(path: Path, ghost open: set<Path>)
      requires Valid(open) && path in tree && path !in visited
      modifies this`visited
      ensures visited == old(visited) + {path} && Valid(open + {path})
    {
      visited := visited + {path};
    }

    /** A system include outside every conditional is listed once. */
    method Hoist(token: string, path: Path, ghost open: set<Path>)
      requires Valid(open) && path in visited && token in Hoisted(tree[path], 0)
      modifies this`systemSeen, this`systemIncludes
      ensures Valid(open) && systemSeen == old(systemSeen) + {token}
    {
      if token !in systemSeen {
        systemSeen := systemSeen + {token};
        systemIncludes := systemIncludes + [token];
      }
    }

    /** A header whose includes are all begun is finished, and emitted unless it comes to nothing. */
    method Finish(path: Path, output: seq<string>, ghost open: set<Path>)
      requires Valid(open + {path}) && path in visited && path !in open && output == Kept(tree[path], 0)
      requires forall g :: g in open ==> Reaches(tree, g, path)
      requires forall q :: q in Targets(tree[path]) ==> q in visited
      requires forall t :: t in Hoisted(tree[path], 0) ==> t in systemSeen
      modifies this`bodyChunks, this`done
      ensures Valid(open) && done == old(done) + [path]
    {
      hide Kept, Hoisted, Targets, Reaches, ClosedBut;
      var text := clean(output);
      assert forall x, y :: x in done + [path] && Edge(tree, x, y) ==> y in visited;
      FinishOrdered(tree, done, path, open);
      assert (done + [path])[..|done|] == done;
      assert forall p :: p in done + [path] <==> p in done || p == path;
      done := done + [path];
      if text == "" {
        assert bodyChunks + [] == bodyChunks;
        return;
      }
      bodyChunks := bodyChunks + [Chunk(path, text)];
    }

    /** `process_file`. */
    method Process(path: Path, ghost open: set<Path>)
      requires Closed(tree) && path in tree && Valid(open) && open <= visited
      requires forall g :: g in open ==> Reaches(tree, g, path)
      modifies this
      ensures Valid(open) && path in visited && old(visited) <= visited && old(systemSeen) <= systemSeen
      ensures forall v :: v in visited ==> v in old(visited) || Reaches(tree, path, v)
      decreases tree.Keys - visited, 1
    {
      hide Valid, Reaches, Unique, Scanned, Kept, Hoisted, Targets;
      if path in visited {
        return;
      }
      Begin(path, open);
      ReachesSelf(tree, path);
      var lines := tree[path];
      var output: seq<string> := [];
      var depth := 0;
      ScanStart(lines);
      assert lines[0..] == lines;
      for i := 0 to |lines|
        invariant Valid(open + {path}) && old(visited) + {path} <= visited && old(systemSeen) <= systemSeen
        invariant Scanned(lines, i, depth, output)
        invariant Hoisted(lines, 0) <= systemSeen + Hoisted(lines[i..], depth)
        invariant Targets(lines) <= visited + Targets(lines[i..])
        invariant forall v :: v in visited ==> v in old(visited) || Reaches(tree, path, v)
      {
        var line := lines[i];
        ScanLine(lines, i, depth, output);
        depth := Deeper(line, depth);
        assert output + [] == output;
        match line {
          case LocalInclude(target) => Include(path, target, open);
          case SystemInclude(token, text) =>
            if depth > 0 {
              output := output + [text];
            } else {
              Hoist(token, path, open + {path});
            }
          case Opens(text) => output := output + [text];
          case Closes(text) => output := output + [text];
          case Other(text) => output := output + [text];
        }
      }
      ScanEnd(lines, depth, output);
      Finish(path, output, open);
    }

    /** The recursion into a resolved include. */
    method Include(path: Path, target: Path, ghost open: set<Path>)
      requires Closed(tree) && path in visited && path !in open && Edge(tree, path, target)
      requires Valid(open + {path}) && open <= visited
      requires forall g :: g in open ==> Reaches(tree, g, path)
      modifies this
      ensures Valid(open + {path}) && target in visited && old(visited) <= visited && old(systemSeen) <= systemSeen
      ensures forall v :: v in visited ==> v in old(visited) || Reaches(tree, path, v)
      decreases tree.Keys - visited, 2
    {
      hide Valid, Reaches;
      Descend(open, path, target);
      Process(target, open + {path});
      Arrive(path, target);
    }

    /** What the open headers reach is passed down an include. */
    lemma Descend(open: set<Path>, path: Path, target: Path)
      requires Edge(tree, path, target) && forall g :: g in open ==> Reaches(tree, g, path)
      ensures forall g :: g in open + {path} ==> Reaches(tree, g, target)
    {
      ReachesSelf(tree, path);
      forall g | g in open + {path}
        ensures Reaches(tree, g, target)
      {
        ReachesNext(tree, g, path, target);
      }
    }

    /** What an included header reaches, the including one reaches. */
    lemma Arrive(path: Path, target: Path)
      requires Edge(tree, path, target)
      ensures forall v :: Reaches(tree, target, v) ==> Reaches(tree, path, v)
    {
      forall v | Reaches(tree, target, v)
        ensures Reaches(tree, path, v)
      {
        ReachesBefore(tree, path, target, v);
      }
    }
  }

  lemma ReachesBefore(tree: Tree, p: Path, q: Path, r: Path)
    requires Edge(tree, p, q) && Reaches(tree, q, r)
    ensures Reaches(tree, p, r)
  {
    var w :| Joins(tree, w, q, r);
    var v := [p] + w;
    forall i | 0 <= i < |v| - 1
      ensures Edge(tree, v[i], v[i + 1])
    {
      if i > 0 {
        assert Edge(tree, w[i - 1], w[i - 1 + 1]);
      }
    }
    assert Joins(tree, v, p, r);
  }

  lemma FinishOrdered(tree: Tree, done: seq<Path>, path: Path, open: set<Path>)
    requires Ordered(tree, done) && forall g :: g in open ==> Reaches(tree, g, path)
    requires forall x, y :: x in done + [path] && Edge(tree, x, y) ==> y in done + [path] || y in open
    ensures Ordered(tree, done + [path])
  {
    var d := done + [path];
    forall i | 0 <= i < |d|
      ensures ClosedBut(tree, d[..i + 1], d[i])
    {
      if i < |done| {
        assert d[..i + 1] == done[..i + 1];
        assert ClosedBut(tree, done[..i + 1], done[i]);
      } else {
        assert d[..i + 1] == d;
      }
    }
  }

  /** A walk of at least one include from `p` that no way leads back from. */
  ghost predicate OneWay(tree: Tree, w: seq<Path>, p: Path) {
    |w| > 1 && Walk(tree, w) && w[0] == p && forall k :: 1 <= k < |w| ==> !Reaches(tree, w[k], p)
  }

  /** All of it was finished before `p` was. */
  lemma {:induction false} FinishedBefore(tree: Tree, done: seq<Path>, i: nat, w: seq<Path>, k: nat)
    requires Ordered(tree, done) && i < |done| && OneWay(tree, w, done[i]) && k < |w|
    ensures w[k] in done[..i + 1] && (k > 0 ==> w[k] in done[..i])
  {
    if k > 0 {
      FinishedBefore(tree, done, i, w, k - 1);
      assert ClosedBut(tree, done[..i + 1], done[i]);
      assert Edge(tree, w[k - 1], w[k - 1 + 1]);
      ReachesSelf(tree, done[i]);
      assert done[..i + 1] == done[..i] + [done[i]];
    }
  }

  // ---------------------------------------------------------------- what the walk emits

  ghost predicate Shown(tree: Tree, clean: seq<string> -> string, p: Path) {
    p in tree && clean(Kept(tree[p], 0)) != ""
  }

  lemma {:induction false} EmittedPaths(tree: Tree, clean: seq<string> -> string, done: seq<Path>, p: Path)
    requires forall q :: q in done ==> q in tree
    ensures (exists c :: c in Emitted(tree, clean, done) && c.path == p) <==> p in done && Shown(tree, clean, p)
    ensures forall c :: c in Emitted(tree, clean, done) && c.path == p ==> p in tree && c.text == clean(Kept(tree[p], 0))
  {
    if |done| > 0 {
      var last := done[|done| - 1];
      EmittedPaths(tree, clean, done[..|done| - 1], p);
      assert done == done[..|done| - 1] + [last];
      if p == last && Shown(tree, clean, p) {
        assert Chunk(p, clean(Kept(tree[p], 0))) in Emitted(tree, clean, done);
      }
    }
  }

  /** The chunk at `i` comes from a finished header, the earlier chunks from those finished before it. */
  lemma {:induction false} EmittedAt(tree: Tree, clean: seq<string> -> string, done: seq<Path>, i: nat) returns (k: nat)
    requires forall q :: q in done ==> q in tree
    requires i < |Emitted(tree, clean, done)|
    ensures k < |done| && done[k] == Emitted(tree, clean, done)[i].path
    ensures Emitted(tree, clean, done)[..i] == Emitted(tree, clean, done[..k])
  {
    var n := |done| - 1;
    var before := Emitted(tree, clean, done[..n]);
    if i < |before| {
      k := EmittedAt(tree, clean, done[..n], i);
      assert done[..n][..k] == done[..k];
      assert Emitted(tree, clean, done)[..i] == before[..i];
    } else {
      k := n;
      assert Emitted(tree, clean, done)[..i] == before;
    }
  }

  /** No header is emitted twice. */
  ghost predicate OncePerHeader(chunks: seq<Chunk>) {
    forall i, j :: 0 <= i < j < |chunks| ==> chunks[i].path != chunks[j].path
  }

  lemma EmittedOnce(tree: Tree, clean: seq<string> -> string, done: seq<Path>)
    requires Unique(done) && forall q :: q in done ==> q in tree
    ensures OncePerHeader(Emitted(tree, clean, done))
  {
    var c := Emitted(tree, clean, done);
    forall i, j | 0 <= i < j < |c|
      ensures c[i].path != c[j].path
    {
      var k := EmittedAt(tree, clean, done, j);
      assert c[..j][i] in Emitted(tree, clean, done[..k]);
      EmittedPaths(tree, clean, done[..k], c[i].path);
    }
  }

  /** Every chunk comes after the chunks of all its header reaches one way, directly or through others, shown or not. */
  ghost predicate AfterIncludes(tree: Tree, clean: seq<string> -> string, chunks: seq<Chunk>) {
    forall i, w :: 0 <= i < |chunks| && OneWay(tree, w, chunks[i].path) && Shown(tree, clean, w[|w| - 1]) ==>
      Has(chunks[..i], w[|w| - 1])
  }

  ghost predicate Has(chunks: seq<Chunk>, p: Path) {
    exists c :: c in chunks && c.path == p
  }

  lemma EmittedAfter(tree: Tree, clean: seq<string> -> string, done: seq<Path>)
    requires Ordered(tree, done) && forall q :: q in done ==> q in tree
    ensures AfterIncludes(tree, clean, Emitted(tree, clean, done))
  {
    hide Walk, Ordered, Shown;
    var chunks := Emitted(tree, clean, done);
    forall i, w | 0 <= i < |chunks| && OneWay(tree, w, chunks[i].path) && Shown(tree, clean, w[|w| - 1])
      ensures Has(chunks[..i], w[|w| - 1])
    {
      var k := EmittedAt(tree, clean, done, i);
      FinishedBefore(tree, done, k, w, |w| - 1);
      EmittedPaths(tree, clean, done[..k], w[|w| - 1]);
    }
  }

  /** No two headers the entry reaches include each other, directly or through others. */
  ghost predicate Layered(tree: Tree, entry: Path) {
    forall p, q :: Reaches(tree, entry, p) && Reaches(tree, p, q) && Reaches(tree, q, p) ==> p == q
  }

  /** Every chunk comes after the chunks of all that its header reaches. */
  ghost predicate Topological(tree: Tree, clean: seq<string> -> string, chunks: seq<Chunk>) {
    forall i, q :: 0 <= i < |chunks| && Reaches(tree, chunks[i].path, q) && q != chunks[i].path && Shown(tree, clean, q) ==>
      Has(chunks[..i], q)
  }

  lemma {:induction false} ReachesOver(tree: Tree, p: Path, w: seq<Path>, k: nat)
    requires Walk(tree, w) && k < |w| && Reaches(tree, p, w[0])
    ensures Reaches(tree, p, w[k])
  {
    if k > 0 {
      ReachesOver(tree, p, w, k - 1);
      assert Edge(tree, w[k - 1], w[k - 1 + 1]);
      ReachesNext(tree, p, w[k - 1], w[k]);
    }
  }

  lemma ReachesThrough(tree: Tree, p: Path, q: Path, r: Path)
    requires Reaches(tree, p, q) && Reaches(tree, q, r)
    ensures Reaches(tree, p, r)
  {
    var w :| Joins(tree, w, q, r);
    ReachesOver(tree, p, w, |w| - 1);
  }

  /** A walk that leaves `p` for good. */
  lemma {:induction false} LeavesOnce(tree: Tree, w: seq<Path>, p: Path) returns (v: seq<Path>)
    requires Walk(tree, w) && w[0] == p && w[|w| - 1] != p
    ensures Walk(tree, v) && v[0] == p && v[|v| - 1] == w[|w| - 1] && p !in v[1..]
    decreases |w|
  {
    if p !in w[1..] {
      v := w;
    } else {
      var k :| 0 <= k < |w[1..]| && w[1..][k] == p;
      var u := w[k + 1..];
      forall i | 0 <= i < |u| - 1
        ensures Edge(tree, u[i], u[i + 1])
      {
        assert Edge(tree, w[k + 1 + i], w[k + 1 + i + 1]);
      }
      v := LeavesOnce(tree, u, p);
    }
  }

  lemma LayeredIsOneWay(tree: Tree, entry: Path, p: Path, q: Path) returns (w: seq<Path>)
    requires Layered(tree, entry) && Reaches(tree, entry, p) && Reaches(tree, p, q) && p != q
    ensures OneWay(tree, w, p) && w[|w| - 1] == q
  {
    var u :| Joins(tree, u, p, q);
    w := LeavesOnce(tree, u, p);
    ReachesSelf(tree, p);
    forall k | 1 <= k < |w|
      ensures !Reaches(tree, w[k], p)
    {
      ReachesOver(tree, p, w, k);
      assert w[k] == w[1..][k - 1];
    }
  }

  /** Without mutual includes the order is topological. */
  lemma LayeredIsTopological(tree: Tree, clean: seq<string> -> string, chunks: seq<Chunk>, entry: Path)
    requires Layered(tree, entry) && AfterIncludes(tree, clean, chunks)
    requires forall c :: c in chunks ==> Reaches(tree, entry, c.path)
    ensures Topological(tree, clean, chunks)
  {
    hide Layered, OneWay, Has, Reaches;
    forall i, q | 0 <= i < |chunks| && Reaches(tree, chunks[i].path, q) && q != chunks[i].path && Shown(tree, clean, q)
      ensures Has(chunks[..i], q)
    {
      assert chunks[i] in chunks;
      var w := LayeredIsOneWay(tree, entry, chunks[i].path, q);
      assert |w| > 1 by { LongWalk(tree, w, chunks[i].path); }
      assert Has(chunks[..i], w[|w| - 1]);
    }
  }

  lemma LongWalk(tree: Tree, w: seq<Path>, p: Path)
    requires OneWay(tree, w, p)
    ensures |w| > 1
  {
  }

  lemma Earlier(chunks: seq<Chunk>, i: nat, j: nat)
    requires OncePerHeader(chunks) && i <= |chunks| && j < |chunks| && Has(chunks[..i], chunks[j].path)
    ensures j < i
  {
    var c :| c in chunks[..i] && c.path == chunks[j].path;
    var k :| 0 <= k < |chunks[..i]| && chunks[..i][k] == c;
    assert chunks[k].path == chunks[j].path;
  }

  lemma Position(chunks: seq<Chunk>, p: Path) returns (i: nat)
    requires Has(chunks, p)
    ensures i < |chunks| && chunks[i].path == p
  {
    i :| 0 <= i < |chunks| && chunks[i].path == p;
  }

  /** Two headers that include each other cannot each come after the other. */
  lemma MutualIsNotTopological(tree: Tree, clean: seq<string> -> string, chunks: seq<Chunk>, p: Path, q: Path)
    requires OncePerHeader(chunks) && Has(chunks, p) && Has(chunks, q) && Shown(tree, clean, p) && Shown(tree, clean, q)
    requires Reaches(tree, p, q) && Reaches(tree, q, p) && p != q
    ensures !Topological(tree, clean, chunks)
  {
    hide Reaches, Shown, Has, OncePerHeader;
    var i := Position(chunks, p);
    var j := Position(chunks, q);
    if Topological(tree, clean, chunks) {
      Earlier(chunks, i, j);
      Earlier(chunks, j, i);
    }
  }

  /** When no header comes to nothing, the order is topological exactly if no two headers include each other. */
  lemma TopologicalExactly(tree: Tree, clean: seq<string> -> string, chunks: seq<Chunk>, entry: Path)
    requires OncePerHeader(chunks) && AfterIncludes(tree, clean, chunks)
    requires forall p :: Has(chunks, p) <==> Reaches(tree, entry, p)
    requires forall p :: Reaches(tree, entry, p) ==> Shown(tree, clean, p)
    ensures Topological(tree, clean, chunks) <==> Layered(tree, entry)
  {
    hide Reaches, Shown, Topological, AfterIncludes, OncePerHeader;
    if Layered(tree, entry) {
      assert forall c :: c in chunks ==> Has(chunks, c.path);
      LayeredIsTopological(tree, clean, chunks, entry);
    } else {
      var p, q :| Reaches(tree, entry, p) && Reaches(tree, p, q) && Reaches(tree, q, p) && p != q;
      ReachesThrough(tree, entry, p, q);
      MutualIsNotTopological(tree, clean, chunks, p, q);
    }
  }

  /** The walk from an entry header. */
  method Amalgamate(tree: Tree, clean: seq<string> -> string, entry: Path) returns (chunks: seq<Chunk>, includes: seq<string>)
    requires Closed(tree) && entry in tree
    ensures forall p :: Has(chunks, p) <==> Reaches(tree, entry, p) && Shown(tree, clean, p)
    ensures forall c :: c in chunks ==> c.path in tree && c.text == clean(Kept(tree[c.path], 0))
    ensures OncePerHeader(chunks) && AfterIncludes(tree, clean, chunks)
    ensures Layered(tree, entry) ==> Topological(tree, clean, chunks)
    ensures Unique(includes)
    ensures forall t :: t in includes <==> exists p :: p in tree && Reaches(tree, entry, p) && t in Hoisted(tree[p], 0)
  {
    var w := new Walker(tree, clean);
    w.Process(entry, {});
    chunks, includes := w.bodyChunks, w.systemIncludes;
    AllReached(tree, w.visited, entry);
    forall p
      ensures Has(chunks, p) <==> Reaches(tree, entry, p) && Shown(tree, clean, p)
      ensures forall c :: c in chunks && c.path == p ==> p in tree && c.text == clean(Kept(tree[p], 0))
    {
      EmittedPaths(tree, clean, w.done, p);
    }
    EmittedOnce(tree, clean, w.done);
    EmittedAfter(tree, clean, w.done);
    if Layered(tree, entry) {
      LayeredIsTopological(tree, clean, chunks, entry);
    }
  }

  lemma AllReached(tree: Tree, visited: set<Path>, entry: Path)
    requires entry in visited && (forall v :: v in visited ==> Reaches(tree, entry, v))
    requires forall p, q :: p in visited && Edge(tree, p, q) ==> q in visited
    ensures forall p :: p in visited <==> Reaches(tree, entry, p)
  {
    forall p | Reaches(tree, entry, p)
      ensures p in visited
    {
      var w :| Joins(tree, w, entry, p);
      ClosedReach(tree, visited, w, entry, p);
    }
  }
}
