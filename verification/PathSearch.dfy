/** Causal path search: `find_paths` and `neighbors` of core/adapters/graph_repo.py. */
module PathSearch {
  import opened Wrappers

  /** An active relation row: `id` is its primary key, the rest is what an edge dict copies. */
  datatype Rel = Rel(id: nat, source: string, target: string, sourceName: Option<string>, targetName: Option<string>,
                     relationType: string, fact: Option<string>, confidence: Option<real>)

  type Path = seq<Rel>

  // ----- what a path is -----

  function EndOf(start: string, p: Path): string {
    if |p| == 0 then start else p[|p| - 1].target
  }

  function Visited(start: string, p: Path): set<string> {
    if |p| == 0 then {start} else Visited(start, p[..|p| - 1]) + {p[|p| - 1].target}
  }

  /** A simple path along relation directions: consecutive edges meet and no node repeats. */
  predicate IsSimple(rels: seq<Rel>, start: string, p: Path) {
    |p| > 0 ==>
      var q := p[..|p| - 1];
      var r := p[|p| - 1];
      IsSimple(rels, start, q) && Fits(rels, start, q, r)
  }

  /** r may be added to the path p. */
  predicate Fits(rels: seq<Rel>, start: string, p: Path, r: Rel) {
    r in rels && r.source == EndOf(start, p) && r.target !in Visited(start, p)
  }

  /** The node sequence of a path: its start, then each edge's target. */
  function NodesOf(start: string, p: Path): seq<string> {
    [start] + seq(|p|, i requires 0 <= i < |p| => p[i].target)
  }

  /** The same in terms of indices: edges come from the relations, chain, and visit distinct nodes. */
  ghost predicate ChainsDistinctNodes(rels: seq<Rel>, start: string, p: Path) {
    && (forall i :: 0 <= i < |p| ==> p[i] in rels && p[i].source == NodesOf(start, p)[i])
    && Distinct(NodesOf(start, p))
  }

  lemma {:induction false} VisitedMeaning(start: string, p: Path)
    ensures forall x :: x in Visited(start, p) <==> x in NodesOf(start, p)
    ensures NodesOf(start, p)[|p|] == EndOf(start, p)
  {
    if |p| > 0 {
      VisitedMeaning(start, p[..|p| - 1]);
      assert NodesOf(start, p) == NodesOf(start, p[..|p| - 1]) + [p[|p| - 1].target];
    }
  }

  lemma {:induction false} SimpleMeaning(rels: seq<Rel>, start: string, p: Path)
    ensures IsSimple(rels, start, p) <==> ChainsDistinctNodes(rels, start, p)
  {
    if |p| > 0 {
      SimpleMeaning(rels, start, p[..|p| - 1]);
      SimpleExtends(rels, start, p);
    }
  }

  lemma SimpleExtends(rels: seq<Rel>, start: string, p: Path)
    requires |p| > 0
    requires IsSimple(rels, start, p[..|p| - 1]) <==> ChainsDistinctNodes(rels, start, p[..|p| - 1])
    ensures IsSimple(rels, start, p) <==> ChainsDistinctNodes(rels, start, p)
  {
    var q, r := p[..|p| - 1], p[|p| - 1];
    VisitedMeaning(start, q);
    SimpleStep(rels, start, p);
    assert p == q + [r];
    ChainStep(rels, start, q, r);
  }

  lemma ChainStep(rels: seq<Rel>, start: string, q: Path, r: Rel)
    ensures ChainsDistinctNodes(rels, start, q + [r]) <==>
            && ChainsDistinctNodes(rels, start, q)
            && r in rels && r.source == NodesOf(start, q)[|q|] && r.target !in NodesOf(start, q)
  {
    var p := q + [r];
    var ns, ms := NodesOf(start, p), NodesOf(start, q);
    assert ns == ms + [r.target];
    DistinctAppend(ms, [r.target]);
    assert forall i :: 0 <= i < |q| ==> p[i] == q[i] && ns[i] == ms[i];
    assert p[|q|] == r && ns[|q|] == ms[|q|];
  }

  lemma DistinctAppend<T>(a: seq<T>, b: seq<T>)
    ensures Distinct(a + b) <==> Distinct(a) && Distinct(b) && forall x :: x in a ==> x !in b
  {
    var c := a + b;
    assert forall i :: 0 <= i < |c| ==> c[i] == if i < |a| then a[i] else b[i - |a|];
    if Distinct(c) {
      forall i, j | 0 <= i < j < |a| ensures a[i] != a[j] { assert c[i] != c[j]; }
      forall i, j | 0 <= i < j < |b| ensures b[i] != b[j] { assert c[|a| + i] != c[|a| + j]; }
      forall x | x in a ensures x !in b {
        var i :| 0 <= i < |a| && a[i] == x;
        forall j | 0 <= j < |b| ensures b[j] != x { assert c[i] != c[|a| + j]; }
      }
    } else {
      var i, j :| 0 <= i < j < |c| && c[i] == c[j];
      assert i < |a| ==> a[i] in a;
    }
  }

  // ----- the reference: all simple paths, level by level, in queue order -----

  /** `adj.get(node, [])`: the relations leaving a node, in table order. */
  function OutOf(rels: seq<Rel>, node: string): seq<Rel> {
    if |rels| == 0 then []
    else OutOf(rels[..|rels| - 1], node) + (if rels[|rels| - 1].source == node then [rels[|rels| - 1]] else [])
  }

  function Extensions(start: string, p: Path, out: seq<Rel>): seq<Path> {
    if |out| == 0 then []
    else Extensions(start, p, out[..|out| - 1])
         + (if out[|out| - 1].target in Visited(start, p) then [] else [p + [out[|out| - 1]]])
  }

  function ExtendAll(rels: seq<Rel>, start: string, ps: seq<Path>): seq<Path> {
    if |ps| == 0 then []
    else ExtendAll(rels, start, ps[..|ps| - 1])
         + Extensions(start, ps[|ps| - 1], OutOf(rels, EndOf(start, ps[|ps| - 1])))
  }

  /** The simple paths with exactly n edges. */
  function Level(rels: seq<Rel>, start: string, n: nat): seq<Path> {
    if n == 0 then [[]] else ExtendAll(rels, start, Level(rels, start, n - 1))
  }

  /** The simple paths with 1..n edges, shortest first. */
  function UpTo(rels: seq<Rel>, start: string, n: nat): seq<Path> {
    if n == 0 then [] else UpTo(rels, start, n - 1) + Level(rels, start, n)
  }

  function Prefix<T>(s: seq<T>, n: int): seq<T> {
    if n <= 0 then [] else if n < |s| then s[..n] else s
  }

  function Hops(maxHops: int): nat {
    if maxHops < 0 then 0 else maxHops
  }

  /** What `find_paths` computes, as a function. */
  function Found(rels: seq<Rel>, start: string, maxHops: int, maxPaths: int): seq<Path> {
    Prefix(UpTo(rels, start, Hops(maxHops)), maxPaths)
  }

  // ----- the search -----

  datatype Entry = Entry(node: string, edges: Path, visited: set<string>)

  ghost predicate Queued(start: string, queue: seq<Entry>, ps: seq<Path>) {
    && |queue| == |ps|
    && forall i :: 0 <= i < |queue| ==> queue[i] == Entry(EndOf(start, ps[i]), ps[i], Visited(start, ps[i]))
  }

  /** adj.get(node, []) */
  function Lookup(adj: map<string, seq<Rel>>, node: string): seq<Rel> {
    if node in adj then adj[node] else []
  }

  /** The adjacency dict that `find_paths` fills. */
  method BuildAdjacency(rels: seq<Rel>) returns (adj: map<string, seq<Rel>>)
    ensures forall node :: Lookup(adj, node) == OutOf(rels, node)
  {
    adj := map[];
    for i := 0 to |rels|
      invariant forall node :: Lookup(adj, node) == OutOf(rels[..i], node)
    {
      var r := rels[i];
      ghost var was := adj;
      adj := adj[r.source := Lookup(adj, r.source) + [r]];
      AdjacencyStep(rels, i, i + 1, was, adj);
    }
    assert rels[..|rels|] == rels;
  }

  lemma AdjacencyStep(rels: seq<Rel>, i: nat, n: nat, adj: map<string, seq<Rel>>, adj': map<string, seq<Rel>>)
    requires i < |rels| && n == i + 1
    requires forall node :: Lookup(adj, node) == OutOf(rels[..i], node)
    requires adj' == adj[rels[i].source := Lookup(adj, rels[i].source) + [rels[i]]]
    ensures forall node :: Lookup(adj', node) == OutOf(rels[..n], node)
  {
    forall node ensures Lookup(adj', node) == OutOf(rels[..n], node) {
      OutOfStep(rels, i, node);
      assert Lookup(adj, node) == OutOf(rels[..i], node);
    }
  }

  lemma OutOfStep(rels: seq<Rel>, i: nat, node: string)
    requires i < |rels|
    ensures OutOf(rels[..i + 1], node) == OutOf(rels[..i], node) + (if rels[i].source == node then [rels[i]] else [])
  {
    assert rels[..i + 1][..i] == rels[..i];
  }

  /** What is left to take from the queue after i paths of level n: the rest of the level and
    * what the paths taken so far added. */
  ghost function Waiting(rels: seq<Rel>, start: string, hops: nat, n: nat, i: nat): seq<Path>
    requires i <= |Level(rels, start, n)|
  {
    WaitingIn(rels, start, Level(rels, start, n), n < hops, i)
  }

  ghost function WaitingIn(rels: seq<Rel>, start: string, level: seq<Path>, extend: bool, i: nat): seq<Path>
    requires i <= |level|
  {
    level[i..] + (if extend then ExtendAll(rels, start, level[..i]) else [])
  }

  /** Taking the head of what is waiting and queueing its extensions moves on by one. */
  lemma WaitingStep(rels: seq<Rel>, start: string, level: seq<Path>, extend: bool, i: nat)
    requires i < |level|
    ensures var w := WaitingIn(rels, start, level, extend, i);
            && |w| > 0 && w[0] == level[i]
            && WaitingIn(rels, start, level, extend, i + 1)
               == w[1..] + if extend then Extensions(start, level[i], OutOf(rels, EndOf(start, level[i]))) else []
  {
    assert level[..i + 1] == level[..i] + [level[i]];
    ExtendAllSnoc(rels, start, level[..i], level[i]);
    TakeFirst(level, i, ExtendAll(rels, start, level[..i]),
      Extensions(start, level[i], OutOf(rels, EndOf(start, level[i]))));
    TakeFirst(level, i, [], []);
  }

  lemma TakeFirst<T>(s: seq<T>, i: nat, e: seq<T>, x: seq<T>)
    requires i < |s|
    ensures (s[i..] + e)[0] == s[i] && (s[i..] + e)[1..] + x == s[i + 1..] + (e + x)
  {
  }

  lemma ExtendAllSnoc(rels: seq<Rel>, start: string, ps: seq<Path>, p: Path)
    ensures ExtendAll(rels, start, ps + [p])
         == ExtendAll(rels, start, ps) + Extensions(start, p, OutOf(rels, EndOf(start, p)))
  {
    assert (ps + [p])[..|ps|] == ps;
  }

  /** The non-empty paths taken before that point. */
  ghost function Taken(rels: seq<Rel>, start: string, n: nat, i: nat): seq<Path>
    requires i <= |Level(rels, start, n)|
  {
    if n == 0 then [] else UpTo(rels, start, n - 1) + Level(rels, start, n)[..i]
  }

  lemma LevelTurn(rels: seq<Rel>, start: string, hops: nat, n: nat)
    requires n < hops
    ensures Waiting(rels, start, hops, n, |Level(rels, start, n)|) == Waiting(rels, start, hops, n + 1, 0)
    ensures Taken(rels, start, n, |Level(rels, start, n)|) == Taken(rels, start, n + 1, 0)
  {
    var l := Level(rels, start, n);
    assert l[..|l|] == l;
    assert l[|l|..] == [];
    assert ExtendAll(rels, start, Level(rels, start, n + 1)[..0]) == [];
  }

  /** `find_paths`: the breadth-first loop over a queue of (node, edges, visited). It ends on
    * every graph: it moves through the finite levels of simple paths. */
  method FindPaths(rels: seq<Rel>, start: string, maxHops: int, maxPaths: int) returns (paths: seq<Path>)
    ensures paths == Found(rels, start, maxHops, maxPaths)
  {
    var adj := BuildAdjacency(rels);
    paths := [];
    var queue := [Entry(start, [], {start})];
    ghost var hops := Hops(maxHops);
    ghost var n: nat, i: nat := 0, 0;
    assert Level(rels, start, 0)[0..] == [[]];
    while |queue| > 0 && |paths| < maxPaths
      invariant Searching(rels, start, hops, n, i, queue, paths)
      invariant |paths| <= maxPaths || |paths| == 0
      decreases hops - n, |Level(rels, start, n)| - i
    {
      n, i := Settle(rels, start, hops, n, i, queue, paths);
      queue, paths := TakeNext(rels, adj, start, maxHops, queue, paths, n, i);
      i := i + 1;
    }
    Finished(rels, start, hops, n, i, maxPaths, |queue| > 0);
  }

  /** The loop invariant: i paths of level n have been taken. */
  ghost predicate Searching(rels: seq<Rel>, start: string, hops: nat, n: nat, i: nat, queue: seq<Entry>,
                            paths: seq<Path>) {
    && n <= hops && i <= |Level(rels, start, n)|
    && paths == Taken(rels, start, n, i)
    && Queued(start, queue, Waiting(rels, start, hops, n, i))
  }

  /** A used-up level is left for the next one. */
  lemma Settle(rels: seq<Rel>, start: string, hops: nat, n: nat, i: nat, queue: seq<Entry>, paths: seq<Path>)
    returns (n': nat, i': nat)
    requires Searching(rels, start, hops, n, i, queue, paths) && |queue| > 0
    ensures Searching(rels, start, hops, n', i', queue, paths) && i' < |Level(rels, start, n')|
    ensures (n' == n && i' == i) || n' == n + 1
  {
    n', i' := n, i;
    if i == |Level(rels, start, n)| {
      LevelTurn(rels, start, hops, n);
      n', i' := n + 1, 0;
    }
  }

  /** The next entry is the next path of the level; taking it and queueing its extensions moves
    * the search on by one. */
  lemma NextEntry(rels: seq<Rel>, start: string, hops: nat, n: nat, i: nat, queue: seq<Entry>, paths: seq<Path>)
    requires Searching(rels, start, hops, n, i, queue, paths) && i < |Level(rels, start, n)|
    ensures |queue| > 0 && |queue[0].edges| == n
    ensures var p := queue[0].edges; var rest := Waiting(rels, start, hops, n, i)[1..];
            && queue[0] == Entry(EndOf(start, p), p, Visited(start, p))
            && Queued(start, queue[1..], rest)
            && Taken(rels, start, n, i + 1) == (if n > 0 then paths + [p] else paths)
            && Waiting(rels, start, hops, n, i + 1)
               == rest + if n < hops then Extensions(start, p, OutOf(rels, EndOf(start, p))) else []
  {
    var level := Level(rels, start, n);
    LevelLength(rels, start, n);
    WaitingStep(rels, start, level, n < hops, i);
    assert level[..i + 1] == level[..i] + [level[i]];
  }

  /** The body of the `find_paths` loop: take one entry, record its edges, queue its extensions. */
  method TakeNext(ghost rels: seq<Rel>, adj: map<string, seq<Rel>>, start: string, maxHops: int,
                  queue: seq<Entry>, paths: seq<Path>, ghost n: nat, ghost i: nat)
    returns (queue': seq<Entry>, paths': seq<Path>)
    requires forall node :: Lookup(adj, node) == OutOf(rels, node)
    requires Searching(rels, start, Hops(maxHops), n, i, queue, paths) && i < |Level(rels, start, n)|
    ensures Searching(rels, start, Hops(maxHops), n, i + 1, queue', paths')
    ensures |paths'| <= |paths| + 1
  {
    NextEntry(rels, start, Hops(maxHops), n, i, queue, paths);
    ghost var rest := Waiting(rels, start, Hops(maxHops), n, i)[1..];
    var Entry(node, edges, visited) := queue[0];
    queue' := queue[1..];
    paths' := if |edges| > 0 then paths + [edges] else paths;
    if |edges| < maxHops {
      var out := Lookup(adj, node);
      queue' := PushExtensions(start, edges, out, visited, queue', rest);
    }
  }

  /** The inner loop of `find_paths`: skip visited targets, append the rest. */
  method PushExtensions(start: string, edges: Path, out: seq<Rel>, visited: set<string>,
                        queue: seq<Entry>, ghost ps: seq<Path>) returns (queue': seq<Entry>)
    requires visited == Visited(start, edges) && Queued(start, queue, ps)
    ensures Queued(start, queue', ps + Extensions(start, edges, out))
  {
    queue' := queue;
    for j := 0 to |out|
      invariant Queued(start, queue', ps + Extensions(start, edges, out[..j]))
    {
      var next := out[j].target;
      assert out[..j + 1][..j] == out[..j];
      if next !in visited {
        assert (edges + [out[j]])[..|edges|] == edges;
        ghost var before := ps + Extensions(start, edges, out[..j]);
        assert ps + Extensions(start, edges, out[..j + 1]) == before + [edges + [out[j]]];
        queue' := queue' + [Entry(next, edges + [out[j]], visited + {next})];
      }
    }
    assert out[..|out|] == out;
  }

  /** When the loop stops, what was taken is the required prefix. */
  lemma Finished(rels: seq<Rel>, start: string, hops: nat, n: nat, i: nat, maxPaths: int, more: bool)
    requires n <= hops && i <= |Level(rels, start, n)|
    requires more <==> |Waiting(rels, start, hops, n, i)| > 0
    requires var t := |Taken(rels, start, n, i)|; (t <= maxPaths || t == 0) && (more ==> t >= maxPaths)
    ensures Taken(rels, start, n, i) == Prefix(UpTo(rels, start, hops), maxPaths)
  {
    TakenIsPrefix(rels, start, hops, n, i);
    if !more {
      Exhausted(rels, start, hops, n, i);
    }
  }

  lemma Exhausted(rels: seq<Rel>, start: string, hops: nat, n: nat, i: nat)
    requires n <= hops && i <= |Level(rels, start, n)|
    requires Waiting(rels, start, hops, n, i) == []
    ensures Taken(rels, start, n, i) == UpTo(rels, start, hops)
  {
    var level := Level(rels, start, n);
    assert i == |level| && level[..i] == level;
    if n < hops {
      LevelTurn(rels, start, hops, n);
      assert Level(rels, start, n + 1) == [];
      NothingLonger(rels, start, n + 1, hops);
    }
  }

  lemma {:induction false} TakenIsPrefix(rels: seq<Rel>, start: string, hops: nat, n: nat, i: nat)
    requires n <= hops && i <= |Level(rels, start, n)|
    ensures Taken(rels, start, n, i) <= UpTo(rels, start, hops)
  {
    UpToGrows(rels, start, n, hops);
    PrefixOfConcat(if n == 0 then [] else UpTo(rels, start, n - 1), Level(rels, start, n), i);
  }

  lemma {:induction false} UpToGrows(rels: seq<Rel>, start: string, n: nat, m: nat)
    requires n <= m
    ensures UpTo(rels, start, n) <= UpTo(rels, start, m)
    decreases m
  {
    if n < m {
      UpToGrows(rels, start, n, m - 1);
      assert UpTo(rels, start, m) == UpTo(rels, start, m - 1) + Level(rels, start, m);
    }
  }

  lemma PrefixOfConcat<T>(a: seq<T>, b: seq<T>, i: nat)
    requires i <= |b|
    ensures a + b[..i] <= a + b
  {
  }

  /** An empty level is followed by empty levels. */
  lemma {:induction false} NothingLonger(rels: seq<Rel>, start: string, n: nat, m: nat)
    requires 1 <= n <= m && Level(rels, start, n) == []
    ensures UpTo(rels, start, m) == UpTo(rels, start, n - 1) && Level(rels, start, m) == []
    decreases m
  {
    if n < m {
      NothingLonger(rels, start, n, m - 1);
    }
  }

  // ----- the levels are exactly the simple paths -----

  lemma {:induction false} OutOfAt(rels: seq<Rel>, node: string, r: Rel)
    ensures r in OutOf(rels, node) <==> r in rels && r.source == node
  {
    if |rels| > 0 {
      OutOfAt(rels[..|rels| - 1], node, r);
      InSplit(rels, r);
    }
  }

  lemma InSplit<T>(s: seq<T>, x: T)
    requires |s| > 0
    ensures x in s <==> x in s[..|s| - 1] || x == s[|s| - 1]
  {
    assert s == s[..|s| - 1] + [s[|s| - 1]];
  }

  lemma {:induction false} ExtensionsAt(start: string, p: Path, out: seq<Rel>, q: Path)
    ensures q in Extensions(start, p, out) <==>
              |q| == |p| + 1 && q[..|p|] == p && q[|p|] in out && q[|p|].target !in Visited(start, p)
  {
    if |out| > 0 {
      var r := out[|out| - 1];
      ExtensionsAt(start, p, out[..|out| - 1], q);
      if |q| == |p| + 1 && q[..|p|] == p {
        InSplit(out, q[|p|]);
        assert q == p + [q[|p|]];
      }
    }
  }

  /** q continues one of ps by one relation. */
  predicate Continues(rels: seq<Rel>, start: string, ps: seq<Path>, q: Path) {
    |q| > 0 && q[..|q| - 1] in ps && Fits(rels, start, q[..|q| - 1], q[|q| - 1])
  }

  lemma {:induction false} ExtendAllAt(rels: seq<Rel>, start: string, ps: seq<Path>, q: Path)
    ensures q in ExtendAll(rels, start, ps) <==> Continues(rels, start, ps, q)
  {
    if |ps| > 0 {
      var p := ps[|ps| - 1];
      ExtendAllAt(rels, start, ps[..|ps| - 1], q);
      ExtensionsAt(start, p, OutOf(rels, EndOf(start, p)), q);
      if |q| > 0 {
        OutOfAt(rels, EndOf(start, p), q[|q| - 1]);
        InSplit(ps, q[..|q| - 1]);
      }
    }
  }

  lemma SimpleStep(rels: seq<Rel>, start: string, p: Path)
    requires |p| > 0
    ensures IsSimple(rels, start, p) <==>
              IsSimple(rels, start, p[..|p| - 1]) && Fits(rels, start, p[..|p| - 1], p[|p| - 1])
  {
  }

  lemma LevelStep(rels: seq<Rel>, start: string, n: nat, p: Path)
    requires n > 0
    ensures p in Level(rels, start, n) <==> Continues(rels, start, Level(rels, start, n - 1), p)
  {
    ExtendAllAt(rels, start, Level(rels, start, n - 1), p);
  }

  lemma LevelExtends(rels: seq<Rel>, start: string, n: nat, p: Path)
    requires n > 0
    requires |p| > 0 ==>
               (p[..|p| - 1] in Level(rels, start, n - 1) <==> |p| - 1 == n - 1 && IsSimple(rels, start, p[..|p| - 1]))
    ensures p in Level(rels, start, n) <==> |p| == n && IsSimple(rels, start, p)
  {
    LevelStep(rels, start, n, p);
    if |p| > 0 { SimpleStep(rels, start, p); }
  }

  lemma {:induction false} LevelAt(rels: seq<Rel>, start: string, n: nat, p: Path)
    ensures p in Level(rels, start, n) <==> |p| == n && IsSimple(rels, start, p)
  {
    if n > 0 {
      if |p| > 0 { LevelAt(rels, start, n - 1, p[..|p| - 1]); }
      LevelExtends(rels, start, n, p);
    }
  }

  lemma LevelLength(rels: seq<Rel>, start: string, n: nat)
    ensures forall i :: 0 <= i < |Level(rels, start, n)| ==> |Level(rels, start, n)[i]| == n
  {
    forall i | 0 <= i < |Level(rels, start, n)| ensures |Level(rels, start, n)[i]| == n {
      LevelAt(rels, start, n, Level(rels, start, n)[i]);
    }
  }

  lemma {:induction false} UpToAt(rels: seq<Rel>, start: string, n: nat, p: Path)
    ensures p in UpTo(rels, start, n) <==> 1 <= |p| <= n && IsSimple(rels, start, p)
  {
    if n > 0 {
      UpToAt(rels, start, n - 1, p);
      LevelAt(rels, start, n, p);
    }
  }

  lemma UpToLength(rels: seq<Rel>, start: string, n: nat)
    ensures forall i :: 0 <= i < |UpTo(rels, start, n)| ==> |UpTo(rels, start, n)[i]| <= n
  {
    forall i | 0 <= i < |UpTo(rels, start, n)| ensures |UpTo(rels, start, n)[i]| <= n {
      UpToAt(rels, start, n, UpTo(rels, start, n)[i]);
    }
  }

  // ----- no path is produced twice -----

  lemma {:induction false} OutOfDistinct(rels: seq<Rel>, node: string)
    requires Distinct(rels)
    ensures Distinct(OutOf(rels, node))
  {
    if |rels| > 0 {
      OutOfDistinct(rels[..|rels| - 1], node);
      OutOfAt(rels[..|rels| - 1], node, rels[|rels| - 1]);
      DistinctSnoc(OutOf(rels[..|rels| - 1], node), rels[|rels| - 1]);
    }
  }

  lemma {:induction false} ExtensionsDistinct(start: string, p: Path, out: seq<Rel>)
    requires Distinct(out)
    ensures Distinct(Extensions(start, p, out))
  {
    if |out| > 0 {
      var r := out[|out| - 1];
      ExtensionsDistinct(start, p, out[..|out| - 1]);
      ExtensionsAt(start, p, out[..|out| - 1], p + [r]);
      DistinctSnoc(Extensions(start, p, out[..|out| - 1]), p + [r]);
    }
  }

  lemma {:induction false} ExtendAllDistinct(rels: seq<Rel>, start: string, ps: seq<Path>)
    requires Distinct(rels) && Distinct(ps)
    ensures Distinct(ExtendAll(rels, start, ps))
  {
    if |ps| > 0 {
      var p, qs := ps[|ps| - 1], ps[..|ps| - 1];
      var out := OutOf(rels, EndOf(start, p));
      ExtendAllDistinct(rels, start, qs);
      OutOfDistinct(rels, EndOf(start, p));
      ExtensionsDistinct(start, p, out);
      forall q | q in ExtendAll(rels, start, qs)
        ensures q !in Extensions(start, p, out)
      {
        ExtendAllAt(rels, start, qs, q);
        ExtensionsAt(start, p, out, q);
      }
      DistinctAppend(ExtendAll(rels, start, qs), Extensions(start, p, out));
    }
  }

  lemma {:induction false} LevelDistinct(rels: seq<Rel>, start: string, n: nat)
    requires Distinct(rels)
    ensures Distinct(Level(rels, start, n))
  {
    if n > 0 {
      LevelDistinct(rels, start, n - 1);
      ExtendAllDistinct(rels, start, Level(rels, start, n - 1));
    }
  }

  lemma {:induction false} UpToDistinct(rels: seq<Rel>, start: string, n: nat)
    requires Distinct(rels)
    ensures Distinct(UpTo(rels, start, n))
  {
    if n > 0 {
      UpToDistinct(rels, start, n - 1);
      UpToLength(rels, start, n - 1);
      LevelDistinct(rels, start, n);
      LevelLength(rels, start, n);
      LongerIsNew(UpTo(rels, start, n - 1), Level(rels, start, n), n);
      DistinctAppend(UpTo(rels, start, n - 1), Level(rels, start, n));
    }
  }

  lemma LongerIsNew(a: seq<Path>, b: seq<Path>, n: nat)
    requires forall i :: 0 <= i < |a| ==> |a[i]| < n
    requires forall i :: 0 <= i < |b| ==> |b[i]| == n
    ensures forall p :: p in a ==> p !in b
  {
  }

  lemma {:induction false} UpToSorted(rels: seq<Rel>, start: string, n: nat)
    ensures forall i, j :: 0 <= i < j < |UpTo(rels, start, n)| ==>
              |UpTo(rels, start, n)[i]| <= |UpTo(rels, start, n)[j]|
  {
    if n > 0 {
      UpToSorted(rels, start, n - 1);
      UpToLength(rels, start, n - 1);
      LevelLength(rels, start, n);
    }
  }

  /** `find_paths` is exact: sound, within the hop bound, shortest first, without repetition;
    * complete when fewer than max_paths come back; and whatever is omitted is at least as
    * long as everything returned. */
  lemma FindPathsExact(rels: seq<Rel>, start: string, maxHops: int, maxPaths: int)
    requires Distinct(rels)
    ensures var found := Found(rels, start, maxHops, maxPaths);
      && (forall p :: p in found ==> 1 <= |p| <= maxHops && IsSimple(rels, start, p))
      && (forall i, j :: 0 <= i < j < |found| ==> |found[i]| <= |found[j]| && found[i] != found[j])
      && (|found| <= maxPaths || found == [])
      && (forall p :: 1 <= |p| <= maxHops && IsSimple(rels, start, p) && p !in found ==>
            |found| >= maxPaths && forall q :: q in found ==> |q| <= |p|)
  {
    var all, found := UpTo(rels, start, Hops(maxHops)), Found(rels, start, maxHops, maxPaths);
    forall p ensures p in all <==> 1 <= |p| <= Hops(maxHops) && IsSimple(rels, start, p) {
      UpToAt(rels, start, Hops(maxHops), p);
    }
    UpToDistinct(rels, start, Hops(maxHops));
    UpToSorted(rels, start, Hops(maxHops));
    assert found <= all;
    forall p | 1 <= |p| <= maxHops && IsSimple(rels, start, p) && p !in found
      ensures |found| >= maxPaths && forall q :: q in found ==> |q| <= |p|
    {
      assert p in all;
      var j :| 0 <= j < |all| && all[j] == p;
      assert j >= |found|;
    }
  }

  // ----- neighbors -----

  /** What `neighbors` returns, in table order: a self-loop counts once per direction asked for. */
  function NeighborsOf(rels: seq<Rel>, u: string, direction: string): seq<(Rel, string)> {
    if |rels| == 0 then []
    else
      var r := rels[|rels| - 1];
      NeighborsOf(rels[..|rels| - 1], u, direction)
      + (if direction in ["out", "both"] && r.source == u then [(r, r.target)] else [])
      + (if direction in ["in", "both"] && r.target == u then [(r, r.source)] else [])
  }

  method Neighbors(rels: seq<Rel>, u: string, direction: string) returns (out: seq<(Rel, string)>)
    ensures out == NeighborsOf(rels, u, direction)
  {
    out := [];
    for i := 0 to |rels|
      invariant out == NeighborsOf(rels[..i], u, direction)
    {
      var r := rels[i];
      assert rels[..i + 1][..i] == rels[..i];
      if direction in ["out", "both"] && r.source == u {
        out := out + [(r, r.target)];
      }
      if direction in ["in", "both"] && r.target == u {
        out := out + [(r, r.source)];
      }
    }
    assert rels[..|rels|] == rels;
  }

  /** v is at the other end of a relation of u. */
  predicate Adjoins(rels: seq<Rel>, u: string, v: string) {
    exists r :: r in rels && ((r.source == u && r.target == v) || (r.target == u && r.source == v))
  }

  lemma {:induction false} NeighborsMeaning(rels: seq<Rel>, u: string)
    ensures forall r, v :: (r, v) in NeighborsOf(rels, u, "both") <==>
              r in rels && ((r.source == u && r.target == v) || (r.target == u && r.source == v))
  {
    if |rels| > 0 {
      NeighborsMeaning(rels[..|rels| - 1], u);
      assert rels == rels[..|rels| - 1] + [rels[|rels| - 1]];
    }
  }

  /** Adjacency is symmetric: u is a neighbor of v exactly when v is one of u. */
  lemma NeighborsSymmetric(rels: seq<Rel>, u: string, v: string)
    ensures (exists r :: (r, v) in NeighborsOf(rels, u, "both")) <==>
              (exists r :: (r, u) in NeighborsOf(rels, v, "both"))
  {
    NeighborsMeaning(rels, u);
    NeighborsMeaning(rels, v);
  }
}
