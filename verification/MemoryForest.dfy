/** The memory tree's table and what each write does to its structure
  * (core/memory_tree/service.py, models/memory_tree.py). */
module MemoryForest {
  import opened Wrappers
  import Temporal

  type Id = string

  /** A row of `memory_tree_nodes`; path "" stands for NULL. */
  datatype Node = Node(
    project: string, layer: string, parent: Option<Id>, depth: int, path: string,
    orderIndex: int, createdAt: int, title: string, content: Option<string>, topicId: Option<string>,
    childCount: int, validFrom: int, validUntil: Option<int>, version: nat,
    summary: Option<string>, status: string, topicLabel: Option<string>, entityRefs: Option<seq<string>>,
      wordCount: nat)

  type Forest = map<Id, Node>

  ghost function Children(nodes: Forest, x: Id): set<Id> {
    set y | y in nodes && nodes[y].parent == Some(x)
  }

  // ----- create -----

  function ChildPath(parent: Node, id: Id): string {
    (if parent.path == "" then "/" + id else parent.path) + "/" + id
  }

  predicate Usable(nodes: Forest, project: string, id: Id) {
    id in nodes && nodes[id].project == project
  }

  /** `_dumps_refs`: an empty list is stored as NULL. */
  function Refs(refs: seq<string>): Option<seq<string>> {
    if refs == [] then None else Some(refs)
  }

  /** The columns `create_node` sets without looking at the parent. */
  function Fresh(n: Node): Node {
    n.(childCount := 0, version := 1, status := "active", wordCount := |n.content.GetOr("")|,
       entityRefs := Refs(n.entityRefs.GetOr([])), validUntil := None)
  }

  /** `create_node`: n carries the caller's fields, the structural ones are computed. */
  function Created(nodes: Forest, id: Id, n: Node): Forest
    requires n.parent.Some? ==> n.parent.value in nodes
  {
    match n.parent
    case None => nodes[id := Fresh(n).(depth := 0, path := "/" + id)]
    case Some(q) =>
      nodes[q := nodes[q].(childCount := nodes[q].childCount + 1)]
           [id := Fresh(n).(depth := nodes[q].depth + 1, path := ChildPath(nodes[q], q))]
  }

  // ----- reparent -----

  /** Python's `max(0, (count or 1) - 1)`. */
  function Decremented(count: int): int {
    if count <= 1 then 0 else count - 1
  }

  function Uncounted(nodes: Forest, parent: Option<Id>): Forest {
    if parent.Some? && parent.value in nodes
    then nodes[parent.value := nodes[parent.value].(childCount := Decremented(nodes[parent.value].childCount))]
    else nodes
  }

  /** The assignments of `_reparent`, without its self-parent check. */
  function Attached(nodes: Forest, id: Id, q: Id): Forest
    requires id in nodes && q in nodes
  {
    var s := Uncounted(nodes, nodes[id].parent);
    var t := s[q := s[q].(childCount := s[q].childCount + 1)];
    t[id := t[id].(parent := Some(q), depth := t[q].depth + 1, path := ChildPath(t[q], q))]
  }

  /** What those assignments leave in each row, for a parent the node does not have yet. */
  ghost predicate IsAttached(nodes: Forest, id: Id, q: Id, nodes': Forest)
    requires id in nodes && q in nodes
  {
    && nodes'.Keys == nodes.Keys
    && nodes'[id] == nodes[id].(parent := Some(q), depth := nodes[q].depth + 1, path := ChildPath(nodes[q], q),
                                childCount := nodes'[id].childCount)
    && (forall x :: x in nodes && x != id ==> nodes'[x] == nodes[x].(childCount := nodes'[x].childCount))
    && (nodes[id].parent != Some(q) ==>
          forall x :: x in nodes ==>
            nodes'[x].childCount == if x == q then nodes[x].childCount + 1
                                    else if nodes[id].parent == Some(x) then Decremented(nodes[x].childCount)
                                    else nodes[x].childCount)
  }

  lemma AttachedRows(nodes: Forest, id: Id, q: Id)
    requires id in nodes && q in nodes
    ensures IsAttached(nodes, id, q, Attached(nodes, id, q))
  {
  }

  // ----- delete -----

  /** x is found when the children of its parent are listed at `now`. */
  predicate Listed(nodes: Forest, project: string, now: int, x: Id) {
    && x in nodes && nodes[x].project == project && nodes[x].parent.Some?
    && Temporal.InForce(nodes[x].validFrom, nodes[x].validUntil, now)
  }

  /** id is reached from x by k parent links, each of them listed. */
  ghost predicate FallsIn(nodes: Forest, project: string, now: int, x: Id, id: Id, k: nat)
    decreases k
  {
    x in nodes &&
    if k == 0 then x == id
    else Listed(nodes, project, now, x) && FallsIn(nodes, project, now, nodes[x].parent.value, id, k - 1)
  }

  ghost predicate Falls(nodes: Forest, project: string, now: int, x: Id, id: Id) {
    exists k: nat :: FallsIn(nodes, project, now, x, id, k)
  }

  /** The node and its descendants through children in force at `now`. */
  ghost function Doomed(nodes: Forest, project: string, now: int, id: Id): set<Id> {
    set x | x in nodes && Falls(nodes, project, now, x, id)
  }

  /** Listed parent links lead from id back to id. */
  ghost predicate OnListedCycle(nodes: Forest, project: string, now: int, id: Id) {
    exists k: nat :: k > 0 && FallsIn(nodes, project, now, id, id, k)
  }

  /** The cascade at id nests at most `limit` calls below its own. */
  ghost predicate EndsWithin(nodes: Forest, project: string, now: int, id: Id, limit: nat)
    decreases limit
  {
    forall c :: Listed(nodes, project, now, c) && nodes[c].parent == Some(id) ==>
                  limit > 0 && EndsWithin(nodes, project, now, c, limit - 1)
  }

  /** Row n once the rows of d are gone: the foreign key sets a lost parent to NULL. */
  function Cut(n: Node, d: set<Id>): Node {
    n.(parent := if n.parent.Some? && n.parent.value in d then None else n.parent)
  }

  /** The table without the rows of d, with the count of `up` lowered by one. */
  function Pruned(nodes: Forest, d: set<Id>, up: Option<Id>): Forest {
    map x | x in nodes && x !in d ::
      Cut(nodes[x], d).(childCount := if up == Some(x) then Decremented(nodes[x].childCount) else nodes[x].childCount)
  }

  // ----- acyclicity -----

  /** rank falls along every parent link. */
  ghost predicate Ranked(nodes: Forest, rank: map<Id, nat>) {
    && (forall x :: x in nodes ==> x in rank)
    && forall x :: x in nodes && nodes[x].parent.Some? && nodes[x].parent.value in nodes ==>
         rank[nodes[x].parent.value] < rank[x]
  }

  ghost predicate Acyclic(nodes: Forest) {
    exists rank :: Ranked(nodes, rank)
  }

  /** y is reached from x by k parent links. */
  ghost predicate Above(nodes: Forest, x: Id, y: Id, k: nat)
    decreases k
  {
    x in nodes &&
    if k == 0 then x == y
    else nodes[x].parent.Some? && Above(nodes, nodes[x].parent.value, y, k - 1)
  }

  ghost predicate AtOrUnder(nodes: Forest, x: Id, y: Id) {
    exists k: nat :: Above(nodes, x, y, k)
  }

  /** Acyclic means what it should: following parents never returns to the start. */
  lemma AcyclicMeaning(nodes: Forest, x: Id, k: nat)
    requires Acyclic(nodes) && k > 0
    ensures !Above(nodes, x, x, k)
  {
    var rank :| Ranked(nodes, rank);
    if Above(nodes, x, x, k) {
      AboveRank(nodes, rank, nodes[x].parent.value, x, k - 1);
    }
  }

  lemma {:induction false} AboveRank(nodes: Forest, rank: map<Id, nat>, x: Id, y: Id, k: nat)
    requires Ranked(nodes, rank) && Above(nodes, x, y, k)
    ensures y in nodes && rank[x] >= rank[y]
    decreases k
  {
    if k > 0 {
      AboveRank(nodes, rank, nodes[x].parent.value, y, k - 1);
    }
  }

  /** `_reparent` leaves the forest acyclic exactly when the new parent is neither the node
    * itself (which it checks) nor a descendant of it (which it does not check). */
  lemma AttachedAcyclicIff(nodes: Forest, id: Id, q: Id)
    requires Acyclic(nodes) && id in nodes && q in nodes
    ensures Acyclic(Attached(nodes, id, q)) <==> !AtOrUnder(nodes, q, id)
  {
    var rank :| Ranked(nodes, rank);
    var nodes' := Attached(nodes, id, q);
    if AtOrUnder(nodes, q, id) {
      var k: nat :| Above(nodes, q, id, k);
      if Acyclic(nodes') {
        var rank' :| Ranked(nodes', rank');
        AttachedAbove(nodes, id, q, rank', q, k);
      }
    } else {
      LiftedRank(nodes, id, q, rank);
    }
  }

  lemma {:induction false} AttachedAbove(nodes: Forest, id: Id, q: Id, rank': map<Id, nat>, x: Id, k: nat)
    requires id in nodes && q in nodes && Ranked(Attached(nodes, id, q), rank')
    requires Above(nodes, x, id, k)
    ensures rank'[x] >= rank'[id]
    decreases k
  {
    if x != id {
      AttachedAbove(nodes, id, q, rank', nodes[x].parent.value, k - 1);
      AboveIn(nodes, nodes[x].parent.value, id, k - 1);
      assert Attached(nodes, id, q)[x].parent == nodes[x].parent;
    }
  }

  lemma AboveIn(nodes: Forest, x: Id, y: Id, k: nat)
    requires Above(nodes, x, y, k)
    ensures x in nodes
  {
  }

  lemma LiftedRank(nodes: Forest, id: Id, q: Id, rank: map<Id, nat>)
    requires Ranked(nodes, rank) && id in nodes && q in nodes && !AtOrUnder(nodes, q, id)
    ensures Acyclic(Attached(nodes, id, q))
  {
    var nodes' := Attached(nodes, id, q);
    var rank' := map x | x in nodes :: if AtOrUnder(nodes, x, id) then rank[x] + rank[q] + 1 else rank[x];
    assert Above(nodes, id, id, 0);
    forall x | x in nodes' && nodes'[x].parent.Some? && nodes'[x].parent.value in nodes'
      ensures rank'[nodes'[x].parent.value] < rank'[x]
    {
      if x != id {
        UnderParent(nodes, x, id);
      }
    }
    assert Ranked(nodes', rank');
  }

  lemma UnderParent(nodes: Forest, x: Id, id: Id)
    requires x in nodes && x != id && nodes[x].parent.Some?
    ensures AtOrUnder(nodes, x, id) <==> AtOrUnder(nodes, nodes[x].parent.value, id)
  {
    if AtOrUnder(nodes, x, id) {
      var k: nat :| Above(nodes, x, id, k);
      assert Above(nodes, nodes[x].parent.value, id, k - 1);
    }
    if AtOrUnder(nodes, nodes[x].parent.value, id) {
      var k: nat :| Above(nodes, nodes[x].parent.value, id, k);
      assert Above(nodes, x, id, k + 1);
    }
  }

  // ----- depth and path -----

  /** Every parent reference is live, stays in the project, and depth and path follow it. */
  ghost predicate Consistent(nodes: Forest) {
    forall x :: x in nodes ==> Fits(nodes, x)
  }

  predicate Fits(nodes: Forest, x: Id)
    requires x in nodes
  {
    var n := nodes[x];
    && n.path != "" && n.depth >= 0
    && (n.parent.Some? ==>
          && n.parent.value in nodes && nodes[n.parent.value].project == n.project
          && n.depth == nodes[n.parent.value].depth + 1
          && n.path == nodes[n.parent.value].path + "/" + n.parent.value)
  }

  /** Consistent depths are a rank: the parent relation has no cycle. */
  lemma ConsistentIsForest(nodes: Forest)
    requires Consistent(nodes)
    ensures Acyclic(nodes)
  {
    var rank: map<Id, nat> := map x | x in nodes :: if Fits(nodes, x) then nodes[x].depth else 0;
    assert forall x :: x in nodes ==> Fits(nodes, x);
    assert Ranked(nodes, rank);
  }

  lemma CreatedConsistent(nodes: Forest, id: Id, n: Node)
    requires Consistent(nodes) && id !in nodes
    requires n.parent.Some? ==> Usable(nodes, n.project, n.parent.value)
    ensures Consistent(Created(nodes, id, n))
  {
    var nodes' := Created(nodes, id, n);
    forall x | x in nodes' ensures Fits(nodes', x) {
      if x != id { assert Fits(nodes, x); }
      if n.parent.Some? { assert Fits(nodes, n.parent.value); }
    }
  }

  lemma LeafMoveFits(nodes: Forest, nodes': Forest, id: Id, q: Id, x: Id)
    requires Consistent(nodes) && id in nodes && Usable(nodes, nodes[id].project, q) && q != id
    requires Children(nodes, id) == {} && IsAttached(nodes, id, q, nodes') && x in nodes
    ensures Fits(nodes', x)
  {
    assert Fits(nodes, x) && Fits(nodes, q);
    assert x !in Children(nodes, id);
  }

  /** `_reparent` does not touch the node's descendants. It keeps depths and paths consistent
    * exactly when the new parent is another node and the moved node either has no children or
    * happens to keep its depth and path. */
  lemma AttachedConsistentIff(nodes: Forest, id: Id, q: Id)
    requires Consistent(nodes) && id in nodes && Usable(nodes, nodes[id].project, q)
    ensures Consistent(Attached(nodes, id, q)) <==>
              q != id && (Children(nodes, id) == {} ||
                          (nodes[id].depth == nodes[q].depth + 1 && nodes[id].path == nodes[q].path + "/" + q))
  {
    var nodes' := Attached(nodes, id, q);
    AttachedRows(nodes, id, q);
    assert Fits(nodes, id) && Fits(nodes, q);
    if q == id {
      assert !Fits(nodes', id);
    } else if Children(nodes, id) == {} {
      forall x | x in nodes' ensures Fits(nodes', x) { LeafMoveFits(nodes, nodes', id, q, x); }
    } else if nodes[id].depth == nodes[q].depth + 1 && nodes[id].path == nodes[q].path + "/" + q {
      forall x | x in nodes' ensures Fits(nodes', x) { assert Fits(nodes, x); }
    } else {
      ChildMisfits(nodes, id, q);
    }
  }

  lemma ChildMisfits(nodes: Forest, id: Id, q: Id)
    requires Consistent(nodes) && id in nodes && q in nodes && q != id && Children(nodes, id) != {}
    ensures Consistent(Attached(nodes, id, q)) ==>
              nodes[id].depth == nodes[q].depth + 1 && nodes[id].path == nodes[q].path + "/" + q
  {
    var nodes' := Attached(nodes, id, q);
    AttachedRows(nodes, id, q);
    if Consistent(nodes') {
      var c :| c in Children(nodes, id);
      assert Fits(nodes, c) && Fits(nodes', c) && Fits(nodes, q) && Fits(nodes', id);
      SamePath(nodes[id].path, nodes'[id].path, id);
    }
  }

  lemma SamePath(a: string, b: string, id: Id)
    requires a + "/" + id == b + "/" + id
    ensures a == b
  {
    assert a == (a + "/" + id)[..|a|] && b == (b + "/" + id)[..|b|];
  }

  /** d hangs together under id: everything in it but id has its parent in it. */
  ghost predicate Branch(nodes: Forest, d: set<Id>, id: Id) {
    && id in nodes && id in d
    && forall y :: y in d && y != id ==> y in nodes && nodes[y].parent.Some? && nodes[y].parent.value in d
  }

  lemma PrunedConsistent(nodes: Forest, d: set<Id>, id: Id)
    requires Consistent(nodes) && Branch(nodes, d, id)
    ensures Consistent(Pruned(nodes, d, nodes[id].parent))
  {
    var nodes' := Pruned(nodes, d, nodes[id].parent);
    forall x | x in nodes' ensures Fits(nodes', x) {
      assert Fits(nodes, x);
    }
  }

  // ----- roots and full paths -----

  predicate RootFits(nodes: Forest, x: Id)
    requires x in nodes
  {
    nodes[x].parent.None? ==> nodes[x].depth == 0 && nodes[x].path == "/" + x
  }

  /** Roots have depth 0 and a path of their own. */
  ghost predicate Rooted(nodes: Forest) {
    forall x :: x in nodes ==> RootFits(nodes, x)
  }

  /** x reaches a node without parent in exactly k steps. */
  ghost predicate RootIn(f: Forest, x: Id, k: nat)
    decreases k
  {
    x in f &&
    if k == 0 then f[x].parent.None? else f[x].parent.Some? && RootIn(f, f[x].parent.value, k - 1)
  }

  /** "/" and the root, then "/" and each node on the way down that has x below it. */
  ghost function Trail(nodes: Forest, x: Id, k: nat): string
    requires RootIn(nodes, x, k)
    decreases k
  {
    if k == 0 then "/" + x else Trail(nodes, nodes[x].parent.value, k - 1) + "/" + nodes[x].parent.value
  }

  /** Depth is the distance to the root and path the trail from it. */
  ghost predicate Placed(nodes: Forest, x: Id)
    requires x in nodes
  {
    var n := nodes[x];
    && (n.parent.Some? ==> n.parent.value in nodes && nodes[n.parent.value].project == n.project)
    && n.depth >= 0 && RootIn(nodes, x, n.depth) && n.path == Trail(nodes, x, n.depth)
  }

  /** The local rules for depth and path hold everywhere exactly when each node's depth and path
    * describe its whole chain of ancestors. */
  lemma PathsAreTrails(nodes: Forest)
    ensures Consistent(nodes) && Rooted(nodes) <==> forall x :: x in nodes ==> Placed(nodes, x)
  {
    if Consistent(nodes) && Rooted(nodes) {
      forall x | x in nodes ensures Placed(nodes, x) {
        assert Fits(nodes, x);
        FitsPlaced(nodes, x, nodes[x].depth);
      }
    }
    if forall x :: x in nodes ==> Placed(nodes, x) {
      forall x | x in nodes ensures Fits(nodes, x) && RootFits(nodes, x) {
        PlacedFits(nodes, x);
      }
    }
  }

  lemma {:induction false} FitsPlaced(nodes: Forest, x: Id, k: nat)
    requires Consistent(nodes) && Rooted(nodes) && x in nodes && nodes[x].depth == k
    ensures RootIn(nodes, x, k) && nodes[x].path == Trail(nodes, x, k)
    decreases k
  {
    assert Fits(nodes, x) && RootFits(nodes, x);
    if nodes[x].parent.Some? {
      assert Fits(nodes, nodes[x].parent.value);
      FitsPlaced(nodes, nodes[x].parent.value, k - 1);
    }
  }

  lemma PlacedFits(nodes: Forest, x: Id)
    requires x in nodes && forall y :: y in nodes ==> Placed(nodes, y)
    ensures Fits(nodes, x) && RootFits(nodes, x)
  {
    assert Placed(nodes, x);
    if nodes[x].parent.Some? {
      var q := nodes[x].parent.value;
      assert Placed(nodes, q);
      RootOnce(nodes, q, nodes[q].depth, nodes[x].depth - 1);
    }
  }

  lemma {:induction false} RootOnce(f: Forest, x: Id, k: nat, k': nat)
    requires RootIn(f, x, k) && RootIn(f, x, k')
    ensures k == k'
    decreases k
  {
    if k > 0 && k' > 0 {
      RootOnce(f, f[x].parent.value, k - 1, k' - 1);
    }
  }

  lemma CreatedRooted(nodes: Forest, id: Id, n: Node)
    requires Rooted(nodes) && id !in nodes && (n.parent.Some? ==> n.parent.value in nodes)
    ensures Rooted(Created(nodes, id, n))
  {
    forall x | x in Created(nodes, id, n) ensures RootFits(Created(nodes, id, n), x) {
      if x != id { assert RootFits(nodes, x); }
    }
  }

  lemma AttachedRooted(nodes: Forest, id: Id, q: Id)
    requires Rooted(nodes) && id in nodes && q in nodes
    ensures Rooted(Attached(nodes, id, q))
  {
    AttachedRows(nodes, id, q);
    forall x | x in nodes ensures RootFits(Attached(nodes, id, q), x) {
      assert RootFits(nodes, x);
    }
  }

  /** No row that stays names a removed row as its parent. */
  ghost predicate NoOrphan(nodes: Forest, d: set<Id>) {
    forall x :: x in nodes && x !in d && nodes[x].parent.Some? ==> nodes[x].parent.value !in d
  }

  /** A row that survives its parent becomes a root with its old depth and path. So a delete
    * keeps roots as they should be exactly when it leaves no orphan. */
  lemma PrunedRootedIff(nodes: Forest, d: set<Id>, up: Option<Id>)
    requires Consistent(nodes) && Rooted(nodes)
    ensures Rooted(Pruned(nodes, d, up)) <==> NoOrphan(nodes, d)
  {
    var nodes' := Pruned(nodes, d, up);
    if NoOrphan(nodes, d) {
      forall x | x in nodes' ensures RootFits(nodes', x) {
        assert RootFits(nodes, x);
      }
    } else {
      var x :| x in nodes && x !in d && nodes[x].parent.Some? && nodes[x].parent.value in d;
      assert Fits(nodes, x) && Fits(nodes, nodes[x].parent.value);
      assert !RootFits(nodes', x);
    }
  }

  // ----- child counts -----

  ghost predicate NoDangling(nodes: Forest) {
    forall x :: x in nodes && nodes[x].parent.Some? ==> nodes[x].parent.value in nodes
  }

  ghost predicate CountsExact(nodes: Forest) {
    forall x :: x in nodes ==> nodes[x].childCount == |Children(nodes, x)|
  }

  lemma CreatedCounts(nodes: Forest, id: Id, n: Node)
    requires n.parent.Some? ==> n.parent.value in nodes
    requires CountsExact(nodes) && NoDangling(nodes) && id !in nodes
    ensures NoDangling(Created(nodes, id, n)) && CountsExact(Created(nodes, id, n))
  {
    var nodes' := Created(nodes, id, n);
    forall x | x in nodes' ensures nodes'[x].childCount == |Children(nodes', x)| {
      CreatedChildren(nodes, id, n, x);
    }
  }

  lemma CreatedChildren(nodes: Forest, id: Id, n: Node, x: Id)
    requires NoDangling(nodes) && id !in nodes
    requires n.parent.Some? ==> n.parent.value in nodes
    ensures |Children(Created(nodes, id, n), x)| == |Children(nodes, x)| + if n.parent == Some(x) then 1 else 0
    ensures Children(nodes, id) == {}
  {
    if n.parent == Some(x) {
      assert Children(Created(nodes, id, n), x) == Children(nodes, x) + {id};
    } else {
      assert Children(Created(nodes, id, n), x) == Children(nodes, x);
    }
  }

  lemma AttachedCounts(nodes: Forest, id: Id, q: Id)
    requires NoDangling(nodes) && CountsExact(nodes) && id in nodes && q in nodes && nodes[id].parent != Some(q)
    ensures NoDangling(Attached(nodes, id, q)) && CountsExact(Attached(nodes, id, q))
  {
    var nodes' := Attached(nodes, id, q);
    AttachedRows(nodes, id, q);
    forall x | x in nodes' ensures nodes'[x].childCount == |Children(nodes', x)| {
      AttachedChildren(nodes, id, q, x);
    }
  }

  lemma AttachedChildren(nodes: Forest, id: Id, q: Id, x: Id)
    requires id in nodes && q in nodes && nodes[id].parent != Some(q)
    ensures |Children(Attached(nodes, id, q), x)| == |Children(nodes, x)|
              + (if x == q then 1 else 0) - (if nodes[id].parent == Some(x) then 1 else 0)
    ensures nodes[id].parent == Some(x) ==> |Children(nodes, x)| > 0
  {
    AttachedRows(nodes, id, q);
    MovedChildren(nodes, Attached(nodes, id, q), id, q, x);
  }

  lemma MovedChildren(nodes: Forest, nodes': Forest, id: Id, q: Id, x: Id)
    requires id in nodes && nodes'.Keys == nodes.Keys && nodes[id].parent != Some(q) && nodes'[id].parent == Some(q)
    requires forall y :: y in nodes && y != id ==> nodes'[y].parent == nodes[y].parent
    ensures |Children(nodes', x)| == |Children(nodes, x)|
              + (if x == q then 1 else 0) - (if nodes[id].parent == Some(x) then 1 else 0)
    ensures nodes[id].parent == Some(x) ==> |Children(nodes, x)| > 0
  {
    var was, now := Children(nodes, x), Children(nodes', x);
    if x == q {
      assert now == was + {id};
    } else if nodes[id].parent == Some(x) {
      assert id in was && now == was - {id};
    } else {
      assert now == was;
    }
  }

  lemma PrunedCounts(nodes: Forest, d: set<Id>, id: Id)
    requires NoDangling(nodes) && CountsExact(nodes) && Branch(nodes, d, id)
    ensures NoDangling(Pruned(nodes, d, nodes[id].parent)) && CountsExact(Pruned(nodes, d, nodes[id].parent))
  {
    var nodes' := Pruned(nodes, d, nodes[id].parent);
    forall x | x in nodes' ensures nodes'[x].childCount == |Children(nodes', x)| {
      PrunedChildren(nodes, d, id, x);
    }
  }

  /** A surviving node loses at most the child at which the branch was cut off. */
  lemma PrunedChildren(nodes: Forest, d: set<Id>, id: Id, x: Id)
    requires Branch(nodes, d, id) && x in nodes && x !in d
    ensures var lost := if nodes[id].parent == Some(x) then {id} else {};
            Children(Pruned(nodes, d, nodes[id].parent), x) == Children(nodes, x) - lost && lost <= Children(nodes, x)
  {
    var nodes' := Pruned(nodes, d, nodes[id].parent);
    var lost: set<Id> := if nodes[id].parent == Some(x) then {id} else {};
    forall y ensures y in Children(nodes', x) <==> y in Children(nodes, x) - lost {
      if y in Children(nodes, x) && y in d { assert y == id; }
    }
  }

  /** The counts of the nodes listed, in any order. */
  function TotalCount(nodes: Forest, order: seq<Id>): int
    requires forall x :: x in order ==> x in nodes
  {
    if |order| == 0 then 0
    else TotalCount(nodes, order[..|order| - 1]) + nodes[order[|order| - 1]].childCount
  }

  ghost function ChildrenOfAny(nodes: Forest, xs: seq<Id>): set<Id> {
    set y | y in nodes && nodes[y].parent.Some? && nodes[y].parent.value in xs
  }

  lemma {:induction false} TotalIsChildren(nodes: Forest, order: seq<Id>)
    requires CountsExact(nodes)
    requires forall x :: x in order ==> x in nodes
    requires Distinct(order)
    ensures TotalCount(nodes, order) == |ChildrenOfAny(nodes, order)|
  {
    if |order| > 0 {
      var rest, x := order[..|order| - 1], order[|order| - 1];
      TotalIsChildren(nodes, rest);
      assert ChildrenOfAny(nodes, order) == ChildrenOfAny(nodes, rest) + Children(nodes, x);
      assert ChildrenOfAny(nodes, rest) !! Children(nodes, x);
    }
  }

  /** Summed over the whole table, the counts are the number of nodes that have a parent. */
  lemma CountsSumToNonRoots(nodes: Forest, order: seq<Id>)
    requires NoDangling(nodes) && CountsExact(nodes)
    requires forall x :: x in order <==> x in nodes
    requires Distinct(order)
    ensures TotalCount(nodes, order) == |set x | x in nodes && nodes[x].parent.Some?|
  {
    TotalIsChildren(nodes, order);
    assert ChildrenOfAny(nodes, order) == set x | x in nodes && nodes[x].parent.Some?;
  }

  // ----- the doomed set -----

  /** What a delete removes is a branch. */
  lemma DoomedIsBranch(nodes: Forest, project: string, now: int, id: Id)
    requires id in nodes
    ensures Branch(nodes, Doomed(nodes, project, now, id), id)
  {
    var d := Doomed(nodes, project, now, id);
    assert FallsIn(nodes, project, now, id, id, 0);
    forall y | y in d && y != id
      ensures y in nodes && nodes[y].parent.Some? && nodes[y].parent.value in d
    {
      var k: nat :| FallsIn(nodes, project, now, y, id, k);
      assert FallsIn(nodes, project, now, nodes[y].parent.value, id, k - 1);
    }
  }

  /** A node falls with id exactly when it is id or falls with a listed child of id. */
  lemma {:induction false} FallsThroughChild(nodes: Forest, project: string, now: int, x: Id, id: Id, k: nat)
    returns (c: Id)
    requires FallsIn(nodes, project, now, x, id, k) && k > 0
    ensures Listed(nodes, project, now, c) && nodes[c].parent == Some(id) && FallsIn(nodes, project, now, x, c, k - 1)
    decreases k
  {
    if k == 1 {
      c := x;
    } else {
      c := FallsThroughChild(nodes, project, now, nodes[x].parent.value, id, k - 1);
    }
  }

  lemma {:induction false} FallsFurther(nodes: Forest, project: string, now: int, x: Id, c: Id, k: nat)
    requires FallsIn(nodes, project, now, x, c, k)
    requires Listed(nodes, project, now, c) && nodes[c].parent.value in nodes
    ensures FallsIn(nodes, project, now, x, nodes[c].parent.value, k + 1)
    decreases k
  {
    if k > 0 {
      FallsFurther(nodes, project, now, nodes[x].parent.value, c, k - 1);
    }
  }

  /** No node falls with two children of the same parent that lie on no cycle. */
  lemma {:induction false} SiblingsApart(nodes: Forest, project: string, now: int, x: Id, id: Id,
                                         c: Id, c': Id, k: nat, k': nat)
    requires FallsIn(nodes, project, now, x, c, k) && FallsIn(nodes, project, now, x, c', k')
    requires Listed(nodes, project, now, c) && nodes[c].parent == Some(id) && !OnListedCycle(nodes, project, now, c)
    requires Listed(nodes, project, now, c') && nodes[c'].parent == Some(id) && !OnListedCycle(nodes, project, now, c')
    ensures c == c'
    decreases k
  {
    if k == 0 && k' > 0 {
      assert FallsIn(nodes, project, now, id, c', k' - 1);
      assert FallsIn(nodes, project, now, c', c', k');
    } else if k > 0 && k' == 0 {
      assert FallsIn(nodes, project, now, id, c, k - 1);
      assert FallsIn(nodes, project, now, c, c, k);
    } else if k > 0 && k' > 0 {
      SiblingsApart(nodes, project, now, nodes[x].parent.value, id, c, c', k - 1, k' - 1);
    }
  }

  // ----- when a cascade ends -----

  /** The recursion of a cascade ends if and only if the node lies on no cycle of listed links. A
    * cycle elsewhere in the table, or through a row that is not in force, does not matter. */
  lemma CascadeEndsIff(nodes: Forest, project: string, now: int, id: Id)
    requires id in nodes
    ensures (exists limit: nat :: EndsWithin(nodes, project, now, id, limit)) <==>
              !OnListedCycle(nodes, project, now, id)
  {
    if limit: nat :| EndsWithin(nodes, project, now, id, limit) {
      EndsOffCycle(nodes, project, now, id, limit);
    }
    if !OnListedCycle(nodes, project, now, id) {
      var limit := |Doomed(nodes, project, now, id)|;
      OffCycleEnds(nodes, project, now, id, limit);
      assert EndsWithin(nodes, project, now, id, limit);
    }
  }

  lemma {:induction false} EndsOffCycle(nodes: Forest, project: string, now: int, id: Id, limit: nat)
    requires EndsWithin(nodes, project, now, id, limit)
    ensures !OnListedCycle(nodes, project, now, id)
    decreases limit
  {
    if k: nat :| k > 0 && FallsIn(nodes, project, now, id, id, k) {
      var c := FallsThroughChild(nodes, project, now, id, id, k);
      assert FallsIn(nodes, project, now, c, c, k);
      EndsOffCycle(nodes, project, now, c, limit - 1);
    }
  }

  lemma {:induction false} OffCycleEnds(nodes: Forest, project: string, now: int, id: Id, limit: nat)
    requires id in nodes && !OnListedCycle(nodes, project, now, id)
    requires |Doomed(nodes, project, now, id)| <= limit
    ensures EndsWithin(nodes, project, now, id, limit)
    decreases limit
  {
    forall c | Listed(nodes, project, now, c) && nodes[c].parent == Some(id)
      ensures limit > 0 && EndsWithin(nodes, project, now, c, limit - 1)
    {
      SmallerBelow(nodes, project, now, id, c);
      OffCycleEnds(nodes, project, now, c, limit - 1);
    }
  }

  lemma SmallerBelow(nodes: Forest, project: string, now: int, id: Id, c: Id)
    requires id in nodes && !OnListedCycle(nodes, project, now, id)
    requires Listed(nodes, project, now, c) && nodes[c].parent == Some(id)
    ensures |Doomed(nodes, project, now, c)| < |Doomed(nodes, project, now, id)|
    ensures !OnListedCycle(nodes, project, now, c)
  {
    var d, e := Doomed(nodes, project, now, id), Doomed(nodes, project, now, c);
    assert FallsIn(nodes, project, now, id, id, 0);
    forall x | x in e ensures x in d && x != id {
      var k: nat :| FallsIn(nodes, project, now, x, c, k);
      FallsFurther(nodes, project, now, x, c, k);
    }
    ProperSubset(e, d, id);
    if k: nat :| k > 0 && FallsIn(nodes, project, now, c, c, k) {
      FallsFurther(nodes, project, now, id, c, k - 1);
    }
  }

  lemma ProperSubset(e: set<Id>, d: set<Id>, x: Id)
    requires e <= d && x in d && x !in e
    ensures |e| < |d|
  {
    assert e <= d - {x};
    SubsetSize(e, d - {x});
  }

  lemma {:induction false} SubsetSize(e: set<Id>, d: set<Id>)
    requires e <= d
    ensures |e| <= |d|
  {
    if e != {} {
      var x :| x in e;
      SubsetSize(e - {x}, d - {x});
    }
  }

  /** In an acyclic table every cascade ends. */
  lemma AcyclicOffCycle(nodes: Forest, project: string, now: int, id: Id)
    requires Acyclic(nodes)
    ensures !OnListedCycle(nodes, project, now, id)
  {
    if k: nat :| k > 0 && FallsIn(nodes, project, now, id, id, k) {
      FallsAbove(nodes, project, now, id, id, k);
      AcyclicMeaning(nodes, id, k);
    }
  }

  lemma {:induction false} FallsAbove(nodes: Forest, project: string, now: int, x: Id, y: Id, k: nat)
    requires FallsIn(nodes, project, now, x, y, k)
    ensures Above(nodes, x, y, k)
    decreases k
  {
    if k > 0 {
      FallsAbove(nodes, project, now, nodes[x].parent.value, y, k - 1);
    }
  }
}
