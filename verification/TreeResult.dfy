/** What `get_tree` returns (core/memory_tree/service.py), in terms of the table's own parent column. */
module TreeResult {
  import opened Wrappers
  import opened MemoryForest
  import opened MemoryTree
  import opened TreeAssembly

  /** Parents lead from x to y in k steps, through listed nodes only. */
  ghost predicate Climbs(nodes: Forest, ids: seq<Id>, x: Id, y: Id, k: nat)
    decreases k
  {
    x in ids && x in nodes &&
    if k == 0 then x == y else nodes[x].parent.Some? && Climbs(nodes, ids, nodes[x].parent.value, y, k - 1)
  }

  /** k steps through listed nodes lead from x to one without a listed parent. */
  ghost predicate ClimbsOut(nodes: Forest, ids: seq<Id>, x: Id, k: nat)
    decreases k
  {
    x in ids && x in nodes &&
    if k == 0 then nodes[x].parent.None? || nodes[x].parent.value !in ids
    else nodes[x].parent.Some? && ClimbsOut(nodes, ids, nodes[x].parent.value, k - 1)
  }

  /** The chain of listed parents from x comes to an end. */
  ghost predicate Ends(nodes: Forest, ids: seq<Id>, x: Id) {
    exists k: nat :: ClimbsOut(nodes, ids, x, k)
  }

  /** No chain of listed parents returns to its start. */
  ghost predicate NoReturn(nodes: Forest, ids: seq<Id>) {
    forall x, k: nat :: k > 0 ==> !Climbs(nodes, ids, x, x, k)
  }

  /** y is one of the children nested in x, somewhere in ts. */
  ghost predicate ChildIn(ts: seq<Tree>, x: Id, y: Id)
    decreases ts
  {
    |ts| > 0 && ((ts[0].id == x && y in IdsOf(ts[0].kids)) || ChildIn(ts[0].kids, x, y) || ChildIn(ts[1..], x, y))
  }

  /** The objects come in list order, none of them twice. */
  ghost predicate InListOrder(ids: seq<Id>, os: seq<TreeDict>) {
    forall i, j :: 0 <= i < j < |os| ==> Before(ids, os[i].id, os[j].id)
  }

  ghost predicate Before(ids: seq<Id>, x: Id, y: Id) {
    exists a, b :: 0 <= a < b < |ids| && ids[a] == x && ids[b] == y
  }

  // ----- the objects -----

  /** A dict is among the children of its parent's dict, and among the roots where no parent is
    * listed; children and roots are in list order. */
  lemma ObjectsFollowParents(nodes: Forest, project: string, layer: string, now: int, roots: seq<TreeDict>,
                             ids: seq<Id>, byId: map<Id, TreeDict>)
    requires Lists(nodes, ids, project, layer, None, Some(now)) && Registered(byId, ids)
    requires Assembled(Restricted(nodes, ids), byId, ids, roots)
    ensures forall x, q :: x in ids && q in ids ==> (byId[x] in byId[q].children <==> nodes[x].parent == Some(q))
    ensures forall x :: x in ids ==> (byId[x] in roots <==> nodes[x].parent.None? || nodes[x].parent.value !in ids)
    ensures forall q :: q in ids ==> InListOrder(ids, byId[q].children)
    ensures InListOrder(ids, roots)
  {
    var f := Restricted(nodes, ids);
    forall x, q | x in ids && q in ids ensures byId[x] in byId[q].children <==> nodes[x].parent == Some(q) {
      assert Wired(f, byId, ids, q);
      ObjectIn(f, byId, ids, Some(q), x);
    }
    forall x | x in ids ensures byId[x] in roots <==> nodes[x].parent.None? || nodes[x].parent.value !in ids {
      ObjectIn(f, byId, ids, None, x);
    }
    forall q | q in ids ensures InListOrder(ids, byId[q].children) {
      assert Wired(f, byId, ids, q);
      ObjectsOrdered(f, byId, ids, Some(q));
    }
    ObjectsOrdered(f, byId, ids, None);
  }

  lemma ObjectIn(f: Forest, byId: map<Id, TreeDict>, ids: seq<Id>, p: Option<Id>, x: Id)
    requires Registered(byId, ids) && (forall y :: y in ids ==> y in f) && AllIn(byId, Under(f, ids, p)) && x in ids
    ensures byId[x] in ObjectsOf(byId, Under(f, ids, p)) <==> f[x].parent == p
  {
    UnderHas(f, ids, p, x);
    var xs := Under(f, ids, p);
    if x in xs {
      var i :| 0 <= i < |xs| && xs[i] == x;
      assert ObjectsOf(byId, xs)[i] == byId[x];
    }
    if byId[x] in ObjectsOf(byId, xs) {
      var i :| 0 <= i < |xs| && ObjectsOf(byId, xs)[i] == byId[x];
      assert byId[xs[i]].id == byId[x].id;
    }
  }

  lemma ObjectsOrdered(f: Forest, byId: map<Id, TreeDict>, ids: seq<Id>, p: Option<Id>)
    requires Registered(byId, ids) && (forall y :: y in ids ==> y in f) && AllIn(byId, Under(f, ids, p))
    ensures InListOrder(ids, ObjectsOf(byId, Under(f, ids, p)))
  {
    var os := ObjectsOf(byId, Under(f, ids, p));
    forall i, j | 0 <= i < j < |os| ensures Before(ids, os[i].id, os[j].id) {
      var a, b := UnderKeepsOrder(f, ids, p, i, j);
      assert ids[a] == os[i].id && ids[b] == os[j].id;
    }
  }

  // ----- every reading -----

  /** ts nests the listed nodes by the parent column: the tops have no listed parent, y is a child of
    * x exactly where x is its parent, each node appears once if its listed parents come to an end and
    * not at all if they do not, and nothing is lost exactly when no chain of listed parents returns to
    * its start. */
  ghost predicate FollowsParents(nodes: Forest, ids: seq<Id>, ts: seq<Tree>)
    requires forall x :: x in ids ==> x in nodes
  {
    && (forall x :: x in IdsOf(ts) <==> x in ids && (nodes[x].parent.None? || nodes[x].parent.value !in ids))
    && (forall x, y :: ChildIn(ts, x, y) <==> x in Flatten(ts) && y in ids && nodes[y].parent == Some(x))
    && Distinct(Flatten(ts)) && (forall x :: x in Flatten(ts) <==> Ends(nodes, ids, x))
    && (multiset(Flatten(ts)) == multiset(ids) <==> NoReturn(nodes, ids))
  }

  /** The result can be read, and every reading follows the parents. */
  lemma ReadingsFollowParents(nodes: Forest, project: string, layer: string, now: int, roots: seq<TreeDict>,
                              ids: seq<Id>, byId: map<Id, TreeDict>)
    requires Lists(nodes, ids, project, layer, None, Some(now)) && Registered(byId, ids)
    requires Assembled(Restricted(nodes, ids), byId, ids, roots)
    ensures exists ts :: Reads(roots, ts, byId.Values)
    ensures forall ts :: Reads(roots, ts, byId.Values) ==> FollowsParents(nodes, ids, ts)
  {
    GetTreeExact(nodes, project, layer, now, roots, ids, byId);
    forall ts | Reads(roots, ts, byId.Values) ensures FollowsParents(nodes, ids, ts) {
      NestedFollowsParents(nodes, ids, ts);
    }
  }

  lemma NestedFollowsParents(nodes: Forest, ids: seq<Id>, ts: seq<Tree>)
    requires (forall x :: x in ids ==> x in nodes) && NestsExactly(Restricted(nodes, ids), ids, ts)
    ensures FollowsParents(nodes, ids, ts)
  {
    TopsFollow(nodes, ids, IdsOf(ts));
    ShownFollow(nodes, ids, Flatten(ts));
    ChildrenFollow(nodes, ids, ts);
    AcyclicIffNoReturn(nodes, ids);
  }

  lemma TopsFollow(nodes: Forest, ids: seq<Id>, tops: seq<Id>)
    requires (forall x :: x in ids ==> x in nodes) && tops == Under(Restricted(nodes, ids), ids, None)
    ensures forall x :: x in tops <==> x in ids && (nodes[x].parent.None? || nodes[x].parent.value !in ids)
  {
    forall x ensures x in tops <==> x in ids && (nodes[x].parent.None? || nodes[x].parent.value !in ids) {
      UnderHas(Restricted(nodes, ids), ids, None, x);
    }
  }

  lemma ShownFollow(nodes: Forest, ids: seq<Id>, shown: seq<Id>)
    requires (forall x :: x in ids ==> x in nodes) && forall x :: x in shown <==> Shown(Restricted(nodes, ids), x)
    ensures forall x :: x in shown <==> Ends(nodes, ids, x)
  {
    forall x ensures x in shown <==> Ends(nodes, ids, x) {
      ShownIffClimbsOut(nodes, ids, x);
    }
  }

  lemma ChildrenFollow(nodes: Forest, ids: seq<Id>, ts: seq<Tree>)
    requires (forall x :: x in ids ==> x in nodes) && Faithful(Restricted(nodes, ids), ids, ts)
    requires forall x :: x in Flatten(ts) ==> Shown(Restricted(nodes, ids), x)
    ensures forall x, y :: ChildIn(ts, x, y) <==> x in Flatten(ts) && y in ids && nodes[y].parent == Some(x)
  {
    forall x, y ensures ChildIn(ts, x, y) <==> x in Flatten(ts) && y in ids && nodes[y].parent == Some(x) {
      ChildIffUnder(Restricted(nodes, ids), ids, ts, x, y);
      UnderHas(Restricted(nodes, ids), ids, Some(x), y);
    }
  }

  lemma {:induction false} ChildIffUnder(f: Forest, ids: seq<Id>, ts: seq<Tree>, x: Id, y: Id)
    requires (forall z :: z in ids ==> z in f) && Faithful(f, ids, ts)
    ensures ChildIn(ts, x, y) <==> x in Flatten(ts) && y in Under(f, ids, Some(x))
    decreases ts
  {
    if |ts| > 0 {
      ChildIffUnder(f, ids, ts[0].kids, x, y);
      ChildIffUnder(f, ids, ts[1..], x, y);
    }
  }

  lemma ShownIffClimbsOut(nodes: Forest, ids: seq<Id>, x: Id)
    requires forall y :: y in ids ==> y in nodes
    ensures Shown(Restricted(nodes, ids), x) <==> Ends(nodes, ids, x)
  {
    if Shown(Restricted(nodes, ids), x) {
      var k: nat :| RootIn(Restricted(nodes, ids), x, k);
      RootIffClimbsOut(nodes, ids, x, k);
    }
    if k: nat :| ClimbsOut(nodes, ids, x, k) {
      RootIffClimbsOut(nodes, ids, x, k);
    }
  }

  lemma {:induction false} RootIffClimbsOut(nodes: Forest, ids: seq<Id>, x: Id, k: nat)
    requires forall y :: y in ids ==> y in nodes
    ensures RootIn(Restricted(nodes, ids), x, k) <==> ClimbsOut(nodes, ids, x, k)
    decreases k
  {
    if k > 0 && x in nodes && nodes[x].parent.Some? {
      RootIffClimbsOut(nodes, ids, nodes[x].parent.value, k - 1);
    }
  }

  lemma {:induction false} AboveIffClimbs(nodes: Forest, ids: seq<Id>, x: Id, y: Id, k: nat)
    requires forall z :: z in ids ==> z in nodes
    ensures Above(Restricted(nodes, ids), x, y, k) <==> Climbs(nodes, ids, x, y, k)
    decreases k
  {
    if k > 0 && x in nodes && nodes[x].parent.Some? {
      AboveIffClimbs(nodes, ids, nodes[x].parent.value, y, k - 1);
    }
  }

  lemma AcyclicIffNoReturn(nodes: Forest, ids: seq<Id>)
    requires forall z :: z in ids ==> z in nodes
    ensures Acyclic(Restricted(nodes, ids)) <==> NoReturn(nodes, ids)
  {
    var f := Restricted(nodes, ids);
    RestrictedForest(nodes, ids);
    if Acyclic(f) {
      forall x, k: nat | k > 0 ensures !Climbs(nodes, ids, x, x, k) {
        AcyclicMeaning(f, x, k);
        AboveIffClimbs(nodes, ids, x, x, k);
      }
    } else {
      AllShownIff(f);
      var x :| x in f && !Shown(f, x);
      var y, k := Returns(f, x);
      AboveIffClimbs(nodes, ids, y, y, k);
    }
  }

  /** Where the parents of a node never end, they come back to some node. */
  lemma Returns(f: Forest, x: Id) returns (y: Id, k: nat)
    requires NoDangling(f) && x in f && !Shown(f, x)
    ensures k > 0 && Above(f, y, y, k)
  {
    var p := Walk(f, x, |f|);
    if Distinct(p) {
      DistinctFits(p, f.Keys);
      assert false;
    }
    var i, j :| 0 <= i < j < |p| && p[i] == p[j];
    y, k := p[i], j - i;
    WalkAbove(f, p, i, j);
  }

  /** Each node of p is followed by its parent. */
  ghost predicate IsWalk(f: Forest, p: seq<Id>) {
    && (forall i :: 0 <= i < |p| ==> p[i] in f)
    && forall i :: 0 <= i < |p| - 1 ==> f[p[i]].parent == Some(p[i + 1])
  }

  lemma {:induction false} Walk(f: Forest, x: Id, k: nat) returns (p: seq<Id>)
    requires NoDangling(f) && x in f && !Shown(f, x)
    ensures |p| == k + 1 && p[0] == x && IsWalk(f, p)
    decreases k
  {
    p := [x];
    if k > 0 {
      assert !RootIn(f, x, 0);
      var q := f[x].parent.value;
      if Shown(f, q) {
        var j: nat :| RootIn(f, q, j);
        assert RootIn(f, x, j + 1);
      }
      var rest := Walk(f, q, k - 1);
      p := [x] + rest;
    }
  }

  lemma {:induction false} WalkAbove(f: Forest, p: seq<Id>, i: nat, j: nat)
    requires IsWalk(f, p) && i <= j < |p|
    ensures Above(f, p[i], p[j], j - i)
    decreases j - i
  {
    if i < j {
      WalkAbove(f, p, i + 1, j);
    }
  }

  lemma {:induction false} DistinctFits(p: seq<Id>, s: set<Id>)
    requires Distinct(p) && forall i :: 0 <= i < |p| ==> p[i] in s
    ensures |p| <= |s|
    decreases |p|
  {
    if |p| > 0 {
      var n := |p| - 1;
      DistinctFits(p[..n], s - {p[n]});
    }
  }
}
