/** `get_tree` (core/memory_tree/service.py): a nested tree assembled from a flat list by
  * appending shared objects to one another's children. */
module TreeAssembly {
  import opened Wrappers
  import opened MemoryForest
  import opened MemoryTree

  /** The dict made for one node; `children` is filled in place. */
  class TreeDict {
    const id: Id
    var children: seq<TreeDict>

    constructor (id: Id)
      ensures this.id == id && children == []
    {
      this.id := id;
      children := [];
    }
  }

  // ----- what the list says -----

  /** The listed nodes, with a parent only where that parent is listed too. */
  function Restricted(nodes: Forest, ids: seq<Id>): Forest
    requires forall x :: x in ids ==> x in nodes
  {
    map x | x in ids :: nodes[x].(parent :=
      if nodes[x].parent.Some? && nodes[x].parent.value in ids then nodes[x].parent else None)
  }

  /** The listed nodes with the given parent, in list order. */
  function Under(f: Forest, ids: seq<Id>, p: Option<Id>): seq<Id>
    requires forall x :: x in ids ==> x in f
  {
    if |ids| == 0 then []
    else
      var x := ids[|ids| - 1];
      Under(f, ids[..|ids| - 1], p) + (if f[x].parent == p then [x] else [])
  }

  lemma {:induction false} UnderHas(f: Forest, ids: seq<Id>, p: Option<Id>, x: Id)
    requires forall y :: y in ids ==> y in f
    ensures x in Under(f, ids, p) <==> x in ids && f[x].parent == p
  {
    if |ids| > 0 {
      UnderHas(f, ids[..|ids| - 1], p, x);
      assert ids == ids[..|ids| - 1] + [ids[|ids| - 1]];
    }
  }

  /** Exactly the listed nodes with that parent, each once. */
  lemma {:induction false} UnderMeaning(f: Forest, ids: seq<Id>, p: Option<Id>)
    requires forall x :: x in ids ==> x in f
    requires Distinct(ids)
    ensures forall x :: x in Under(f, ids, p) <==> x in ids && f[x].parent == p
    ensures Distinct(Under(f, ids, p))
  {
    forall x ensures x in Under(f, ids, p) <==> x in ids && f[x].parent == p {
      UnderHas(f, ids, p, x);
    }
    if |ids| > 0 {
      var rest, x := ids[..|ids| - 1], ids[|ids| - 1];
      UnderMeaning(f, rest, p);
      assert x !in Under(f, rest, p);
      DistinctSnoc(Under(f, rest, p), x);
    }
  }

  /** Every pair is in list order: Under never reorders. */
  lemma {:induction false} UnderKeepsOrder(f: Forest, ids: seq<Id>, p: Option<Id>, i: nat, j: nat)
    returns (a: nat, b: nat)
    requires forall x :: x in ids ==> x in f
    requires i < j < |Under(f, ids, p)|
    ensures a < b < |ids| && ids[a] == Under(f, ids, p)[i] && ids[b] == Under(f, ids, p)[j]
  {
    var n := |ids| - 1;
    var before := Under(f, ids[..n], p);
    if j < |before| {
      a, b := UnderKeepsOrder(f, ids[..n], p, i, j);
    } else {
      a := UnderIn(f, ids[..n], p, i);
      b := n;
    }
  }

  lemma {:induction false} UnderIn(f: Forest, ids: seq<Id>, p: Option<Id>, i: nat) returns (a: nat)
    requires forall x :: x in ids ==> x in f
    requires i < |Under(f, ids, p)|
    ensures a < |ids| && ids[a] == Under(f, ids, p)[i]
  {
    var n := |ids| - 1;
    if i < |Under(f, ids[..n], p)| {
      a := UnderIn(f, ids[..n], p, i);
    } else {
      a := n;
    }
  }

  // ----- the assembly -----

  function ObjectsOf(byId: map<Id, TreeDict>, ids: seq<Id>): seq<TreeDict>
    requires forall x :: x in ids ==> x in byId
  {
    seq(|ids|, i requires 0 <= i < |ids| => byId[ids[i]])
  }

  /** One object per listed node, all of them different. */
  ghost predicate Registered(byId: map<Id, TreeDict>, ids: seq<Id>) {
    && (forall x :: x in byId <==> x in ids)
    && forall x :: x in byId ==> byId[x].id == x
  }

  ghost predicate AllIn(byId: map<Id, TreeDict>, xs: seq<Id>) {
    forall x :: x in xs ==> x in byId
  }

  /** Each object's children are the objects of xs' nodes under it, in order. */
  ghost predicate Wired(f: Forest, byId: map<Id, TreeDict>, xs: seq<Id>, x: Id)
    requires x in byId && forall y :: y in xs ==> y in f
    reads byId[x]
  {
    AllIn(byId, Under(f, xs, Some(x))) && byId[x].children == ObjectsOf(byId, Under(f, xs, Some(x)))
  }

  /** Children and roots as far as the first n nodes of the list go. */
  ghost predicate Linked(f: Forest, byId: map<Id, TreeDict>, ids: seq<Id>, n: nat, roots: seq<TreeDict>)
    requires n <= |ids| && Registered(byId, ids) && forall x :: x in ids ==> x in f
    reads byId.Values
  {
    && AllIn(byId, Under(f, ids[..n], None))
    && roots == ObjectsOf(byId, Under(f, ids[..n], None))
    && forall x :: x in byId ==> Wired(f, byId, ids[..n], x)
  }

  /** Every object is wired to the objects under it, over the whole list. */
  ghost predicate AllWired(f: Forest, byId: map<Id, TreeDict>, ids: seq<Id>)
    requires forall x :: x in ids ==> x in f
    reads byId.Values
  {
    forall x :: x in byId ==> Wired(f, byId, ids, x)
  }

  /** The finished objects: every dict and the roots wired over the whole list. */
  ghost predicate Assembled(f: Forest, byId: map<Id, TreeDict>, ids: seq<Id>, roots: seq<TreeDict>)
    requires forall x :: x in ids ==> x in f
    reads byId.Values
  {
    && AllIn(byId, Under(f, ids, None)) && roots == ObjectsOf(byId, Under(f, ids, None))
    && AllWired(f, byId, ids)
  }

  /** `get_tree`. The list and the objects are returned beside the roots so that the result can
    * be described. */
  method GetTree(tree: Service, project: string, layer: string, now: int)
    returns (roots: seq<TreeDict>, ids: seq<Id>, byId: map<Id, TreeDict>)
    ensures Lists(tree.nodes, ids, project, layer, None, Some(now))
    ensures Registered(byId, ids) && forall x :: x in byId ==> fresh(byId[x])
    ensures Assembled(Restricted(tree.nodes, ids), byId, ids, roots)
  {
    ids := tree.ListNodes(project, layer, None, Some(now));
    ghost var f := Restricted(tree.nodes, ids);
    byId := Dicts(ids);
    roots := [];
    assert ids[..|ids|] == ids && ids[..0] == [];
    for i := 0 to |ids|
      invariant Linked(f, byId, ids, i, roots)
    {
      roots := Place(f, ids, i, byId, roots, tree.nodes[ids[i]].parent);
    }
  }

  /** The first loop of `get_tree`: a dict without children for each node. */
  method Dicts(ids: seq<Id>) returns (byId: map<Id, TreeDict>)
    requires Distinct(ids)
    ensures Registered(byId, ids)
    ensures forall x :: x in byId ==> fresh(byId[x]) && byId[x].children == []
  {
    byId := map[];
    for i := 0 to |ids|
      invariant Registered(byId, ids[..i])
      invariant forall x :: x in byId ==> fresh(byId[x])
      invariant forall x :: x in byId ==> byId[x].children == []
    {
      var d := new TreeDict(ids[i]);
      assert ids[..i + 1] == ids[..i] + [ids[i]];
      byId := byId[ids[i] := d];
    }
    assert ids[..|ids|] == ids;
  }

  /** The body of the second loop of `get_tree`: hang node i under its parent's dict, or make it a root. */
  method Place(ghost f: Forest, ids: seq<Id>, i: nat, byId: map<Id, TreeDict>, roots: seq<TreeDict>, p: Option<Id>)
    returns (roots': seq<TreeDict>)
    requires i < |ids| && Registered(byId, ids) && forall x :: x in ids ==> x in f
    requires f[ids[i]].parent == if p.Some? && p.value in byId then p else None
    requires Linked(f, byId, ids, i, roots)
    modifies byId.Values
    ensures Linked(f, byId, ids, i + 1, roots')
  {
    var d := byId[ids[i]];
    roots' := roots;
    UnderStep(f, byId, ids, i, i + 1);
    if p.Some? && p.value in byId {
      var parent := byId[p.value];
      assert Wired(f, byId, ids[..i], p.value);
      parent.children := parent.children + [d];
      forall x | x in byId ensures Wired(f, byId, ids[..i + 1], x) {
        assert old(Wired(f, byId, ids[..i], x));
        assert x != p.value ==> byId[x] != parent;
      }
    } else {
      roots' := roots + [d];
      forall x | x in byId ensures Wired(f, byId, ids[..i + 1], x) {
        assert Wired(f, byId, ids[..i], x);
      }
    }
  }

  lemma UnderStep(f: Forest, byId: map<Id, TreeDict>, ids: seq<Id>, i: nat, n: nat)
    requires i < |ids| && n == i + 1 && Registered(byId, ids) && forall x :: x in ids ==> x in f
    ensures forall p ::
              Under(f, ids[..n], p) == Under(f, ids[..i], p) + (if f[ids[i]].parent == p then [ids[i]] else [])
    ensures forall p :: AllIn(byId, Under(f, ids[..n], p))
  {
    assert ids[..n][..i] == ids[..i];
    forall p ensures AllIn(byId, Under(f, ids[..n], p)) {
      UnderAllIn(f, byId, ids[..n], p);
    }
  }

  lemma {:induction false} UnderAllIn(f: Forest, byId: map<Id, TreeDict>, xs: seq<Id>, p: Option<Id>)
    requires forall x :: x in xs ==> x in f && x in byId
    ensures AllIn(byId, Under(f, xs, p))
  {
    if |xs| > 0 {
      UnderAllIn(f, byId, xs[..|xs| - 1], p);
    }
  }

  // ----- the nested result as a value -----

  datatype Tree = Tree(id: Id, kids: seq<Tree>)

  /** ts is what one reads when following `children` from the objects os. */
  ghost predicate Reads(os: seq<TreeDict>, ts: seq<Tree>, objects: set<TreeDict>)
    reads objects
    decreases ts
  {
    && |os| == |ts|
    && (|ts| > 0 ==>
          && os[0] in objects && os[0].id == ts[0].id
          && Reads(os[0].children, ts[0].kids, objects)
          && Reads(os[1..], ts[1..], objects))
  }

  function IdsOf(ts: seq<Tree>): (ids: seq<Id>)
    ensures |ids| == |ts| && forall i :: 0 <= i < |ts| ==> ids[i] == ts[i].id
  {
    if |ts| == 0 then [] else [ts[0].id] + IdsOf(ts[1..])
  }

  /** Depth first, each node before its children. */
  function Flatten(ts: seq<Tree>): seq<Id>
    decreases ts
  {
    if |ts| == 0 then [] else [ts[0].id] + Flatten(ts[0].kids) + Flatten(ts[1..])
  }

  /** Each node of ts has exactly the listed children of that node below it, in list order. */
  ghost predicate Faithful(f: Forest, ids: seq<Id>, ts: seq<Tree>)
    requires forall x :: x in ids ==> x in f
    decreases ts
  {
    |ts| > 0 ==>
      && IdsOf(ts[0].kids) == Under(f, ids, Some(ts[0].id))
      && Faithful(f, ids, ts[0].kids) && Faithful(f, ids, ts[1..])
  }

  lemma IdsSplit(ts: seq<Tree>)
    requires |ts| > 0
    ensures forall x :: x in IdsOf(ts) <==> x == ts[0].id || x in IdsOf(ts[1..])
    ensures Distinct(IdsOf(ts)) ==> Distinct(IdsOf(ts[1..])) && ts[0].id !in IdsOf(ts[1..])
  {
    assert IdsOf(ts) == [ts[0].id] + IdsOf(ts[1..]);
    DistinctHead(ts[0].id, IdsOf(ts[1..]));
  }

  lemma DistinctHead(x: Id, rest: seq<Id>)
    ensures Distinct([x] + rest) ==> Distinct(rest) && x !in rest
  {
    var all := [x] + rest;
    assert all[0] == x && forall i :: 0 <= i < |rest| ==> all[i + 1] == rest[i];
  }

  lemma ObjectsSplit(byId: map<Id, TreeDict>, xs: seq<Id>)
    requires |xs| > 0 && AllIn(byId, xs)
    ensures AllIn(byId, xs[1..]) && xs[0] in byId
    ensures ObjectsOf(byId, xs)[0] == byId[xs[0]] && ObjectsOf(byId, xs)[1..] == ObjectsOf(byId, xs[1..])
  {
  }

  /** Reading the assembled objects gives a faithful nesting. */
  lemma {:induction false} AssembledIsFaithful(f: Forest, byId: map<Id, TreeDict>, ids: seq<Id>,
                                               xs: seq<Id>, ts: seq<Tree>, objects: set<TreeDict>)
    requires forall x :: x in ids ==> x in f
    requires (forall x :: x in byId ==> byId[x].id == x) && AllWired(f, byId, ids)
    requires AllIn(byId, xs)
    requires Reads(ObjectsOf(byId, xs), ts, objects)
    ensures IdsOf(ts) == xs && Faithful(f, ids, ts)
    decreases ts
  {
    if |ts| > 0 {
      var x := xs[0];
      ObjectsSplit(byId, xs);
      assert Wired(f, byId, ids, x);
      AssembledIsFaithful(f, byId, ids, Under(f, ids, Some(x)), ts[0].kids, objects);
      AssembledIsFaithful(f, byId, ids, xs[1..], ts[1..], objects);
    }
  }

  // ----- which nodes the result shows -----

  ghost predicate Shown(f: Forest, x: Id) {
    exists k: nat :: RootIn(f, x, k)
  }

  lemma {:induction false} AboveRoot(f: Forest, y: Id, x: Id, j: nat, k: nat)
    requires Above(f, y, x, j) && RootIn(f, x, k)
    ensures RootIn(f, y, k + j)
    decreases j
  {
    if j > 0 {
      AboveRoot(f, f[y].parent.value, x, j - 1, k);
    }
  }

  lemma {:induction false} AboveOnce(f: Forest, y: Id, a: Id, b: Id, j: nat)
    requires Above(f, y, a, j) && Above(f, y, b, j)
    ensures a == b
    decreases j
  {
    if j > 0 {
      AboveOnce(f, f[y].parent.value, a, b, j - 1);
    }
  }

  lemma {:induction false} AboveFurther(f: Forest, y: Id, x: Id, j: nat)
    requires Above(f, y, x, j) && x in f && f[x].parent.Some? && f[x].parent.value in f
    ensures Above(f, y, f[x].parent.value, j + 1)
    decreases j
  {
    if j > 0 {
      AboveFurther(f, f[y].parent.value, x, j - 1);
    }
  }

  ghost predicate AllOf(ids: seq<Id>, xs: seq<Id>) {
    forall x :: x in xs ==> x in ids
  }

  lemma KidsListed(f: Forest, ids: seq<Id>, ts: seq<Tree>)
    requires forall x :: x in ids ==> x in f
    requires Faithful(f, ids, ts) && |ts| > 0
    ensures AllOf(ids, IdsOf(ts[0].kids))
  {
    forall x | x in IdsOf(ts[0].kids) ensures x in ids {
      UnderHas(f, ids, Some(ts[0].id), x);
    }
  }

  lemma KidAbove(f: Forest, ids: seq<Id>, ts: seq<Tree>, y: Id, i: nat, j: nat)
    requires forall x :: x in ids ==> x in f
    requires Faithful(f, ids, ts) && |ts| > 0 && ts[0].id in f && i < |ts[0].kids|
    requires Above(f, y, ts[0].kids[i].id, j)
    ensures Above(f, y, ts[0].id, j + 1)
  {
    var x := IdsOf(ts[0].kids)[i];
    assert x in Under(f, ids, Some(ts[0].id));
    UnderHas(f, ids, Some(ts[0].id), x);
    AboveFurther(f, y, x, j);
  }

  /** A node of ts lies at or under the top node it is nested in. */
  lemma {:induction false} FlattenIsUnder(f: Forest, ids: seq<Id>, ts: seq<Tree>, y: Id) returns (i: nat, j: nat)
    requires forall x :: x in ids ==> x in f
    requires Faithful(f, ids, ts) && AllOf(ids, IdsOf(ts))
    requires y in Flatten(ts)
    ensures i < |ts| && Above(f, y, ts[i].id, j)
    decreases ts
  {
    assert ts[0].id in f by { assert IdsOf(ts)[0] in ids; }
    if y == ts[0].id {
      i, j := 0, 0;
    } else if y in Flatten(ts[0].kids) {
      KidsListed(f, ids, ts);
      i, j := FlattenIsUnder(f, ids, ts[0].kids, y);
      KidAbove(f, ids, ts, y, i, j);
      i, j := 0, j + 1;
    } else {
      assert IdsOf(ts) == [ts[0].id] + IdsOf(ts[1..]);
      i, j := FlattenIsUnder(f, ids, ts[1..], y);
      i := i + 1;
    }
  }

  /** The same, with the number of steps from a top node to the root known. */
  lemma FlattenDepth(f: Forest, ids: seq<Id>, ts: seq<Tree>, k: nat, y: Id) returns (i: nat, j: nat)
    requires forall x :: x in ids <==> x in f
    requires Faithful(f, ids, ts) && AllRootIn(f, IdsOf(ts), k)
    requires y in Flatten(ts)
    ensures i < |ts| && Above(f, y, ts[i].id, j) && RootIn(f, y, k + j)
  {
    assert AllOf(ids, IdsOf(ts));
    i, j := FlattenIsUnder(f, ids, ts, y);
    assert IdsOf(ts)[i] == ts[i].id;
    AboveRoot(f, y, ts[i].id, j, k);
  }

  /** All of xs reach a root in k steps. */
  ghost predicate AllRootIn(f: Forest, xs: seq<Id>, k: nat) {
    forall x :: x in xs ==> RootIn(f, x, k)
  }

  /** Children of p are k steps from the root. */
  ghost predicate LevelOf(f: Forest, p: Option<Id>, k: nat) {
    if p.None? then k == 0 else k > 0 && RootIn(f, p.value, k - 1)
  }

  /** The tops of ts are the listed children of p from the m-th on. */
  ghost predicate SiblingsFrom(f: Forest, ids: seq<Id>, ts: seq<Tree>, p: Option<Id>, m: nat)
    requires forall x :: x in ids ==> x in f
  {
    m <= |Under(f, ids, p)| && IdsOf(ts) == Under(f, ids, p)[m..]
  }

  /** Nodes nested in different siblings are different, and none repeats below itself. */
  lemma {:induction false} FlattenDistinct(f: Forest, ids: seq<Id>, ts: seq<Tree>, p: Option<Id>, m: nat, k: nat)
    requires Distinct(ids) && (forall x :: x in ids <==> x in f)
    requires Faithful(f, ids, ts) && SiblingsFrom(f, ids, ts, p, m) && LevelOf(f, p, k)
    ensures Distinct(Flatten(ts))
    decreases ts
  {
    if |ts| > 0 {
      NextSibling(f, ids, ts, p, m, k);
      FlattenDistinct(f, ids, ts[0].kids, Some(ts[0].id), 0, k + 1);
      FlattenDistinct(f, ids, ts[1..], p, m + 1, k);
      SiblingTops(f, ids, ts, p, m, k);
      FlattenStep(f, ids, ts, k);
    }
  }

  lemma NextSibling(f: Forest, ids: seq<Id>, ts: seq<Tree>, p: Option<Id>, m: nat, k: nat)
    requires forall x :: x in ids ==> x in f
    requires |ts| > 0 && Faithful(f, ids, ts) && SiblingsFrom(f, ids, ts, p, m) && LevelOf(f, p, k)
    ensures SiblingsFrom(f, ids, ts[0].kids, Some(ts[0].id), 0) && LevelOf(f, Some(ts[0].id), k + 1)
    ensures SiblingsFrom(f, ids, ts[1..], p, m + 1)
  {
    var tops := Under(f, ids, p);
    assert IdsOf(ts) == [ts[0].id] + IdsOf(ts[1..]);
    assert tops[m] == tops[m..][0] == ts[0].id && tops[m + 1..] == tops[m..][1..];
    assert ts[0].id in tops;
    UnderHas(f, ids, p, ts[0].id);
    assert Under(f, ids, Some(ts[0].id))[0..] == Under(f, ids, Some(ts[0].id));
  }

  lemma SiblingTops(f: Forest, ids: seq<Id>, ts: seq<Tree>, p: Option<Id>, m: nat, k: nat)
    requires Distinct(ids) && (forall x :: x in ids ==> x in f)
    requires SiblingsFrom(f, ids, ts, p, m) && LevelOf(f, p, k)
    ensures Distinct(IdsOf(ts)) && AllRootIn(f, IdsOf(ts), k)
  {
    UnderMeaning(f, ids, p);
    forall x | x in IdsOf(ts) ensures RootIn(f, x, k) {
      assert x in Under(f, ids, p);
    }
  }

  lemma FlattenStep(f: Forest, ids: seq<Id>, ts: seq<Tree>, k: nat)
    requires Distinct(ids) && (forall x :: x in ids <==> x in f)
    requires |ts| > 0 && Faithful(f, ids, ts) && Distinct(IdsOf(ts)) && AllRootIn(f, IdsOf(ts), k)
    requires Distinct(Flatten(ts[0].kids)) && Distinct(Flatten(ts[1..]))
    ensures Distinct(Flatten(ts))
  {
    FlattenApart(f, ids, ts, k);
    ConcatDistinct(ts[0].id, Flatten(ts[0].kids), Flatten(ts[1..]));
  }

  /** The first top node, what is nested in it, and the rest have no node in common. */
  lemma FlattenApart(f: Forest, ids: seq<Id>, ts: seq<Tree>, k: nat)
    requires Distinct(ids) && (forall x :: x in ids <==> x in f)
    requires |ts| > 0 && Faithful(f, ids, ts) && Distinct(IdsOf(ts)) && AllRootIn(f, IdsOf(ts), k)
    ensures forall y :: y in Flatten(ts[0].kids) ==> y != ts[0].id && y !in Flatten(ts[1..])
    ensures ts[0].id !in Flatten(ts[1..])
  {
    TopsRootIn(f, ids, ts, k);
    forall y | y in Flatten(ts[0].kids) ensures y != ts[0].id && y !in Flatten(ts[1..]) {
      var j := BelowTop(f, ids, ts, k, y);
      BelowApart(f, ids, ts[1..], k, ts[0].id, y, j);
    }
    TopApart(f, ids, ts[1..], k, ts[0].id);
  }

  /** One step into the nesting, or to the next sibling. */
  lemma TopsRootIn(f: Forest, ids: seq<Id>, ts: seq<Tree>, k: nat)
    requires Distinct(ids) && (forall x :: x in ids <==> x in f)
    requires |ts| > 0 && Faithful(f, ids, ts) && Distinct(IdsOf(ts)) && AllRootIn(f, IdsOf(ts), k)
    ensures RootIn(f, ts[0].id, k)
    ensures Distinct(IdsOf(ts[0].kids)) && AllRootIn(f, IdsOf(ts[0].kids), k + 1)
    ensures Distinct(IdsOf(ts[1..])) && AllRootIn(f, IdsOf(ts[1..]), k) && ts[0].id !in IdsOf(ts[1..])
  {
    IdsSplit(ts);
    assert RootIn(f, IdsOf(ts)[0], k);
    UnderMeaning(f, ids, Some(ts[0].id));
    forall x | x in IdsOf(ts[0].kids) ensures RootIn(f, x, k + 1) {
      assert f[x].parent == Some(ts[0].id);
    }
  }

  /** A node that is as far from the root as the tops of ts, and none of them, is not nested in ts. */
  lemma TopApart(f: Forest, ids: seq<Id>, ts: seq<Tree>, k: nat, x: Id)
    requires forall y :: y in ids <==> y in f
    requires Faithful(f, ids, ts) && AllRootIn(f, IdsOf(ts), k)
    requires RootIn(f, x, k) && x !in IdsOf(ts)
    ensures x !in Flatten(ts)
  {
    if x in Flatten(ts) {
      var i, j := FlattenDepth(f, ids, ts, k, x);
      assert ts[i].id == IdsOf(ts)[i];
      RootOnce(f, x, k, k + j);
      assert false;
    }
  }

  lemma BelowTop(f: Forest, ids: seq<Id>, ts: seq<Tree>, k: nat, y: Id) returns (j: nat)
    requires forall x :: x in ids <==> x in f
    requires |ts| > 0 && Faithful(f, ids, ts) && RootIn(f, ts[0].id, k) && AllRootIn(f, IdsOf(ts[0].kids), k + 1)
    requires y in Flatten(ts[0].kids)
    ensures y != ts[0].id && Above(f, y, ts[0].id, j + 1) && RootIn(f, y, k + 1 + j)
  {
    var i: nat;
    i, j := FlattenDepth(f, ids, ts[0].kids, k + 1, y);
    KidAbove(f, ids, ts, y, i, j);
    if y == ts[0].id {
      RootOnce(f, y, k, k + 1 + j);
    }
  }

  lemma BelowApart(f: Forest, ids: seq<Id>, rest: seq<Tree>, k: nat, x: Id, y: Id, j: nat)
    requires forall z :: z in ids <==> z in f
    requires Faithful(f, ids, rest) && AllRootIn(f, IdsOf(rest), k) && x !in IdsOf(rest)
    requires Above(f, y, x, j + 1) && RootIn(f, y, k + 1 + j)
    ensures y !in Flatten(rest)
  {
    if y in Flatten(rest) {
      var i', j' := FlattenDepth(f, ids, rest, k, y);
      assert IdsOf(rest)[i'] == rest[i'].id;
      RootOnce(f, y, k + 1 + j, k + j');
      AboveOnce(f, y, x, rest[i'].id, j');
      assert false;
    }
  }

  lemma ConcatDistinct(x: Id, a: seq<Id>, b: seq<Id>)
    requires Distinct(a) && Distinct(b)
    requires forall y :: y in a ==> y != x && y !in b
    requires forall y :: y in b ==> y != x
    ensures Distinct([x] + a + b)
  {
    var c := [x] + a + b;
    assert forall i :: 0 <= i < |c| ==> c[i] == if i == 0 then x else if i <= |a| then a[i - 1] else b[i - 1 - |a|];
    forall i, j | 0 <= i < j < |c| ensures c[i] != c[j] {
      if 0 < i <= |a| { assert c[i] in a; }
      if j > |a| { assert c[j] in b; } else { assert c[j] in a; }
    }
  }

  /** Where a node is shown, its listed children are shown. */
  lemma {:induction false} FlattenClosed(f: Forest, ids: seq<Id>, ts: seq<Tree>, p: Id, x: Id)
    requires forall y :: y in ids ==> y in f
    requires Faithful(f, ids, ts) && p in Flatten(ts) && x in Under(f, ids, Some(p))
    ensures x in Flatten(ts)
    decreases ts
  {
    if p == ts[0].id {
      TopInFlatten(ts[0].kids, x);
    } else if p in Flatten(ts[0].kids) {
      FlattenClosed(f, ids, ts[0].kids, p, x);
    } else {
      FlattenClosed(f, ids, ts[1..], p, x);
    }
  }

  lemma {:induction false} TopInFlatten(ts: seq<Tree>, x: Id)
    requires x in IdsOf(ts)
    ensures x in Flatten(ts)
    decreases ts
  {
    IdsSplit(ts);
    if x != ts[0].id {
      TopInFlatten(ts[1..], x);
    }
  }

  lemma {:induction false} ShownIsFlattened(f: Forest, ids: seq<Id>, ts: seq<Tree>, x: Id, k: nat)
    requires forall y :: y in ids <==> y in f
    requires Faithful(f, ids, ts) && IdsOf(ts) == Under(f, ids, None) && RootIn(f, x, k)
    ensures x in Flatten(ts)
    decreases k
  {
    UnderHas(f, ids, f[x].parent, x);
    if k == 0 {
      TopInFlatten(ts, x);
    } else {
      ShownIsFlattened(f, ids, ts, f[x].parent.value, k - 1);
      FlattenClosed(f, ids, ts, f[x].parent.value, x);
    }
  }

  /** For every list, cyclic parents or not: the nested result holds exactly the nodes whose
    * chain of listed parents ends, each of them once. */
  lemma TreeShowsEachOnce(f: Forest, ids: seq<Id>, ts: seq<Tree>)
    requires Distinct(ids) && (forall y :: y in ids <==> y in f)
    requires Faithful(f, ids, ts) && IdsOf(ts) == Under(f, ids, None)
    ensures Distinct(Flatten(ts))
    ensures forall x :: x in Flatten(ts) <==> Shown(f, x)
  {
    UnderMeaning(f, ids, None);
    assert AllRootIn(f, IdsOf(ts), 0);
    assert Under(f, ids, None)[0..] == Under(f, ids, None);
    FlattenDistinct(f, ids, ts, None, 0, 0);
    forall x ensures x in Flatten(ts) <==> Shown(f, x) {
      ShownIffFlattened(f, ids, ts, x);
    }
  }

  lemma ShownIffFlattened(f: Forest, ids: seq<Id>, ts: seq<Tree>, x: Id)
    requires forall y :: y in ids <==> y in f
    requires Faithful(f, ids, ts) && IdsOf(ts) == Under(f, ids, None) && AllRootIn(f, IdsOf(ts), 0)
    ensures x in Flatten(ts) <==> Shown(f, x)
  {
    if Shown(f, x) {
      var k: nat :| RootIn(f, x, k);
      ShownIsFlattened(f, ids, ts, x, k);
    }
    if x in Flatten(ts) {
      var i, j := FlattenDepth(f, ids, ts, 0, x);
      assert RootIn(f, x, 0 + j);
    }
  }

  /** Nothing is lost exactly when the parent relation among the listed nodes has no cycle. */
  lemma AllShownIff(f: Forest)
    requires NoDangling(f)
    ensures (forall x :: x in f ==> Shown(f, x)) <==> Acyclic(f)
  {
    if Acyclic(f) {
      var rank :| Ranked(f, rank);
      forall x | x in f ensures Shown(f, x) { RankedShown(f, rank, x); }
    }
    if forall x :: x in f ==> Shown(f, x) {
      var rank: map<Id, nat> := map x | x in f :: StepsToRoot(f, x);
      forall x | x in f && f[x].parent.Some? ensures rank[f[x].parent.value] < rank[x] {
        var p := f[x].parent.value;
        assert RootIn(f, x, StepsToRoot(f, x));
        RootOnce(f, p, StepsToRoot(f, p), StepsToRoot(f, x) - 1);
      }
      assert Ranked(f, rank);
    }
  }

  ghost function StepsToRoot(f: Forest, x: Id): (k: nat)
    requires Shown(f, x)
    ensures RootIn(f, x, k)
  {
    var k: nat :| RootIn(f, x, k);
    k
  }

  lemma {:induction false} RankedShown(f: Forest, rank: map<Id, nat>, x: Id)
    requires NoDangling(f) && Ranked(f, rank) && x in f
    ensures Shown(f, x)
    decreases rank[x]
  {
    if f[x].parent.None? {
      assert RootIn(f, x, 0);
    } else {
      RankedShown(f, rank, f[x].parent.value);
      assert RootIn(f, x, StepsToRoot(f, f[x].parent.value) + 1);
    }
  }

  /** The nested result is a permutation of the list exactly when the listed parents have no cycle. */
  lemma TreeIsPermutationIff(f: Forest, ids: seq<Id>, ts: seq<Tree>)
    requires Distinct(ids) && (forall y :: y in ids <==> y in f)
    requires NoDangling(f)
    requires Faithful(f, ids, ts) && IdsOf(ts) == Under(f, ids, None)
    ensures multiset(Flatten(ts)) == multiset(ids) <==> Acyclic(f)
  {
    TreeShowsEachOnce(f, ids, ts);
    AllShownIff(f);
    if Acyclic(f) {
      SameElements(Flatten(ts), ids);
    } else {
      var x :| x in f && !Shown(f, x);
      CountOnce(Flatten(ts), x);
      CountOnce(ids, x);
      assert multiset(Flatten(ts))[x] != multiset(ids)[x];
    }
  }

  /** ts shows each node with an ending chain of listed parents once, nested as the list says;
    * all of the list exactly when there is no cycle. */
  ghost predicate NestsExactly(f: Forest, ids: seq<Id>, ts: seq<Tree>)
    requires forall x :: x in ids ==> x in f
  {
    && IdsOf(ts) == Under(f, ids, None) && Faithful(f, ids, ts)
    && Distinct(Flatten(ts)) && (forall x :: x in Flatten(ts) <==> Shown(f, x))
    && (multiset(Flatten(ts)) == multiset(ids) <==> Acyclic(f))
  }

  /** What `get_tree` returns can be read as a value, and every reading nests the list exactly. */
  lemma GetTreeExact(nodes: Forest, project: string, layer: string, now: int, roots: seq<TreeDict>, ids: seq<Id>,
                     byId: map<Id, TreeDict>)
    requires Lists(nodes, ids, project, layer, None, Some(now)) && Registered(byId, ids)
    requires Assembled(Restricted(nodes, ids), byId, ids, roots)
    ensures exists ts :: Reads(roots, ts, byId.Values)
    ensures forall ts :: Reads(roots, ts, byId.Values) ==> NestsExactly(Restricted(nodes, ids), ids, ts)
    ensures Acyclic(nodes) ==> Acyclic(Restricted(nodes, ids))
  {
    var f := Restricted(nodes, ids);
    RestrictedForest(nodes, ids);
    var shown := AssembledCanBeRead(f, byId, ids, roots);
    forall ts | Reads(roots, ts, byId.Values) ensures NestsExactly(f, ids, ts) {
      AssembledIsFaithful(f, byId, ids, Under(f, ids, None), ts, byId.Values);
      TreeShowsEachOnce(f, ids, ts);
      TreeIsPermutationIff(f, ids, ts);
    }
  }

  lemma RestrictedForest(nodes: Forest, ids: seq<Id>)
    requires forall x :: x in ids ==> x in nodes
    ensures NoDangling(Restricted(nodes, ids)) && forall x :: x in ids <==> x in Restricted(nodes, ids)
    ensures Acyclic(nodes) ==> Acyclic(Restricted(nodes, ids))
  {
    if Acyclic(nodes) {
      var rank :| Ranked(nodes, rank);
      assert Ranked(Restricted(nodes, ids), rank);
    }
  }

  lemma SameElements(a: seq<Id>, b: seq<Id>)
    requires Distinct(a) && Distinct(b) && forall x :: x in a <==> x in b
    ensures multiset(a) == multiset(b)
  {
    forall x ensures multiset(a)[x] == multiset(b)[x] {
      CountOnce(a, x);
      CountOnce(b, x);
    }
  }

  lemma {:induction false} CountOnce(s: seq<Id>, x: Id)
    requires Distinct(s)
    ensures multiset(s)[x] == if x in s then 1 else 0
  {
    if |s| > 0 {
      CountOnce(s[..|s| - 1], x);
      assert s == s[..|s| - 1] + [s[|s| - 1]];
    }
  }

  // ----- the objects can always be read -----

  ghost function Top(rank: map<Id, nat>): (top: nat)
    ensures forall x :: x in rank ==> rank[x] <= top
    decreases |rank|
  {
    if rank == map[] then 0
    else
      var x :| x in rank;
      var rest := Top(rank - {x});
      assert forall y :: y in rank && y != x ==> y in rank - {x} && (rank - {x})[y] == rank[y];
      if rank[x] <= rest then rest else rank[x]
  }

  /** Following `children` from the roots always ends, whatever the parent relation. */
  lemma AssembledCanBeRead(f: Forest, byId: map<Id, TreeDict>, ids: seq<Id>, roots: seq<TreeDict>)
    returns (ts: seq<Tree>)
    requires Registered(byId, ids) && Distinct(ids) && (forall x :: x in ids <==> x in f)
    requires Assembled(f, byId, ids, roots)
    ensures Reads(roots, ts, byId.Values)
  {
    ghost var steps: map<Id, nat> := map x | x in f && Shown(f, x) :: StepsToRoot(f, x);
    UnderMeaning(f, ids, None);
    assert forall x :: x in Under(f, ids, None) ==> RootIn(f, x, 0);
    forall x, k: nat | RootIn(f, x, k) ensures k <= Top(steps) {
      assert Shown(f, x);
      RootOnce(f, x, k, steps[x]);
    }
    ts := ReadAll(f, byId, ids, Under(f, ids, None), 0, Top(steps), byId.Values);
  }

  /** No chain of listed parents is longer than top. */
  ghost predicate Within(f: Forest, top: nat) {
    forall x, k: nat :: RootIn(f, x, k) ==> k <= top
  }

  lemma KidsRootIn(f: Forest, ids: seq<Id>, x: Id, k: nat)
    requires (forall y :: y in ids ==> y in f) && RootIn(f, x, k)
    ensures AllRootIn(f, Under(f, ids, Some(x)), k + 1)
  {
    forall y | y in Under(f, ids, Some(x)) ensures RootIn(f, y, k + 1) {
      UnderHas(f, ids, Some(x), y);
    }
  }

  ghost predicate Readable(byId: map<Id, TreeDict>, objects: set<TreeDict>) {
    forall x :: x in byId ==> byId[x].id == x && byId[x] in objects
  }

  lemma {:induction false} ReadAll(f: Forest, byId: map<Id, TreeDict>, ids: seq<Id>,
                                   xs: seq<Id>, k: nat, top: nat, objects: set<TreeDict>) returns (ts: seq<Tree>)
    requires forall x :: x in ids ==> x in f
    requires Readable(byId, objects) && AllWired(f, byId, ids)
    requires Within(f, top) && AllRootIn(f, xs, k) && AllIn(byId, xs)
    ensures Reads(ObjectsOf(byId, xs), ts, objects)
    decreases top + 1 - k, 1, |xs|
  {
    if |xs| == 0 {
      ts := [];
    } else {
      var x := xs[0];
      var kids := ReadKids(f, byId, ids, x, k, top, objects);
      var rest := ReadAll(f, byId, ids, xs[1..], k, top, objects);
      ReadStep(byId, xs, kids, rest, objects);
      ts := [Tree(x, kids)] + rest;
    }
  }

  lemma {:induction false} ReadKids(f: Forest, byId: map<Id, TreeDict>, ids: seq<Id>,
                                    x: Id, k: nat, top: nat, objects: set<TreeDict>) returns (kids: seq<Tree>)
    requires forall y :: y in ids ==> y in f
    requires Readable(byId, objects) && AllWired(f, byId, ids)
    requires Within(f, top) && RootIn(f, x, k) && x in byId
    ensures Reads(byId[x].children, kids, objects)
    decreases top + 1 - k, 0
  {
    assert Wired(f, byId, ids, x);
    KidsRootIn(f, ids, x, k);
    kids := ReadAll(f, byId, ids, Under(f, ids, Some(x)), k + 1, top, objects);
  }

  lemma ReadStep(byId: map<Id, TreeDict>, xs: seq<Id>, kids: seq<Tree>, rest: seq<Tree>, objects: set<TreeDict>)
    requires |xs| > 0 && AllIn(byId, xs) && AllIn(byId, xs[1..])
    requires xs[0] in byId && byId[xs[0]] in objects && byId[xs[0]].id == xs[0]
    requires Reads(byId[xs[0]].children, kids, objects) && Reads(ObjectsOf(byId, xs[1..]), rest, objects)
    ensures Reads(ObjectsOf(byId, xs), [Tree(xs[0], kids)] + rest, objects)
  {
    var os, ts := ObjectsOf(byId, xs), [Tree(xs[0], kids)] + rest;
    assert os[1..] == ObjectsOf(byId, xs[1..]) && ts[1..] == rest;
  }
}
