/** `MemoryTreeService` (core/memory_tree/service.py) over its two tables. */
module MemoryTree {
  import opened Wrappers
  import opened MemoryForest
  import Temporal

  /** A row of `memory_tree_node_versions`. */
  datatype Snapshot = Snapshot(nodeId: Id, project: string, versionNumber: nat, title: string, content: Option<string>)

  /** The rows left when the foreign key cascades the deletion of d. */
  function Without(versions: seq<Snapshot>, d: set<Id>): seq<Snapshot> {
    if |versions| == 0 then []
    else Without(versions[..|versions| - 1], d)
         + (if versions[|versions| - 1].nodeId in d then [] else [versions[|versions| - 1]])
  }

  lemma {:induction false} WithoutTwice(versions: seq<Snapshot>, d: set<Id>, e: set<Id>)
    ensures Without(Without(versions, d), e) == Without(versions, d + e)
  {
    if |versions| > 0 {
      var n := |versions| - 1;
      WithoutTwice(versions[..n], d, e);
      var kept := Without(versions[..n], d);
      assert (kept + [versions[n]])[..|kept|] == kept;
      assert kept + [] == kept;
    }
  }

  lemma {:induction false} WithoutNothing(versions: seq<Snapshot>)
    ensures Without(versions, {}) == versions
  {
    if |versions| > 0 {
      var init, last := versions[..|versions| - 1], versions[|versions| - 1];
      WithoutNothing(init);
      assert Without(versions, {}) == init + [last];
      assert versions == init + [last];
    }
  }

  // ----- listing -----

  /** The filters of `list_nodes`; an empty layer means no filter, as in the original. Without a
    * time (`include_expired`) rows that are not in force are listed too. */
  predicate Matches(n: Node, project: string, layer: string, parent: Option<Id>, at: Option<int>) {
    && n.project == project && (layer != "" ==> n.layer == layer)
    && (parent.Some? ==> n.parent == parent)
    && (at.Some? ==> Temporal.InForce(n.validFrom, n.validUntil, at.value))
  }

  /** ORDER BY order_index, created_at. */
  predicate NotAfter(a: Node, b: Node) {
    a.orderIndex < b.orderIndex || (a.orderIndex == b.orderIndex && a.createdAt <= b.createdAt)
  }

  ghost predicate Lists(nodes: Forest, ids: seq<Id>, project: string, layer: string, parent: Option<Id>,
                        at: Option<int>)
  {
    && (forall x :: x in ids <==> x in nodes && Matches(nodes[x], project, layer, parent, at))
    && Distinct(ids)
    && forall i, j :: 0 <= i < j < |ids| && ids[i] in nodes && ids[j] in nodes ==>
                        NotAfter(nodes[ids[i]], nodes[ids[j]])
  }

  /** ids is in order, and comes before all of rest. */
  ghost predicate Sorted(nodes: Forest, ids: seq<Id>, rest: set<Id>) {
    && rest <= nodes.Keys && (forall i :: 0 <= i < |ids| ==> ids[i] in nodes && ids[i] !in rest)
    && Distinct(ids) && (forall i, j :: 0 <= i < j < |ids| ==> NotAfter(nodes[ids[i]], nodes[ids[j]]))
    && forall i, y :: 0 <= i < |ids| && y in rest ==> NotAfter(nodes[ids[i]], nodes[y])
  }

  lemma SortedStep(nodes: Forest, ids: seq<Id>, rest: set<Id>, x: Id)
    requires Sorted(nodes, ids, rest)
    requires x in rest && forall y :: y in rest ==> NotAfter(nodes[x], nodes[y])
    ensures Sorted(nodes, ids + [x], rest - {x})
  {
  }

  lemma {:induction false} SomeFirst(nodes: Forest, s: set<Id>) returns (x: Id)
    requires s != {} && s <= nodes.Keys
    ensures x in s && forall y :: y in s ==> NotAfter(nodes[x], nodes[y])
    decreases |s|
  {
    x :| x in s;
    if s != {x} {
      var y := SomeFirst(nodes, s - {x});
      if !NotAfter(nodes[x], nodes[y]) {
        x := y;
      }
    }
  }

  // ----- deleting -----

  /** cur is the table after the branches d under id are gone; only id's count may differ. */
  ghost predicate Cleared(was: Forest, cur: Forest, d: set<Id>, id: Id) {
    && cur.Keys == was.Keys - d && id in cur
    && (forall x :: x in cur && x != id ==> cur[x] == Cut(was[x], d))
    && cur[id] == Cut(was[id], d).(childCount := cur[id].childCount)
  }

  ghost predicate UnionOf(was: Forest, project: string, now: int, ids: seq<Id>, d: set<Id>) {
    forall x :: x in d <==> exists i :: 0 <= i < |ids| && x in Doomed(was, project, now, ids[i])
  }

  /** The children still to be deleted are listed children of id, none of them deleted yet. */
  ghost predicate ListedUnder(nodes: Forest, project: string, now: int, ids: seq<Id>, id: Id) {
    forall i :: 0 <= i < |ids| ==> Listed(nodes, project, now, ids[i]) && nodes[ids[i]].parent == Some(id)
  }

  lemma ListedChildren(nodes: Forest, ids: seq<Id>, project: string, now: int, id: Id)
    requires Lists(nodes, ids, project, "", Some(id), Some(now))
    ensures ListedUnder(nodes, project, now, ids, id)
    ensures forall c :: c in ids <==> Listed(nodes, project, now, c) && nodes[c].parent == Some(id)
  {
    assert forall i :: 0 <= i < |ids| ==> ids[i] in ids;
  }

  /** No child of the loop whose own cascade ended is on a cycle, so their branches are disjoint. */
  lemma NextBranchApart(was: Forest, project: string, now: int, done: seq<Id>, c: Id, d: set<Id>, id: Id)
    requires UnionOf(was, project, now, done, d) && OffCycle(was, project, now, done + [c])
    requires ListedUnder(was, project, now, done + [c], id) && c !in done
    ensures Doomed(was, project, now, c) !! d
  {
    forall x | x in Doomed(was, project, now, c) && x in d
      ensures false
    {
      var i :| 0 <= i < |done| && x in Doomed(was, project, now, done[i]);
      var k: nat :| FallsIn(was, project, now, x, c, k);
      var k': nat :| FallsIn(was, project, now, x, done[i], k');
      assert (done + [c])[i] == done[i] && (done + [c])[|done|] == c;
      SiblingsApart(was, project, now, x, id, c, done[i], k, k');
    }
  }

  ghost predicate OffCycle(was: Forest, project: string, now: int, ids: seq<Id>) {
    forall i :: 0 <= i < |ids| ==> !OnListedCycle(was, project, now, ids[i])
  }

  /** A child whose turn has not come is not deleted yet. */
  lemma StillListed(was: Forest, project: string, now: int, done: seq<Id>, c: Id, d: set<Id>, id: Id)
    requires UnionOf(was, project, now, done, d) && OffCycle(was, project, now, done)
    requires ListedUnder(was, project, now, done + [c], id) && c !in done
    ensures c !in d
  {
    if c in d {
      var i :| 0 <= i < |done| && c in Doomed(was, project, now, done[i]);
      var k: nat :| FallsIn(was, project, now, c, done[i], k);
      assert (done + [c])[i] == done[i] && (done + [c])[|done|] == c;
      assert FallsIn(was, project, now, id, done[i], k - 1);
      assert FallsIn(was, project, now, done[i], done[i], k);
      assert OnListedCycle(was, project, now, done[i]);
    }
  }

  lemma {:induction false} StillFalls(was: Forest, cur: Forest, d: set<Id>, id: Id, project: string, now: int, x: Id,
                                      c: Id, k: nat)
    requires Cleared(was, cur, d, id) && Doomed(was, project, now, c) !! d
    requires FallsIn(was, project, now, x, c, k)
    ensures FallsIn(cur, project, now, x, c, k)
    decreases k
  {
    assert x in Doomed(was, project, now, c);
    if k > 0 {
      StillFalls(was, cur, d, id, project, now, was[x].parent.value, c, k - 1);
      assert was[x].parent.value in Doomed(was, project, now, c);
    }
  }

  lemma {:induction false} FellBefore(was: Forest, cur: Forest, d: set<Id>, id: Id, project: string, now: int, x: Id,
                                      c: Id, k: nat)
    requires Cleared(was, cur, d, id)
    requires FallsIn(cur, project, now, x, c, k)
    ensures FallsIn(was, project, now, x, c, k)
    decreases k
  {
    if k > 0 {
      FellBefore(was, cur, d, id, project, now, cur[x].parent.value, c, k - 1);
    }
  }

  /** Deleting earlier siblings does not change what the next child takes with it. */
  lemma DoomedLater(was: Forest, cur: Forest, d: set<Id>, id: Id, project: string, now: int, c: Id)
    requires Cleared(was, cur, d, id) && Doomed(was, project, now, c) !! d
    ensures Doomed(cur, project, now, c) == Doomed(was, project, now, c)
  {
    forall x
      ensures x in Doomed(cur, project, now, c) <==> x in Doomed(was, project, now, c)
    {
      if x in Doomed(was, project, now, c) {
        var k: nat :| FallsIn(was, project, now, x, c, k);
        StillFalls(was, cur, d, id, project, now, x, c, k);
      }
      if x in Doomed(cur, project, now, c) {
        var k: nat :| FallsIn(cur, project, now, x, c, k);
        FellBefore(was, cur, d, id, project, now, x, c, k);
      }
    }
  }

  // ----- deleting some children does not change whether the next cascade ends -----

  lemma {:induction false} EndsStill(was: Forest, cur: Forest, d: set<Id>, id: Id, project: string, now: int,
                                     y: Id, limit: nat)
    requires Cleared(was, cur, d, id) && EndsWithin(was, project, now, y, limit)
    ensures EndsWithin(cur, project, now, y, limit)
    decreases limit
  {
    forall x | Listed(cur, project, now, x) && cur[x].parent == Some(y)
      ensures limit > 0 && EndsWithin(cur, project, now, x, limit - 1)
    {
      assert Listed(was, project, now, x) && was[x].parent == Some(y);
      EndsStill(was, cur, d, id, project, now, x, limit - 1);
    }
  }

  /** Each deleted row hung under another deleted row or under id. */
  ghost predicate HungUnder(was: Forest, d: set<Id>, id: Id) {
    forall x :: x in d ==> x in was && was[x].parent.Some? && (was[x].parent.value in d || was[x].parent.value == id)
  }

  lemma {:induction false} EndedBefore(was: Forest, cur: Forest, d: set<Id>, id: Id, project: string, now: int,
                                       c: Id, y: Id, limit: nat)
    requires Cleared(was, cur, d, id) && HungUnder(was, d, id)
    requires id !in Doomed(cur, project, now, c) && y in Doomed(cur, project, now, c)
    requires EndsWithin(cur, project, now, y, limit)
    ensures EndsWithin(was, project, now, y, limit)
    decreases limit
  {
    var k: nat :| FallsIn(cur, project, now, y, c, k);
    forall x | Listed(was, project, now, x) && was[x].parent == Some(y)
      ensures limit > 0 && EndsWithin(was, project, now, x, limit - 1)
    {
      assert x !in d;
      assert FallsIn(cur, project, now, x, c, k + 1);
      EndedBefore(was, cur, d, id, project, now, c, x, limit - 1);
    }
  }

  lemma EndsLater(was: Forest, cur: Forest, d: set<Id>, id: Id, project: string, now: int, c: Id, limit: nat)
    requires Cleared(was, cur, d, id) && HungUnder(was, d, id)
    requires Listed(cur, project, now, c) && cur[c].parent == Some(id)
    ensures EndsWithin(cur, project, now, c, limit) <==> EndsWithin(was, project, now, c, limit)
  {
    if EndsWithin(was, project, now, c, limit) {
      EndsStill(was, cur, d, id, project, now, c, limit);
    }
    if EndsWithin(cur, project, now, c, limit) {
      EndsOffCycle(cur, project, now, c, limit);
      assert FallsIn(cur, project, now, c, c, 0);
      NotUnderChild(cur, project, now, id, c);
      EndedBefore(was, cur, d, id, project, now, c, c, limit);
    }
  }

  /** A node falls with a child of its own only on a cycle. */
  lemma NotUnderChild(nodes: Forest, project: string, now: int, id: Id, c: Id)
    requires Listed(nodes, project, now, c) && nodes[c].parent == Some(id) && !OnListedCycle(nodes, project, now, c)
    ensures id !in Doomed(nodes, project, now, c)
  {
    if id in Doomed(nodes, project, now, c) {
      var k: nat :| FallsIn(nodes, project, now, id, c, k);
      assert FallsIn(nodes, project, now, c, c, k + 1);
    }
  }

  lemma UnionHangs(was: Forest, project: string, now: int, ids: seq<Id>, d: set<Id>, id: Id)
    requires UnionOf(was, project, now, ids, d) && ListedUnder(was, project, now, ids, id)
    ensures HungUnder(was, d, id)
  {
    forall x | x in d
      ensures x in was && was[x].parent.Some? && (was[x].parent.value in d || was[x].parent.value == id)
    {
      var i :| 0 <= i < |ids| && x in Doomed(was, project, now, ids[i]);
      var k: nat :| FallsIn(was, project, now, x, ids[i], k);
      if k > 0 {
        assert FallsIn(was, project, now, was[x].parent.value, ids[i], k - 1);
        assert was[x].parent.value in Doomed(was, project, now, ids[i]);
      }
    }
  }

  /** The loop of `delete_node` has deleted the branches d of its first i children. */
  ghost predicate Deleting(was: Forest, cur: Forest, project: string, now: int, children: seq<Id>, i: nat,
                           d: set<Id>, id: Id)
  {
    && i <= |children| && Cleared(was, cur, d, id) && ListedUnder(was, project, now, children, id) && Distinct(children)
    && UnionOf(was, project, now, children[..i], d) && OffCycle(was, project, now, children[..i])
  }

  /** The recursive calls on the first i children may all return. */
  ghost predicate AllEnd(was: Forest, project: string, now: int, children: seq<Id>, i: nat, limit: nat)
    requires i <= |children|
  {
    forall j :: 0 <= j < i ==> limit > 0 && CascadeCheck(was, project, now, children[j], limit - 1).Ok?
  }

  lemma AllChildrenEnd(was: Forest, project: string, now: int, children: seq<Id>, id: Id, limit: nat)
    requires forall c :: c in children <==> Listed(was, project, now, c) && was[c].parent == Some(id)
    requires AllEnd(was, project, now, children, |children|, limit)
    ensures CascadeCheck(was, project, now, id, limit).Ok?
  {
    forall c | Listed(was, project, now, c) && was[c].parent == Some(id)
      ensures limit > 0 && EndsWithin(was, project, now, c, limit - 1)
    {
      var j :| 0 <= j < |children| && children[j] == c;
      assert CascadeCheck(was, project, now, children[j], limit - 1).Ok?;
    }
  }

  lemma SomeChildFails(was: Forest, project: string, now: int, children: seq<Id>, id: Id, limit: nat, i: nat)
    requires forall c :: c in children <==> Listed(was, project, now, c) && was[c].parent == Some(id)
    requires i < |children| && (limit == 0 || CascadeCheck(was, project, now, children[i], limit - 1).Err?)
    ensures CascadeCheck(was, project, now, id, limit).Err?
  {
    assert children[i] in children;
  }

  /** Child i is still there, and its cascade ends as it would have ended at the start. */
  lemma NextChild(was: Forest, cur: Forest, project: string, now: int, children: seq<Id>, i: nat, d: set<Id>, id: Id,
                  limit: nat)
    requires Deleting(was, cur, project, now, children, i, d, id) && i < |children|
    ensures Usable(cur, project, children[i]) && cur[children[i]].parent == Some(id)
    ensures CascadeCheck(cur, project, now, children[i], limit) == CascadeCheck(was, project, now, children[i], limit)
  {
    var c := children[i];
    assert ListedUnder(was, project, now, children[..i] + [c], id);
    StillListed(was, project, now, children[..i], c, d, id);
    UnionHangs(was, project, now, children[..i], d, id);
    EndedHere(was, project, now, children, i, d, id);
    EndsLater(was, cur, d, id, project, now, c, limit);
  }

  /** Nor is id deleted with an earlier child. */
  lemma EndedHere(was: Forest, project: string, now: int, children: seq<Id>, i: nat, d: set<Id>, id: Id)
    requires i <= |children| && ListedUnder(was, project, now, children, id)
    requires UnionOf(was, project, now, children[..i], d) && OffCycle(was, project, now, children[..i])
    ensures id !in d
  {
    if id in d {
      var j :| 0 <= j < i && id in Doomed(was, project, now, children[..i][j]);
      NotUnderChild(was, project, now, id, children[..i][j]);
    }
  }

  /** One more branch, of n rows. */
  ghost predicate BranchGone(was: Forest, next: Forest, project: string, now: int, children: seq<Id>, i: nat,
                             d: set<Id>, id: Id, n: nat)
    requires i < |children|
  {
    var e := Doomed(was, project, now, children[i]);
    |d + e| == |d| + n && Deleting(was, next, project, now, children, i + 1, d + e, id)
  }

  /** What the loop of `delete_node` may rely on once child i is gone. */
  lemma NextBranch(was: Forest, cur: Forest, next: Forest, project: string, now: int, children: seq<Id>, i: nat,
                   d: set<Id>, id: Id, limit: nat)
    requires Deleting(was, cur, project, now, children, i, d, id) && i < |children| && children[i] in cur
    requires CascadeCheck(was, project, now, children[i], limit).Ok?
    requires next == Pruned(cur, Doomed(cur, project, now, children[i]), cur[children[i]].parent)
    ensures Doomed(cur, project, now, children[i]) == Doomed(was, project, now, children[i])
    ensures BranchGone(was, next, project, now, children, i, d, id, |Doomed(was, project, now, children[i])|)
  {
    NextApart(was, cur, project, now, children, i, d, id, limit);
    NextChild(was, cur, project, now, children, i, d, id, limit);
    TakeSnoc(children, i);
    UnionStep(was, project, now, children[..i], children[i], d);
    OffCycleStep(was, project, now, children[..i], children[i]);
    ClearedStep(was, cur, d, Doomed(was, project, now, children[i]), id, next);
  }

  lemma TakeSnoc<T>(s: seq<T>, i: nat)
    requires i < |s|
    ensures s[..i + 1] == s[..i] + [s[i]]
  {
  }

  lemma OffCycleStep(was: Forest, project: string, now: int, ids: seq<Id>, c: Id)
    requires OffCycle(was, project, now, ids) && !OnListedCycle(was, project, now, c)
    ensures OffCycle(was, project, now, ids + [c])
  {
  }

  lemma NextApart(was: Forest, cur: Forest, project: string, now: int, children: seq<Id>, i: nat, d: set<Id>, id: Id,
                  limit: nat)
    requires Deleting(was, cur, project, now, children, i, d, id) && i < |children|
    requires CascadeCheck(was, project, now, children[i], limit).Ok?
    ensures var e := Doomed(was, project, now, children[i]);
      && e !! d && id !in e && Doomed(cur, project, now, children[i]) == e
      && !OnListedCycle(was, project, now, children[i])
  {
    var c := children[i];
    EndsOffCycle(was, project, now, c, limit);
    assert c !in children[..i];
    NextBranchApart(was, project, now, children[..i], c, d, id);
    NotUnderChild(was, project, now, id, c);
    DoomedLater(was, cur, d, id, project, now, c);
  }

  lemma UnionStep(was: Forest, project: string, now: int, done: seq<Id>, c: Id, d: set<Id>)
    requires UnionOf(was, project, now, done, d)
    ensures UnionOf(was, project, now, done + [c], d + Doomed(was, project, now, c))
  {
    var ids := done + [c];
    forall x | x in d + Doomed(was, project, now, c)
      ensures exists i :: 0 <= i < |ids| && x in Doomed(was, project, now, ids[i])
    {
      if x in d {
        var i :| 0 <= i < |done| && x in Doomed(was, project, now, done[i]);
        assert ids[i] == done[i];
      } else {
        assert ids[|done|] == c;
      }
    }
  }

  lemma ClearedStep(was: Forest, cur: Forest, d: set<Id>, e: set<Id>, id: Id, cur': Forest)
    requires Cleared(was, cur, d, id) && id !in e && cur' == Pruned(cur, e, Some(id))
    ensures Cleared(was, cur', d + e, id)
  {
  }

  /** id and the branches of its listed children are what falls with id. */
  lemma ChildrenThenSelf(was: Forest, project: string, now: int, ids: seq<Id>, d: set<Id>, id: Id)
    requires id in was && UnionOf(was, project, now, ids, d)
    requires forall c :: c in ids <==> Listed(was, project, now, c) && was[c].parent == Some(id)
    ensures d + {id} == Doomed(was, project, now, id)
  {
    assert FallsIn(was, project, now, id, id, 0);
    forall x
      ensures x in d + {id} <==> x in Doomed(was, project, now, id)
    {
      if x in d {
        var i :| 0 <= i < |ids| && x in Doomed(was, project, now, ids[i]);
        var k: nat :| FallsIn(was, project, now, x, ids[i], k);
        assert ids[i] in ids;
        FallsFurther(was, project, now, x, ids[i], k);
      }
      if x in Doomed(was, project, now, id) && x != id {
        var k: nat :| FallsIn(was, project, now, x, id, k);
        var c := FallsThroughChild(was, project, now, x, id, k);
        var i :| 0 <= i < |ids| && ids[i] == c;
        assert x in Doomed(was, project, now, ids[i]);
      }
    }
  }

  /** The last steps of `delete_node`: lower the parent's count, delete the row. */
  function Removed(nodes: Forest, id: Id): Forest
    requires id in nodes
  {
    var s := Uncounted(nodes, nodes[id].parent);
    map x | x in s && x != id :: Cut(s[x], {id})
  }

  lemma RemovedIsPruned(was: Forest, cur: Forest, d: set<Id>, id: Id)
    requires Cleared(was, cur, d, id)
    ensures Removed(cur, id) == Pruned(was, d + {id}, was[id].parent)
  {
    var a, b := Removed(cur, id), Pruned(was, d + {id}, was[id].parent);
    assert a.Keys == b.Keys;
    forall x | x in a ensures a[x] == b[x] {
    }
  }

  /** The rows one `delete_node` removes. */
  ghost function Deleted(nodes: Forest, project: string, id: Id, cascade: bool, now: int): set<Id> {
    if cascade then Doomed(nodes, project, now, id) else {id}
  }

  /** Whether the cascade at id ends before the interpreter refuses a deeper call. */
  ghost function CascadeCheck(nodes: Forest, project: string, now: int, id: Id, limit: nat): Result<()> {
    if EndsWithin(nodes, project, now, id, limit) then Ok(()) else Err(RecursionError)
  }

  /** The errors of `delete_node`, where the interpreter allows `limit` nested calls. */
  ghost function DeleteCheck(nodes: Forest, project: string, id: Id, cascade: bool, now: int, limit: nat): Result<()> {
    if !Usable(nodes, project, id) then Err(NotFoundError)
    else if cascade then CascadeCheck(nodes, project, now, id, limit)
    else Ok(())
  }

  // ----- creating -----

  /** The errors of `create_node`. An empty parent id counts as none for the checks, but it is stored,
    * and no row has it: the foreign key refuses the row. */
  function CreateCheck(nodes: Forest, n: Node): Result<()> {
    if n.parent.None? then Ok(())
    else if n.parent.value == "" then Err(IntegrityError)
    else if !Usable(nodes, n.project, n.parent.value) then Err(NotFoundError)
    else Ok(())
  }

  // ----- updating -----

  /** The arguments of `update_node`; None leaves a field as it is. */
  datatype Edit = Edit(
    title: Option<string>, content: Option<string>, summary: Option<string>, status: Option<string>,
    topicLabel: Option<string>, entityRefs: Option<seq<string>>, orderIndex: Option<int>, parent: Option<Id>)

  /** The call that gives a title and a content only. */
  function TextEdit(title: string, content: Option<string>): Edit {
    Edit(Some(title), content, None, None, None, None, None, None)
  }

  /** The checks of `update_node` and `_reparent`. */
  function UpdateCheck(nodes: Forest, project: string, id: Id, parent: Option<Id>): Result<()> {
    if !Usable(nodes, project, id) then Err(NotFoundError)
    else if parent.None? || parent == nodes[id].parent then Ok(())
    else if parent.value == id then Err(MemoryTreeError)
    else if !Usable(nodes, project, parent.value) then Err(NotFoundError)
    else Ok(())
  }

  /** The row after the assignments of `update_node` other than the move. */
  function Edited(n: Node, e: Edit): Node {
    n.(title := e.title.GetOr(n.title),
       content := if e.content.Some? then e.content else n.content,
       wordCount := if e.content.Some? then |e.content.value| else n.wordCount,
       summary := if e.summary.Some? then e.summary else n.summary,
       status := e.status.GetOr(n.status),
       topicLabel := if e.topicLabel.Some? then e.topicLabel else n.topicLabel,
       entityRefs := if e.entityRefs.Some? then Refs(e.entityRefs.value) else n.entityRefs,
       orderIndex := e.orderIndex.GetOr(n.orderIndex))
  }

  /** A successful `update_node`. */
  function Updated(nodes: Forest, id: Id, e: Edit): Forest
    requires id in nodes
    requires e.parent.Some? && e.parent != nodes[id].parent ==> e.parent.value in nodes
  {
    var t := MovedTo(nodes[id := Edited(nodes[id], e)], id, e.parent);
    t[id := t[id].(version := t[id].version + 1)]
  }

  /** A parent that is given and new moves the node. */
  function MovedTo(nodes: Forest, id: Id, parent: Option<Id>): Forest
    requires id in nodes
    requires parent.Some? && parent != nodes[id].parent ==> parent.value in nodes
  {
    if parent.Some? && parent != nodes[id].parent then Attached(nodes, id, parent.value) else nodes
  }

  function SnapshotOf(id: Id, n: Node): Snapshot {
    Snapshot(id, n.project, n.version, n.title, n.content)
  }

  /** Snapshot i is one `rollback` may restore. */
  predicate IsTarget(versions: seq<Snapshot>, project: string, id: Id, v: nat, i: nat) {
    i < |versions| && versions[i].nodeId == id && versions[i].project == project && versions[i].versionNumber == v
  }

  predicate HasTarget(versions: seq<Snapshot>, project: string, id: Id, v: nat) {
    exists i: nat :: i < |versions| && IsTarget(versions, project, id, v, i)
  }

  ghost predicate RolledBackTo(nodes: Forest, versions: seq<Snapshot>, project: string, id: Id, v: nat, nodes': Forest)
    requires id in nodes
  {
    exists i: nat :: IsTarget(versions, project, id, v, i)
                     && nodes' == Updated(nodes, id, TextEdit(versions[i].title, versions[i].content))
  }

  class Service {
    var nodes: Forest
    var versions: seq<Snapshot>

    constructor ()
      ensures nodes == map[] && versions == []
    {
      nodes := map[];
      versions := [];
    }

    /** `create_node`; id is the uuid the row gets. */
    method CreateNode(id: Id, n: Node) returns (r: Result<Id>)
      requires id !in nodes
      modifies this`nodes
      ensures r == if CreateCheck(old(nodes), n).Err? then Err(CreateCheck(old(nodes), n).error) else Ok(id)
      ensures nodes == if r.Ok? then Created(old(nodes), id, n) else old(nodes)
    {
      var depth, path := 0, "";
      if n.parent.Some? && n.parent.value != "" {
        var q := n.parent.value;
        if q !in nodes || nodes[q].project != n.project {
          return Err(NotFoundError);
        }
        depth := nodes[q].depth + 1;
        path := ChildPath(nodes[q], q);
        nodes := nodes[q := nodes[q].(childCount := nodes[q].childCount + 1)];
      }
      if n.parent == Some("") {
        return Err(IntegrityError);
      }
      nodes := nodes[id := Fresh(n).(depth := depth, path := path)];
      if path == "" {
        nodes := nodes[id := nodes[id].(path := "/" + id)];
      }
      return Ok(id);
    }

    method GetNode(project: string, id: Id) returns (r: Result<Node>)
      ensures r == if Usable(nodes, project, id) then Ok(nodes[id]) else Err(NotFoundError)
    {
      if id !in nodes || nodes[id].project != project {
        return Err(NotFoundError);
      }
      return Ok(nodes[id]);
    }

    /** `list_nodes`, as ids. */
    method ListNodes(project: string, layer: string, parent: Option<Id>, at: Option<int>) returns (ids: seq<Id>)
      ensures Lists(nodes, ids, project, layer, parent, at)
    {
      var rest := set x | x in nodes && Matches(nodes[x], project, layer, parent, at);
      ids := [];
      while rest != {}
        invariant forall x :: x in ids || x in rest <==> x in nodes && Matches(nodes[x], project, layer, parent, at)
        invariant Sorted(nodes, ids, rest)
        decreases |rest|
      {
        ghost var first := SomeFirst(nodes, rest);
        var x :| x in rest && forall y :: y in rest ==> NotAfter(nodes[x], nodes[y]);
        SortedStep(nodes, ids, rest, x);
        ids := ids + [x];
        rest := rest - {x};
      }
    }

    /** `update_node`. A raised error rolls the transaction back: both tables as before. */
    method UpdateNode(project: string, id: Id, e: Edit) returns (r: Result<()>)
      modifies this
      ensures r == UpdateCheck(old(nodes), project, id, e.parent)
      ensures r.Err? ==> nodes == old(nodes) && versions == old(versions)
      ensures r.Ok? ==> nodes == Updated(old(nodes), id, e)
      ensures r.Ok? ==> versions == old(versions) + [SnapshotOf(id, old(nodes)[id])]
    {
      var node := GetNode(project, id);
      if node.Err? {
        return Err(node.error);
      }
      var nodesBefore, versionsBefore := nodes, versions;
      versions := versions + [SnapshotOf(id, node.value)];
      var edited := EditRow(node.value, e);
      nodes := nodes[id := edited];
      if e.parent.Some? && e.parent != nodes[id].parent {
        var moved := Reparent(project, id, e.parent.value);
        if moved.Err? {
          nodes, versions := nodesBefore, versionsBefore;
          return Err(moved.error);
        }
      }
      nodes := nodes[id := nodes[id].(version := nodes[id].version + 1)];
      return Ok(());
    }

    /** The assignments of `update_node` before the move. */
    method EditRow(was: Node, e: Edit) returns (n: Node)
      ensures n == Edited(was, e)
    {
      n := was;
      if e.title.Some? {
        n := n.(title := e.title.value);
      }
      if e.content.Some? {
        n := n.(content := e.content, wordCount := |e.content.value|);
      }
      if e.summary.Some? {
        n := n.(summary := e.summary);
      }
      if e.status.Some? {
        n := n.(status := e.status.value);
      }
      if e.topicLabel.Some? {
        n := n.(topicLabel := e.topicLabel);
      }
      if e.entityRefs.Some? {
        n := n.(entityRefs := Refs(e.entityRefs.value));
      }
      if e.orderIndex.Some? {
        n := n.(orderIndex := e.orderIndex.value);
      }
    }

    /** `_reparent`. */
    method Reparent(project: string, id: Id, q: Id) returns (r: Result<()>)
      requires id in nodes
      modifies this`nodes
      ensures r == if q == id then Err(MemoryTreeError)
                   else if !Usable(old(nodes), project, q) then Err(NotFoundError)
                   else Ok(())
      ensures nodes == if r.Ok? then Attached(old(nodes), id, q) else old(nodes)
    {
      if q == id {
        return Err(MemoryTreeError);
      }
      if q !in nodes || nodes[q].project != project {
        return Err(NotFoundError);
      }
      var from := nodes[id].parent;
      if from.Some? && from.value in nodes {
        nodes := nodes[from.value := nodes[from.value].(childCount := Decremented(nodes[from.value].childCount))];
      }
      Attach(id, q);
      return Ok(());
    }

    /** The assignments of `_reparent` to the new parent and the node. */
    method Attach(id: Id, q: Id)
      requires id in nodes && q in nodes
      modifies this`nodes
      ensures var t := old(nodes)[q := old(nodes)[q].(childCount := old(nodes)[q].childCount + 1)];
              nodes == t[id := t[id].(parent := Some(q), depth := t[q].depth + 1, path := ChildPath(t[q], q))]
    {
      nodes := nodes[q := nodes[q].(childCount := nodes[q].childCount + 1)];
      ghost var t := nodes;
      nodes := nodes[id := nodes[id].(parent := Some(q))];
      nodes := nodes[id := nodes[id].(depth := nodes[q].depth + 1)];
      assert nodes == t[id := t[id].(parent := Some(q), depth := t[q].depth + 1)];
      nodes := nodes[id := nodes[id].(path := ChildPath(nodes[q], q))];
    }

    /** `rollback`: writes the target's title and content through `update_node`, which ignores
      * a NULL content. */
    method Rollback(project: string, id: Id, v: nat) returns (r: Result<()>)
      modifies this
      ensures r == if !HasTarget(old(versions), project, id, v) then Err(NotFoundError)
                   else UpdateCheck(old(nodes), project, id, None)
      ensures r.Err? ==> nodes == old(nodes) && versions == old(versions)
      ensures r.Ok? ==> RolledBackTo(old(nodes), old(versions), project, id, v, nodes)
      ensures r.Ok? ==> versions == old(versions) + [SnapshotOf(id, old(nodes)[id])]
    {
      for i := 0 to |versions|
        invariant nodes == old(nodes) && versions == old(versions)
        invariant forall j: nat :: j < i ==> !IsTarget(versions, project, id, v, j)
      {
        if IsTarget(versions, project, id, v, i) {
          r := UpdateNode(project, id, TextEdit(versions[i].title, versions[i].content));
          return;
        }
      }
      return Err(NotFoundError);
    }

    /** `delete_node`. With cascade it recurses on the listed children. A raised error rolls the
      * transaction back, also when the recursion is too deep. */
    method DeleteNode(project: string, id: Id, cascade: bool, now: int, limit: nat) returns (r: Result<nat>)
      modifies this
      ensures var check := DeleteCheck(old(nodes), project, id, cascade, now, limit);
              if check.Err? then r == Err(check.error) && nodes == old(nodes) && versions == old(versions)
              else var d := Deleted(old(nodes), project, id, cascade, now);
                   && r == Ok(|d|) && nodes == Pruned(old(nodes), d, old(nodes)[id].parent)
                   && versions == Without(old(versions), d)
    {
      var nodesBefore, versionsBefore := nodes, versions;
      r := DeleteBranch(project, id, cascade, now, limit);
      if r.Err? {
        nodes, versions := nodesBefore, versionsBefore;
      }
    }

    /** The recursion of `delete_node`, `limit` calls deep at most. */
    method DeleteBranch(project: string, id: Id, cascade: bool, now: int, limit: nat) returns (r: Result<nat>)
      modifies this
      ensures r.Err? <==> DeleteCheck(old(nodes), project, id, cascade, now, limit).Err?
      ensures r.Err? ==> r.error == DeleteCheck(old(nodes), project, id, cascade, now, limit).error
      ensures r.Ok? ==> var d := Deleted(old(nodes), project, id, cascade, now);
                r.value == |d| && nodes == Pruned(old(nodes), d, old(nodes)[id].parent)
                && versions == Without(old(versions), d)
      decreases limit, 1
    {
      var node := GetNode(project, id);
      if node.Err? {
        return Err(node.error);
      }
      ghost var was, log := nodes, versions;
      ghost var d: set<Id> := {};
      var deleted: nat := 0;
      WithoutNothing(versions);
      if cascade {
        var below: Result<nat>;
        below, d := DeleteChildren(project, id, now, limit);
        if below.Err? {
          return Err(below.error);
        }
        deleted := below.value;
      }
      ghost var gone := Deleted(was, project, id, cascade, now);
      assert id !in d && d + {id} == gone && |gone| == |d| + 1;
      RemovedIsPruned(was, nodes, d, id);
      WithoutTwice(log, d, {id});
      DeleteRow(id);
      assert nodes == Pruned(was, gone, was[id].parent) && versions == Without(log, gone);
      return Ok(deleted + 1);
    }

    /** The end of `delete_node`: one lower count on the parent, and the row goes with its snapshots. */
    method DeleteRow(id: Id)
      requires id in nodes
      modifies this
      ensures nodes == Removed(old(nodes), id) && versions == Without(old(versions), {id})
    {
      nodes := Uncounted(nodes, nodes[id].parent);
      nodes := map x | x in nodes && x != id :: Cut(nodes[x], {id});
      versions := Without(versions, {id});
    }

    /** The cascade loop of `delete_node`. */
    method DeleteChildren(project: string, id: Id, now: int, limit: nat) returns (r: Result<nat>, ghost d: set<Id>)
      requires id in nodes
      modifies this
      ensures r.Ok? <==> CascadeCheck(old(nodes), project, now, id, limit).Ok?
      ensures r.Err? ==> r.error == RecursionError
      ensures r.Ok? ==> Cleared(old(nodes), nodes, d, id) && d + {id} == Doomed(old(nodes), project, now, id)
      ensures r.Ok? ==> r.value == |d| && versions == Without(old(versions), d)
      decreases limit, 0
    {
      ghost var was, log := nodes, versions;
      d := {};
      var deleted: nat := 0;
      WithoutNothing(versions);
      var children := ListNodes(project, "", Some(id), Some(now));
      assert children[..0] == [];
      ListedChildren(was, children, project, now, id);
      for i := 0 to |children|
        invariant Deleting(was, nodes, project, now, children, i, d, id) && deleted == |d|
        invariant versions == Without(log, d)
        invariant AllEnd(was, project, now, children, i, limit)
      {
        if limit == 0 {
          SomeChildFails(was, project, now, children, id, limit, i);
          return Err(RecursionError), d;
        }
        var below := DeleteNext(project, id, now, limit, children, i, was, d);
        if below.Err? {
          SomeChildFails(was, project, now, children, id, limit, i);
          return Err(below.error), d;
        }
        WithoutTwice(log, d, Doomed(was, project, now, children[i]));
        d := d + Doomed(was, project, now, children[i]);
        deleted := deleted + below.value;
      }
      AllChildrenEnd(was, project, now, children, id, limit);
      assert children[..|children|] == children;
      EndedHere(was, project, now, children, |children|, d, id);
      ChildrenThenSelf(was, project, now, children, d, id);
      r := Ok(deleted);
    }

    /** The recursive call, on a child that is there. */
    method DeleteChild(project: string, c: Id, now: int, limit: nat) returns (r: Result<nat>)
      requires Usable(nodes, project, c)
      modifies this
      ensures r.Ok? <==> CascadeCheck(old(nodes), project, now, c, limit).Ok?
      ensures r.Err? ==> r.error == RecursionError
      ensures r.Ok? ==> r.value == |Doomed(old(nodes), project, now, c)|
      ensures r.Ok? ==> nodes == Pruned(old(nodes), Doomed(old(nodes), project, now, c), old(nodes)[c].parent)
      ensures r.Ok? ==> versions == Without(old(versions), Doomed(old(nodes), project, now, c))
      decreases limit, 2
    {
      r := DeleteBranch(project, c, true, now, limit);
    }

    /** The body of that loop. */
    method DeleteNext(project: string, id: Id, now: int, limit: nat, children: seq<Id>, i: nat,
                      ghost was: Forest, ghost d: set<Id>) returns (r: Result<nat>)
      requires limit > 0 && i < |children| && Deleting(was, nodes, project, now, children, i, d, id)
      modifies this
      ensures r.Ok? <==> CascadeCheck(was, project, now, children[i], limit - 1).Ok?
      ensures r.Err? ==> r.error == RecursionError
      ensures r.Ok? ==> BranchGone(was, nodes, project, now, children, i, d, id, r.value)
      ensures r.Ok? ==> versions == Without(old(versions), Doomed(was, project, now, children[i]))
      decreases limit - 1, 3
    {
      ghost var cur := nodes;
      NextChild(was, cur, project, now, children, i, d, id, limit - 1);
      r := DeleteChild(project, children[i], now, limit - 1);
      if r.Ok? {
        NextBranch(was, cur, nodes, project, now, children, i, d, id, limit - 1);
      }
    }
  }
}
