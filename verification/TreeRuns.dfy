/** What every run of memory-tree calls keeps: exact child counts, consistent depths and paths,
  * and a faithful version history (core/memory_tree/service.py). */
module TreeRuns {
  import opened Wrappers
  import opened MemoryForest
  import opened MemoryTree

  datatype State = State(nodes: Forest, versions: seq<Snapshot>)

  datatype Call =
    | Create(id: Id, node: Node)
    | Update(project: string, id: Id, edit: Edit)
    | Rollback(project: string, id: Id, target: nat)
    | Delete(project: string, id: Id, cascade: bool, now: int, limit: nat)

  ghost predicate UpdateStep(s: State, project: string, id: Id, e: Edit, s': State) {
    if UpdateCheck(s.nodes, project, id, e.parent).Err? then s' == s
    else s' == State(Updated(s.nodes, id, e), s.versions + [SnapshotOf(id, s.nodes[id])])
  }

  ghost predicate RollbackStep(s: State, project: string, id: Id, v: nat, s': State) {
    || (!HasTarget(s.versions, project, id, v) && s' == s)
    || exists i: nat :: IsTarget(s.versions, project, id, v, i)
         && UpdateStep(s, project, id, TextEdit(s.versions[i].title, s.versions[i].content), s')
  }

  ghost predicate DeleteStep(s: State, project: string, id: Id, cascade: bool, now: int, limit: nat, s': State) {
    if DeleteCheck(s.nodes, project, id, cascade, now, limit).Err? then s' == s
    else
      var d := Deleted(s.nodes, project, id, cascade, now);
      s' == State(Pruned(s.nodes, d, s.nodes[id].parent), Without(s.versions, d))
  }

  /** One call; the outcomes are those of the methods of MemoryTree.Service. Every call is possible
    * in every state; only a fresh id is asked of a creation. */
  ghost predicate Step(s: State, c: Call, s': State) {
    match c
    case Create(id, n) =>
      && id !in s.nodes && (forall i :: 0 <= i < |s.versions| ==> s.versions[i].nodeId != id)
      && s' == if CreateCheck(s.nodes, n).Err? then s else State(Created(s.nodes, id, n), s.versions)
    case Update(p, id, e) => UpdateStep(s, p, id, e, s')
    case Rollback(p, id, v) => RollbackStep(s, p, id, v, s')
    case Delete(p, id, cascade, now, limit) => DeleteStep(s, p, id, cascade, now, limit, s')
  }

  ghost predicate Run(calls: seq<Call>, states: seq<State>) {
    && |states| == |calls| + 1 && states[0] == State(map[], [])
    && forall i :: 0 <= i < |calls| ==> Step(states[i], calls[i], states[i + 1])
  }

  // ----- updates that do not move a node leave the structure alone -----

  /** The two tables have the same nodes in the same places. */
  ghost predicate SameShape(a: Forest, b: Forest) {
    a.Keys == b.Keys && forall x :: x in a ==> SamePlace(a[x], b[x])
  }

  predicate SamePlace(m: Node, n: Node) {
    && m.project == n.project && m.parent == n.parent
    && m.depth == n.depth && m.path == n.path && m.childCount == n.childCount
  }

  predicate SameText(m: Node, n: Node) {
    m.title == n.title && m.content == n.content && m.version == n.version
  }

  /** An update's structure is that of the move it makes, if any. */
  lemma UpdatedShape(nodes: Forest, id: Id, e: Edit)
    requires id in nodes
    requires e.parent.Some? && e.parent != nodes[id].parent ==> e.parent.value in nodes
    ensures SameShape(MovedTo(nodes, id, e.parent), Updated(nodes, id, e))
  {
    var s := nodes[id := Edited(nodes[id], e)];
    forall x | x in nodes
      ensures SamePlace(MovedTo(nodes, id, e.parent)[x], MovedTo(s, id, e.parent)[x])
    {
      MovedPlace(nodes, s, id, e.parent, x);
    }
    MovedKeys(nodes, id, e.parent);
    MovedKeys(s, id, e.parent);
  }

  lemma MovedKeys(nodes: Forest, id: Id, parent: Option<Id>)
    requires id in nodes && (parent.Some? && parent != nodes[id].parent ==> parent.value in nodes)
    ensures MovedTo(nodes, id, parent).Keys == nodes.Keys
  {
    if parent.Some? && parent != nodes[id].parent {
      AttachedRows(nodes, id, parent.value);
    }
  }

  /** Moving a node puts each row in the same place in two tables of the same shape. */
  lemma MovedPlace(a: Forest, b: Forest, id: Id, parent: Option<Id>, x: Id)
    requires SameShape(a, b) && id in a && x in a
    requires parent.Some? && parent != a[id].parent ==> parent.value in a
    ensures x in MovedTo(a, id, parent) && x in MovedTo(b, id, parent)
    ensures SamePlace(MovedTo(a, id, parent)[x], MovedTo(b, id, parent)[x])
  {
    assert SamePlace(a[x], b[x]) && SamePlace(a[id], b[id]);
    if parent.Some? && parent != a[id].parent {
      assert SamePlace(a[parent.value], b[parent.value]);
      AttachedRows(a, id, parent.value);
      AttachedRows(b, id, parent.value);
    }
  }

  /** What moving a node leaves of any row: all but its place. */
  lemma MovedText(nodes: Forest, id: Id, parent: Option<Id>, x: Id)
    requires id in nodes && x in nodes
    requires parent.Some? && parent != nodes[id].parent ==> parent.value in nodes
    ensures x in MovedTo(nodes, id, parent)
    ensures var n := MovedTo(nodes, id, parent)[x];
            SameText(n, nodes[x]) && n.project == nodes[x].project && n.topicId == nodes[x].topicId
            && (x != id ==> n.parent == nodes[x].parent)
  {
    if parent.Some? && parent != nodes[id].parent {
      AttachedRows(nodes, id, parent.value);
    }
  }

  /** An update leaves every other node's text and parent, and no node's project or topic. */
  lemma UpdatedOther(nodes: Forest, id: Id, e: Edit, x: Id)
    requires id in nodes && x in nodes
    requires e.parent.Some? && e.parent != nodes[id].parent ==> e.parent.value in nodes
    ensures var n := Updated(nodes, id, e);
            && x in n && n[x].project == nodes[x].project && n[x].topicId == nodes[x].topicId
            && (x != id ==> SameText(n[x], nodes[x]) && n[x].parent == nodes[x].parent)
  {
    MovedText(nodes[id := Edited(nodes[id], e)], id, e.parent, x);
  }

  /** The text an update leaves on its node. */
  lemma UpdatedText(nodes: Forest, id: Id, e: Edit)
    requires id in nodes
    requires e.parent.Some? && e.parent != nodes[id].parent ==> e.parent.value in nodes
    ensures id in Updated(nodes, id, e)
    ensures var n := Updated(nodes, id, e)[id];
            && n.title == e.title.GetOr(nodes[id].title) && n.version == nodes[id].version + 1
            && n.content == if e.content.Some? then e.content else nodes[id].content
  {
    MovedText(nodes[id := Edited(nodes[id], e)], id, e.parent, id);
  }

  lemma UpdatedKeys(nodes: Forest, id: Id, e: Edit)
    requires id in nodes
    requires e.parent.Some? && e.parent != nodes[id].parent ==> e.parent.value in nodes
    ensures Updated(nodes, id, e).Keys == nodes.Keys
  {
    MovedKeys(nodes[id := Edited(nodes[id], e)], id, e.parent);
  }

  lemma ShapeKeepsChildren(a: Forest, b: Forest, x: Id)
    requires SameShape(a, b)
    ensures Children(a, x) == Children(b, x)
  {
  }

  // ----- exact child counts, over every run -----

  ghost predicate Counted(nodes: Forest) {
    NoDangling(nodes) && CountsExact(nodes)
  }

  lemma ShapeKeepsCounted(a: Forest, b: Forest)
    requires SameShape(a, b) && Counted(a)
    ensures Counted(b)
  {
    forall x | x in b ensures b[x].childCount == |Children(b, x)| {
      ShapeKeepsChildren(a, b, x);
    }
  }

  lemma UpdateKeepsCounted(s: State, p: string, id: Id, e: Edit, s': State)
    requires Counted(s.nodes) && UpdateStep(s, p, id, e, s')
    ensures Counted(s'.nodes)
  {
    if UpdateCheck(s.nodes, p, id, e.parent).Ok? {
      UpdatedShape(s.nodes, id, e);
      MoveKeepsCounted(s.nodes, p, id, e.parent);
      ShapeKeepsCounted(MovedTo(s.nodes, id, e.parent), s'.nodes);
    }
  }

  lemma MoveKeepsCounted(nodes: Forest, p: string, id: Id, parent: Option<Id>)
    requires Counted(nodes) && UpdateCheck(nodes, p, id, parent).Ok?
    ensures Counted(MovedTo(nodes, id, parent))
  {
    if parent.Some? && parent != nodes[id].parent {
      AttachedRows(nodes, id, parent.value);
      AttachedCounts(nodes, id, parent.value);
    }
  }

  lemma StepKeepsCounted(s: State, c: Call, s': State)
    requires Counted(s.nodes) && Step(s, c, s')
    ensures Counted(s'.nodes)
  {
    match c
    case Create(id, n) =>
      if s' != s { CreatedCounts(s.nodes, id, n); }
    case Update(p, id, e) =>
      UpdateKeepsCounted(s, p, id, e, s');
    case Rollback(p, id, v) =>
      if s' != s {
        var i: nat :| IsTarget(s.versions, p, id, v, i)
          && UpdateStep(s, p, id, TextEdit(s.versions[i].title, s.versions[i].content), s');
        UpdateKeepsCounted(s, p, id, TextEdit(s.versions[i].title, s.versions[i].content), s');
      }
    case Delete(p, id, cascade, now, limit) =>
      if s' != s {
        DeletedBranch(s.nodes, p, id, cascade, now);
        PrunedCounts(s.nodes, Deleted(s.nodes, p, id, cascade, now), id);
      }
  }

  lemma DeletedBranch(nodes: Forest, p: string, id: Id, cascade: bool, now: int)
    requires id in nodes
    ensures Branch(nodes, Deleted(nodes, p, id, cascade, now), id)
  {
    DoomedIsBranch(nodes, p, now, id);
  }

  /** Over every run, moves of inner nodes included, each count is the number of rows naming the
    * node as their parent; so no clamp at zero ever hides a loss. */
  lemma {:induction false} RunCounted(calls: seq<Call>, states: seq<State>, n: nat)
    requires Run(calls, states) && n <= |calls|
    ensures Counted(states[n].nodes)
  {
    if n > 0 {
      RunCounted(calls, states, n - 1);
      StepKeepsCounted(states[n - 1], calls[n - 1], states[n]);
    }
  }

  // ----- depths and paths, over runs -----

  /** The call moves its node. */
  ghost predicate Moves(s: State, c: Call) {
    && c.Update? && UpdateCheck(s.nodes, c.project, c.id, c.edit.parent).Ok?
    && c.edit.parent.Some? && c.edit.parent != s.nodes[c.id].parent
  }

  /** A move, if the call makes one, is of a childless node or leaves its depth and path as they are. */
  ghost predicate MoveOk(s: State, c: Call) {
    Moves(s, c) ==>
      var id, q := c.id, c.edit.parent.value;
      || Children(s.nodes, id) == {}
      || (s.nodes[id].depth == s.nodes[q].depth + 1 && s.nodes[id].path == s.nodes[q].path + "/" + q)
  }

  lemma ShapeKeepsConsistent(a: Forest, b: Forest)
    requires SameShape(a, b) && Consistent(a)
    ensures Consistent(b)
  {
    forall x | x in b ensures Fits(b, x) {
      assert Fits(a, x) && SamePlace(a[x], b[x]);
      assert a[x].parent.Some? ==> SamePlace(a[a[x].parent.value], b[a[x].parent.value]);
    }
  }

  lemma SameShapeBack(a: Forest, b: Forest)
    requires SameShape(a, b)
    ensures SameShape(b, a)
  {
    forall x | x in b ensures SamePlace(b[x], a[x]) {
      assert SamePlace(a[x], b[x]);
    }
  }

  lemma UpdateConsistentIff(s: State, p: string, id: Id, e: Edit, s': State)
    requires Consistent(s.nodes) && UpdateStep(s, p, id, e, s')
    ensures Consistent(s'.nodes) <==> MoveOk(s, Update(p, id, e))
  {
    if UpdateCheck(s.nodes, p, id, e.parent).Ok? {
      var moved := MovedTo(s.nodes, id, e.parent);
      UpdatedShape(s.nodes, id, e);
      SameShapeBack(moved, s'.nodes);
      if e.parent.Some? && e.parent != s.nodes[id].parent {
        AttachedConsistentIff(s.nodes, id, e.parent.value);
      }
      if Consistent(moved) { ShapeKeepsConsistent(moved, s'.nodes); }
      if Consistent(s'.nodes) { ShapeKeepsConsistent(s'.nodes, moved); }
    }
  }

  /** Among the calls only a move can spoil depths and paths, and this is when it does. */
  lemma StepConsistentIff(s: State, c: Call, s': State)
    requires Consistent(s.nodes) && Step(s, c, s')
    ensures Consistent(s'.nodes) <==> MoveOk(s, c)
  {
    match c
    case Create(id, n) =>
      if s' != s { CreatedConsistent(s.nodes, id, n); }
    case Update(p, id, e) =>
      UpdateConsistentIff(s, p, id, e, s');
    case Rollback(p, id, v) =>
      if s' != s {
        var i: nat :| IsTarget(s.versions, p, id, v, i)
          && UpdateStep(s, p, id, TextEdit(s.versions[i].title, s.versions[i].content), s');
        UpdateConsistentIff(s, p, id, TextEdit(s.versions[i].title, s.versions[i].content), s');
      }
    case Delete(p, id, cascade, now, limit) =>
      if s' != s {
        DeletedBranch(s.nodes, p, id, cascade, now);
        PrunedConsistent(s.nodes, Deleted(s.nodes, p, id, cascade, now), id);
      }
  }

  /** Over every run, depth and path follow the parent of every node that has one throughout if and
    * only if no move is of a node with children whose depth or path changes. */
  lemma RunConsistentIff(calls: seq<Call>, states: seq<State>)
    requires Run(calls, states)
    ensures (forall n :: 0 <= n <= |calls| ==> Consistent(states[n].nodes)) <==>
            (forall n :: 0 <= n < |calls| ==> MoveOk(states[n], calls[n]))
  {
    if forall n :: 0 <= n < |calls| ==> MoveOk(states[n], calls[n]) {
      forall n | 0 <= n <= |calls| ensures Consistent(states[n].nodes) { RunConsistent(calls, states, n); }
    }
    if forall n :: 0 <= n <= |calls| ==> Consistent(states[n].nodes) {
      forall n | 0 <= n < |calls| ensures MoveOk(states[n], calls[n]) {
        assert Consistent(states[n].nodes) && Consistent(states[n + 1].nodes);
        StepConsistentIff(states[n], calls[n], states[n + 1]);
      }
    }
  }

  /** While moves are harmless the table is a forest, and every cascade ends. */
  lemma {:induction false} RunConsistent(calls: seq<Call>, states: seq<State>, n: nat)
    requires Run(calls, states) && n <= |calls|
    requires forall i :: 0 <= i < n ==> MoveOk(states[i], calls[i])
    ensures Consistent(states[n].nodes) && Acyclic(states[n].nodes)
    ensures forall p, now, id :: !OnListedCycle(states[n].nodes, p, now, id)
  {
    if n > 0 {
      RunConsistent(calls, states, n - 1);
      StepConsistentIff(states[n - 1], calls[n - 1], states[n]);
    }
    ConsistentIsForest(states[n].nodes);
    forall p, now, id ensures !OnListedCycle(states[n].nodes, p, now, id) {
      AcyclicOffCycle(states[n].nodes, p, now, id);
    }
  }

  // ----- roots -----

  /** The call does not delete a node and keep a child of it. */
  ghost predicate LeavesNoOrphan(s: State, c: Call) {
    c.Delete? && DeleteCheck(s.nodes, c.project, c.id, c.cascade, c.now, c.limit).Ok? ==>
      NoOrphan(s.nodes, Deleted(s.nodes, c.project, c.id, c.cascade, c.now))
  }

  lemma UpdateKeepsRooted(s: State, p: string, id: Id, e: Edit, s': State)
    requires Rooted(s.nodes) && UpdateStep(s, p, id, e, s')
    ensures Rooted(s'.nodes)
  {
    if UpdateCheck(s.nodes, p, id, e.parent).Ok? {
      UpdatedShape(s.nodes, id, e);
      if e.parent.Some? && e.parent != s.nodes[id].parent {
        AttachedRooted(s.nodes, id, e.parent.value);
      }
      forall x | x in s'.nodes ensures RootFits(s'.nodes, x) {
        assert SamePlace(MovedTo(s.nodes, id, e.parent)[x], s'.nodes[x]);
        assert RootFits(MovedTo(s.nodes, id, e.parent), x);
      }
    }
  }

  /** Among the calls only a delete can spoil a root, and it does exactly when it leaves an orphan. */
  lemma StepRootedIff(s: State, c: Call, s': State)
    requires Consistent(s.nodes) && Rooted(s.nodes) && Step(s, c, s')
    ensures Rooted(s'.nodes) <==> LeavesNoOrphan(s, c)
  {
    match c
    case Create(id, n) =>
      if s' != s { CreatedRooted(s.nodes, id, n); }
    case Update(p, id, e) =>
      UpdateKeepsRooted(s, p, id, e, s');
    case Rollback(p, id, v) =>
      if s' != s {
        var i: nat :| IsTarget(s.versions, p, id, v, i)
          && UpdateStep(s, p, id, TextEdit(s.versions[i].title, s.versions[i].content), s');
        UpdateKeepsRooted(s, p, id, TextEdit(s.versions[i].title, s.versions[i].content), s');
      }
    case Delete(p, id, cascade, now, limit) =>
      if DeleteCheck(s.nodes, p, id, cascade, now, limit).Ok? {
        PrunedRootedIff(s.nodes, Deleted(s.nodes, p, id, cascade, now), s.nodes[id].parent);
      }
  }

  /** Depth and path of every node describe its whole chain of ancestors. */
  ghost predicate AllPlaced(nodes: Forest) {
    forall x :: x in nodes ==> Placed(nodes, x)
  }

  lemma AllPlacedIff(nodes: Forest)
    ensures AllPlaced(nodes) <==> Consistent(nodes) && Rooted(nodes)
  {
    PathsAreTrails(nodes);
  }

  lemma StepPlacedIff(s: State, c: Call, s': State)
    requires AllPlaced(s.nodes) && Step(s, c, s')
    ensures AllPlaced(s'.nodes) <==> MoveOk(s, c) && LeavesNoOrphan(s, c)
  {
    AllPlacedIff(s.nodes);
    AllPlacedIff(s'.nodes);
    StepConsistentIff(s, c, s');
    StepRootedIff(s, c, s');
  }

  /** Over every run, every node's depth and path describe its whole chain of ancestors throughout
    * if and only if every move is harmless and no delete leaves an orphan. */
  lemma RunPlacedIff(calls: seq<Call>, states: seq<State>)
    requires Run(calls, states)
    ensures (forall n :: 0 <= n <= |calls| ==> AllPlaced(states[n].nodes)) <==>
            (forall n :: 0 <= n < |calls| ==> MoveOk(states[n], calls[n]) && LeavesNoOrphan(states[n], calls[n]))
  {
    if forall n :: 0 <= n < |calls| ==> MoveOk(states[n], calls[n]) && LeavesNoOrphan(states[n], calls[n]) {
      forall n | 0 <= n <= |calls| ensures AllPlaced(states[n].nodes) { RunPlaced(calls, states, n); }
    }
    if forall n :: 0 <= n <= |calls| ==> AllPlaced(states[n].nodes) {
      forall n | 0 <= n < |calls| ensures MoveOk(states[n], calls[n]) && LeavesNoOrphan(states[n], calls[n]) {
        assert AllPlaced(states[n].nodes) && AllPlaced(states[n + 1].nodes);
        StepPlacedIff(states[n], calls[n], states[n + 1]);
      }
    }
  }

  lemma {:induction false} RunPlaced(calls: seq<Call>, states: seq<State>, n: nat)
    requires Run(calls, states) && n <= |calls|
    requires forall i :: 0 <= i < n ==> MoveOk(states[i], calls[i]) && LeavesNoOrphan(states[i], calls[i])
    ensures AllPlaced(states[n].nodes)
  {
    if n > 0 {
      RunPlaced(calls, states, n - 1);
      StepPlacedIff(states[n - 1], calls[n - 1], states[n]);
    }
  }

  // ----- the version history -----

  /** The history has exactly one snapshot for each version a live node has left behind, and no other. */
  ghost predicate Logged(s: State) {
    && (forall i :: 0 <= i < |s.versions| ==> LiveSnapshot(s.nodes, s.versions[i]))
    && Numbered(s.versions)
    && forall x, v: nat :: x in s.nodes && 1 <= v < s.nodes[x].version ==>
      HasTarget(s.versions, s.nodes[x].project, x, v)
  }

  predicate LiveSnapshot(nodes: Forest, t: Snapshot) {
    t.nodeId in nodes && t.project == nodes[t.nodeId].project && 1 <= t.versionNumber < nodes[t.nodeId].version
  }

  ghost predicate VersionsPositive(nodes: Forest) {
    forall x :: x in nodes ==> nodes[x].version >= 1
  }

  lemma {:induction false} WithoutMeaning(versions: seq<Snapshot>, d: set<Id>)
    ensures forall t :: t in Without(versions, d) <==> t in versions && t.nodeId !in d
  {
    if |versions| > 0 {
      WithoutMeaning(versions[..|versions| - 1], d);
      assert versions == versions[..|versions| - 1] + [versions[|versions| - 1]];
    }
  }

  /** Snapshots of one node are numbered in the order they were taken. */
  ghost predicate Numbered(versions: seq<Snapshot>) {
    forall i, j :: 0 <= i < j < |versions| && versions[i].nodeId == versions[j].nodeId ==>
      versions[i].versionNumber < versions[j].versionNumber
  }

  lemma {:induction false} WithoutNumbered(versions: seq<Snapshot>, d: set<Id>)
    requires Numbered(versions)
    ensures Numbered(Without(versions, d))
  {
    if |versions| > 0 {
      var n := |versions| - 1;
      WithoutNumbered(versions[..n], d);
      WithoutMeaning(versions[..n], d);
      forall i | 0 <= i < |Without(versions[..n], d)| && Without(versions[..n], d)[i].nodeId == versions[n].nodeId
        ensures Without(versions[..n], d)[i].versionNumber < versions[n].versionNumber
      {
        var j :| 0 <= j < n && versions[..n][j] == Without(versions[..n], d)[i];
      }
    }
  }

  lemma TargetIn(versions: seq<Snapshot>, t: Snapshot)
    requires t in versions
    ensures HasTarget(versions, t.project, t.nodeId, t.versionNumber)
  {
    var i: nat :| i < |versions| && versions[i] == t;
    assert IsTarget(versions, t.project, t.nodeId, t.versionNumber, i);
  }

  lemma UpdateKeepsLogged(s: State, p: string, id: Id, e: Edit, s': State)
    requires Logged(s) && VersionsPositive(s.nodes) && UpdateStep(s, p, id, e, s')
    ensures Logged(s') && VersionsPositive(s'.nodes)
  {
    if UpdateCheck(s.nodes, p, id, e.parent).Ok? {
      UpdatedKeys(s.nodes, id, e);
      UpdatedText(s.nodes, id, e);
      forall x | x in s.nodes
        ensures s'.nodes[x].project == s.nodes[x].project
        ensures s'.nodes[x].version == s.nodes[x].version + if x == id then 1 else 0
      {
        UpdatedOther(s.nodes, id, e, x);
      }
      SnapshotKeepsLogged(s, id, s');
    }
  }

  /** One more snapshot and one higher version of the same node go together. */
  lemma SnapshotKeepsLogged(s: State, id: Id, s': State)
    requires Logged(s) && VersionsPositive(s.nodes) && id in s.nodes && s'.nodes.Keys == s.nodes.Keys
    requires s'.versions == s.versions + [SnapshotOf(id, s.nodes[id])]
    requires forall x :: x in s.nodes ==>
               && s'.nodes[x].project == s.nodes[x].project
               && s'.nodes[x].version == s.nodes[x].version + if x == id then 1 else 0
    ensures Logged(s') && VersionsPositive(s'.nodes)
  {
    forall x, v: nat | x in s'.nodes && 1 <= v < s'.nodes[x].version
      ensures HasTarget(s'.versions, s'.nodes[x].project, x, v)
    {
      if v < s.nodes[x].version {
        assert HasTarget(s.versions, s.nodes[x].project, x, v);
        var i: nat :| i < |s.versions| && IsTarget(s.versions, s.nodes[x].project, x, v, i);
        assert IsTarget(s'.versions, s'.nodes[x].project, x, v, i);
      } else {
        assert IsTarget(s'.versions, s'.nodes[x].project, x, v, |s.versions|);
      }
    }
  }

  lemma DeleteKeepsLogged(s: State, d: set<Id>, up: Option<Id>)
    requires Logged(s)
    ensures Logged(State(Pruned(s.nodes, d, up), Without(s.versions, d)))
  {
    var s' := State(Pruned(s.nodes, d, up), Without(s.versions, d));
    WithoutMeaning(s.versions, d);
    WithoutNumbered(s.versions, d);
    forall i | 0 <= i < |s'.versions| ensures LiveSnapshot(s'.nodes, s'.versions[i]) {
      assert s'.versions[i] in s.versions;
    }
    forall x, v: nat | x in s'.nodes && 1 <= v < s'.nodes[x].version
      ensures HasTarget(s'.versions, s'.nodes[x].project, x, v)
    {
      assert HasTarget(s.versions, s.nodes[x].project, x, v);
      var i: nat :| i < |s.versions| && IsTarget(s.versions, s.nodes[x].project, x, v, i);
      TargetIn(s'.versions, s.versions[i]);
    }
  }

  lemma StepKeepsLogged(s: State, c: Call, s': State)
    requires Logged(s) && VersionsPositive(s.nodes) && Step(s, c, s')
    ensures Logged(s') && VersionsPositive(s'.nodes)
  {
    match c
    case Create(id, n) =>
      forall x, v: nat | x in s'.nodes && 1 <= v < s'.nodes[x].version
        ensures HasTarget(s'.versions, s'.nodes[x].project, x, v)
      {
        assert HasTarget(s.versions, s.nodes[x].project, x, v);
      }
    case Update(p, id, e) =>
      UpdateKeepsLogged(s, p, id, e, s');
    case Rollback(p, id, v) =>
      if s' != s {
        var i: nat :| IsTarget(s.versions, p, id, v, i)
          && UpdateStep(s, p, id, TextEdit(s.versions[i].title, s.versions[i].content), s');
        UpdateKeepsLogged(s, p, id, TextEdit(s.versions[i].title, s.versions[i].content), s');
      }
    case Delete(p, id, cascade, now, limit) =>
      if s' != s {
        DeleteKeepsLogged(s, Deleted(s.nodes, p, id, cascade, now), s.nodes[id].parent);
      }
  }

  /** Over every run: one snapshot per past version, numbered 1, 2, ... below the node's version. */
  lemma {:induction false} RunLogged(calls: seq<Call>, states: seq<State>, n: nat)
    requires Run(calls, states) && n <= |calls|
    ensures Logged(states[n]) && VersionsPositive(states[n].nodes)
  {
    if n > 0 {
      RunLogged(calls, states, n - 1);
      StepKeepsLogged(states[n - 1], calls[n - 1], states[n]);
    }
  }

  /** One call, seen from a node that survives it: either its text and version stay, or its
    * version goes up by one and its previous text is in the history. */
  lemma StepOnNode(s: State, c: Call, s': State, x: Id)
    requires Step(s, c, s') && x in s.nodes && x in s'.nodes
    ensures forall t :: t in s.versions && t.nodeId == x ==> t in s'.versions
    ensures || SnapshotOf(x, s'.nodes[x]) == SnapshotOf(x, s.nodes[x])
            || (s'.nodes[x].version == s.nodes[x].version + 1 && SnapshotOf(x, s.nodes[x]) in s'.versions)
  {
    match c
    case Create(id, n) =>
    case Update(p, id, e) =>
      UpdateOnNode(s, p, id, e, s', x);
    case Rollback(p, id, v) =>
      if s' != s {
        var i: nat :| IsTarget(s.versions, p, id, v, i)
          && UpdateStep(s, p, id, TextEdit(s.versions[i].title, s.versions[i].content), s');
        UpdateOnNode(s, p, id, TextEdit(s.versions[i].title, s.versions[i].content), s', x);
      }
    case Delete(p, id, cascade, now, limit) =>
      WithoutMeaning(s.versions, Deleted(s.nodes, p, id, cascade, now));
  }

  lemma UpdateOnNode(s: State, p: string, id: Id, e: Edit, s': State, x: Id)
    requires UpdateStep(s, p, id, e, s') && x in s.nodes
    ensures x in s'.nodes
    ensures forall t :: t in s.versions ==> t in s'.versions
    ensures || SnapshotOf(x, s'.nodes[x]) == SnapshotOf(x, s.nodes[x])
            || (s'.nodes[x].version == s.nodes[x].version + 1 && SnapshotOf(x, s.nodes[x]) in s'.versions)
  {
    if UpdateCheck(s.nodes, p, id, e.parent).Ok? {
      UpdatedText(s.nodes, id, e);
      UpdatedOther(s.nodes, id, e, x);
      assert s'.versions[|s.versions|] == SnapshotOf(id, s.nodes[id]);
    }
  }

  /** The history is faithful: while a node lives, the text it had at an earlier moment is the
    * text it has now, if its version is still the same, and otherwise is what the snapshot
    * with that version number holds. */
  lemma {:induction false} HistoryFaithful(calls: seq<Call>, states: seq<State>, i: nat, j: nat, x: Id)
    requires Run(calls, states) && i <= j <= |calls|
    requires forall m :: i <= m <= j ==> x in states[m].nodes
    ensures states[i].nodes[x].version <= states[j].nodes[x].version
    ensures states[i].nodes[x].version == states[j].nodes[x].version ==>
              SnapshotOf(x, states[i].nodes[x]) == SnapshotOf(x, states[j].nodes[x])
    ensures states[i].nodes[x].version < states[j].nodes[x].version ==>
              SnapshotOf(x, states[i].nodes[x]) in states[j].versions
    decreases j - i
  {
    if i < j {
      HistoryFaithful(calls, states, i, j - 1, x);
      StepOnNode(states[j - 1], calls[j - 1], states[j], x);
    }
  }

  /** A successful rollback to v restores the title the node had at version v. It restores the
    * content too exactly when the stored content is non-null or the current one is already null:
    * `update_node` reads a null content as "leave it". */
  lemma RollbackRestoresIff(s: State, p: string, id: Id, v: nat, i: nat, s': State)
    requires Logged(s) && Usable(s.nodes, p, id) && IsTarget(s.versions, p, id, v, i)
    requires Step(s, Rollback(p, id, v), s')
    ensures s'.nodes[id].title == s.versions[i].title
    ensures s'.nodes[id].content == s.versions[i].content <==>
              s.versions[i].content.Some? || s.nodes[id].content.None?
    ensures s'.nodes[id].version == s.nodes[id].version + 1
    ensures s'.versions == s.versions + [SnapshotOf(id, s.nodes[id])]
  {
    assert HasTarget(s.versions, p, id, v);
    var k: nat :| IsTarget(s.versions, p, id, v, k)
      && UpdateStep(s, p, id, TextEdit(s.versions[k].title, s.versions[k].content), s');
    assert k == i;
    UpdatedText(s.nodes, id, TextEdit(s.versions[i].title, s.versions[i].content));
  }
}
