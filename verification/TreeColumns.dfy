/** The writes of `MemoryTreeService` (core/memory_tree/service.py) column by column: what a call
  * stores, what it leaves alone, and when it refuses. */
module TreeColumns {
  import opened Wrappers
  import opened MemoryForest
  import opened MemoryTree
  import opened TreeRuns

  // ----- create -----

  /** The new row takes the caller's columns; depth and path come from the parent, the rest is set. */
  lemma CreatedRow(nodes: Forest, id: Id, n: Node)
    requires id !in nodes && CreateCheck(nodes, n).Ok?
    ensures Created(nodes, id, n).Keys == nodes.Keys + {id}
    ensures var m := Created(nodes, id, n)[id];
            && m.project == n.project && m.layer == n.layer && m.parent == n.parent && m.title == n.title
            && m.content == n.content && m.summary == n.summary && m.topicId == n.topicId
            && m.topicLabel == n.topicLabel && m.orderIndex == n.orderIndex && m.createdAt == n.createdAt
            && m.validFrom == n.validFrom && m.validUntil == None && m.version == 1 && m.status == "active"
            && m.childCount == 0 && m.wordCount == (if n.content.Some? then |n.content.value| else 0)
            && m.entityRefs == (if n.entityRefs == Some([]) then None else n.entityRefs)
    ensures n.parent.None? ==> Created(nodes, id, n)[id].depth == 0 && Created(nodes, id, n)[id].path == "/" + id
    ensures n.parent.Some? ==>
              var q := nodes[n.parent.value];
              && Created(nodes, id, n)[id].depth == q.depth + 1
              && Created(nodes, id, n)[id].path
                 == (if q.path == "" then "/" + n.parent.value else q.path) + "/" + n.parent.value
  {
  }

  /** Every other row keeps all its columns, but for the parent's count, which rises by one. */
  lemma CreatedElsewhere(nodes: Forest, id: Id, n: Node, x: Id)
    requires id !in nodes && CreateCheck(nodes, n).Ok? && x in nodes
    ensures Created(nodes, id, n)[x] == nodes[x].(childCount := Created(nodes, id, n)[x].childCount)
    ensures Created(nodes, id, n)[x].childCount == nodes[x].childCount + (if n.parent == Some(x) then 1 else 0)
  {
  }

  /** A row is refused exactly for a parent that is empty, missing or of another project. */
  lemma CreateRefused(nodes: Forest, n: Node)
    ensures CreateCheck(nodes, n).Ok? <==>
              n.parent.None? ||
              (n.parent.value != "" && n.parent.value in nodes && nodes[n.parent.value].project == n.project)
    ensures CreateCheck(nodes, n).Err? ==>
              CreateCheck(nodes, n).error == if n.parent == Some("") then IntegrityError else NotFoundError
  {
  }

  // ----- update -----

  /** The row gets the columns that are given, the next version, and the place under a new parent. */
  lemma UpdatedRow(nodes: Forest, project: string, id: Id, e: Edit)
    requires UpdateCheck(nodes, project, id, e.parent).Ok?
    ensures id in Updated(nodes, id, e)
    ensures var n, m := nodes[id], Updated(nodes, id, e)[id];
            && m.project == n.project && m.layer == n.layer && m.topicId == n.topicId && m.createdAt == n.createdAt
            && m.validFrom == n.validFrom && m.validUntil == n.validUntil && m.version == n.version + 1
            && m.title == (if e.title.Some? then e.title.value else n.title)
            && m.content == (if e.content.Some? then e.content else n.content)
            && m.wordCount == (if e.content.Some? then |e.content.value| else n.wordCount)
            && m.summary == (if e.summary.Some? then e.summary else n.summary)
            && m.status == (if e.status.Some? then e.status.value else n.status)
            && m.topicLabel == (if e.topicLabel.Some? then e.topicLabel else n.topicLabel)
            && m.orderIndex == (if e.orderIndex.Some? then e.orderIndex.value else n.orderIndex)
            && m.entityRefs == (if e.entityRefs.None? then n.entityRefs
                                else if e.entityRefs.value == [] then None else e.entityRefs)
    ensures var n, m := nodes[id], Updated(nodes, id, e)[id];
            if e.parent.None? || e.parent == n.parent
            then m.parent == n.parent && m.depth == n.depth && m.path == n.path && m.childCount == n.childCount
            else var q := nodes[e.parent.value];
                 && m.parent == e.parent && m.depth == q.depth + 1
                 && m.path == (if q.path == "" then "/" + e.parent.value else q.path) + "/" + e.parent.value
  {
    if e.parent.Some? && e.parent != nodes[id].parent {
      AttachedRows(nodes[id := Edited(nodes[id], e)], id, e.parent.value);
    }
  }

  /** Every other row keeps all its columns but the count, and without a move that too. */
  lemma UpdatedElsewhere(nodes: Forest, project: string, id: Id, e: Edit, x: Id)
    requires UpdateCheck(nodes, project, id, e.parent).Ok? && x in nodes && x != id
    ensures x in Updated(nodes, id, e)
    ensures var n, m := nodes[x], Updated(nodes, id, e)[x];
            && m == n.(childCount := m.childCount)
            && m.childCount == if e.parent.None? || e.parent == nodes[id].parent then n.childCount
                               else if e.parent == Some(x) then n.childCount + 1
                               else if nodes[id].parent != Some(x) then n.childCount
                               else if n.childCount <= 1 then 0 else n.childCount - 1
  {
    if e.parent.Some? && e.parent != nodes[id].parent {
      AttachedRows(nodes[id := Edited(nodes[id], e)], id, e.parent.value);
    }
  }

  /** An update is refused exactly for a node that is missing or of another project, and for a new
    * parent that is the node itself, missing or of another project. */
  lemma UpdateRefused(nodes: Forest, project: string, id: Id, parent: Option<Id>)
    ensures UpdateCheck(nodes, project, id, parent).Ok? <==>
              && id in nodes && nodes[id].project == project
              && (parent.Some? && parent != nodes[id].parent ==>
                    parent.value != id && parent.value in nodes && nodes[parent.value].project == project)
    ensures UpdateCheck(nodes, project, id, parent).Err? ==>
              UpdateCheck(nodes, project, id, parent).error
              == if id in nodes && nodes[id].project == project && parent == Some(id) then MemoryTreeError
                 else NotFoundError
  {
  }

  /** The snapshot holds the text and version the row had; a rollback takes both from the snapshot of
    * that node, project and version. */
  lemma SnapshotColumns(id: Id, n: Node, versions: seq<Snapshot>, project: string, v: nat, i: nat)
    ensures SnapshotOf(id, n).nodeId == id && SnapshotOf(id, n).project == n.project
    ensures SnapshotOf(id, n).versionNumber == n.version && SnapshotOf(id, n).title == n.title
    ensures SnapshotOf(id, n).content == n.content
    ensures IsTarget(versions, project, id, v, i) <==>
              && i < |versions| && versions[i].nodeId == id && versions[i].project == project
              && versions[i].versionNumber == v
  {
  }

  /** The table after a rollback: title and version of the row change, the content where the snapshot
    * has one, and nothing else in the table. */
  lemma RolledBackRow(nodes: Forest, versions: seq<Snapshot>, project: string, id: Id, v: nat, nodes': Forest)
    requires id in nodes && RolledBackTo(nodes, versions, project, id, v, nodes')
    ensures exists i :: 0 <= i < |versions| && versions[i].nodeId == id && versions[i].project == project
              && versions[i].versionNumber == v
              && RestoresText(nodes, id, versions[i].title, versions[i].content, nodes')
  {
    var i: nat :| IsTarget(versions, project, id, v, i)
      && nodes' == Updated(nodes, id, TextEdit(versions[i].title, versions[i].content));
    var n, content := nodes[id], versions[i].content;
    assert nodes' == nodes[id := nodes'[id]];
    assert nodes'[id] == if content.Some?
      then n.(title := versions[i].title, version := n.version + 1, content := content, wordCount := |content.value|)
      else n.(title := versions[i].title, version := n.version + 1);
    assert RestoresText(nodes, id, versions[i].title, content, nodes');
  }

  ghost predicate RestoresText(nodes: Forest, id: Id, title: string, content: Option<string>, nodes': Forest)
    requires id in nodes
  {
    && nodes'.Keys == nodes.Keys && (forall x :: x in nodes && x != id ==> nodes'[x] == nodes[x])
    && nodes'[id].title == title && nodes'[id].version == nodes[id].version + 1
    && nodes'[id].content == (if content.Some? then content else nodes[id].content)
    && nodes'[id] == nodes[id].(title := nodes'[id].title, version := nodes'[id].version,
                                content := nodes'[id].content, wordCount := nodes'[id].wordCount)
  }

  // ----- delete -----

  /** Exactly the rows of d are gone. A row that stays keeps all its columns but parent and count: the
    * parent becomes NULL exactly where it was a removed row, and the count falls by one, not below
    * zero, exactly on the row `up`. */
  lemma PrunedRows(nodes: Forest, d: set<Id>, up: Option<Id>)
    ensures forall x :: x in Pruned(nodes, d, up) <==> x in nodes && x !in d
    ensures forall x :: x in nodes && x !in d ==>
              var n, m := nodes[x], Pruned(nodes, d, up)[x];
              && m == n.(parent := m.parent, childCount := m.childCount)
              && m.parent == (if n.parent.Some? && n.parent.value in d then None else n.parent)
              && m.childCount == if up != Some(x) then n.childCount
                                 else if n.childCount <= 1 then 0 else n.childCount - 1
  {
  }

  /** The same of `delete_node`, in terms of its own arguments: the table keeps a row unless it is the
    * node or, with cascade, leads to it by parents of rows that are in force. */
  lemma DeletedRows(nodes: Forest, project: string, id: Id, cascade: bool, now: int, limit: nat)
    requires DeleteCheck(nodes, project, id, cascade, now, limit).Ok?
    ensures var nodes' := Pruned(nodes, Deleted(nodes, project, id, cascade, now), nodes[id].parent);
      && (forall x :: x in nodes' ==> x in nodes && x != id)
      && (forall x :: x in nodes && x !in nodes' ==>
            x == id || (cascade && InForceUnder(nodes, nodes', project, now, x)))
      && (forall x :: x in nodes' ==>
            var n, m := nodes[x], nodes'[x];
            && m == n.(parent := m.parent, childCount := m.childCount)
            && m.parent == (if n.parent.Some? && n.parent.value in nodes && n.parent.value !in nodes' then None
                            else n.parent)
            && m.childCount == if nodes[id].parent != Some(x) then n.childCount
                               else if n.childCount <= 1 then 0 else n.childCount - 1)
      && (cascade ==> forall x :: x in nodes' ==> !InForceUnder(nodes, nodes', project, now, x))
  {
    var d := Deleted(nodes, project, id, cascade, now);
    var nodes' := Pruned(nodes, d, nodes[id].parent);
    if cascade {
      assert FallsIn(nodes, project, now, id, id, 0);
      DoomedIsBranch(nodes, project, now, id);
      forall x | x in nodes && x != id ensures x in d <==> InForceUnder(nodes, nodes', project, now, x) {
        FallsWithParent(nodes, project, now, id, x);
      }
    }
  }

  /** The row is in force, of the project, and its parent is gone. */
  predicate InForceUnder(nodes: Forest, nodes': Forest, project: string, now: int, x: Id)
    requires x in nodes
  {
    && nodes[x].project == project && nodes[x].validFrom <= now
    && (nodes[x].validUntil.None? || nodes[x].validUntil.value > now)
    && nodes[x].parent.Some? && nodes[x].parent.value in nodes && nodes[x].parent.value !in nodes'
  }

  /** Another node falls exactly when it is listed and its parent falls. */
  lemma FallsWithParent(nodes: Forest, project: string, now: int, id: Id, x: Id)
    requires x in nodes && x != id
    ensures x in Doomed(nodes, project, now, id) <==>
              Listed(nodes, project, now, x) && nodes[x].parent.value in Doomed(nodes, project, now, id)
  {
    if x in Doomed(nodes, project, now, id) {
      var k: nat :| FallsIn(nodes, project, now, x, id, k);
      assert FallsIn(nodes, project, now, nodes[x].parent.value, id, k - 1);
    }
    if Listed(nodes, project, now, x) && nodes[x].parent.value in Doomed(nodes, project, now, id) {
      var k: nat :| FallsIn(nodes, project, now, nodes[x].parent.value, id, k);
      assert FallsIn(nodes, project, now, x, id, k + 1);
    }
  }

  // ----- list -----

  /** `list_nodes`: the rows of the project, of the layer and the parent asked for, in force at the
    * time asked for, each once, by order_index and then created_at. */
  lemma ListedRows(nodes: Forest, ids: seq<Id>, project: string, layer: string, parent: Option<Id>, at: Option<int>)
    requires Lists(nodes, ids, project, layer, parent, at)
    ensures forall x :: x in ids <==>
              && x in nodes && nodes[x].project == project && (layer == "" || nodes[x].layer == layer)
              && (parent.None? || nodes[x].parent == parent)
              && (at.None? || (nodes[x].validFrom <= at.value
                               && (nodes[x].validUntil.None? || nodes[x].validUntil.value > at.value)))
    ensures forall i, j :: 0 <= i < j < |ids| ==>
              && ids[i] != ids[j] && ids[i] in nodes && ids[j] in nodes
              && nodes[ids[i]].orderIndex <= nodes[ids[j]].orderIndex
              && (nodes[ids[i]].orderIndex == nodes[ids[j]].orderIndex ==>
                    nodes[ids[i]].createdAt <= nodes[ids[j]].createdAt)
  {
    forall i | 0 <= i < |ids| ensures ids[i] in nodes { assert ids[i] in ids; }
  }

  // ----- the calls of a run are the calls of the service -----

  /** Whatever call is made of the service, its outcome is a step of the runs. */
  method Perform(tree: Service, c: Call)
    requires c.Create? ==>
               c.id !in tree.nodes && forall i :: 0 <= i < |tree.versions| ==> tree.versions[i].nodeId != c.id
    modifies tree
    ensures Step(old(State(tree.nodes, tree.versions)), c, State(tree.nodes, tree.versions))
  {
    match c {
      case Create(id, n) => var r := tree.CreateNode(id, n);
      case Update(p, id, e) => var r := tree.UpdateNode(p, id, e);
      case Rollback(p, id, v) => var r := tree.Rollback(p, id, v);
      case Delete(p, id, cascade, now, limit) => var r := tree.DeleteNode(p, id, cascade, now, limit);
    }
  }
}
