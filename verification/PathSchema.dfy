/** The path schema of a reasoning answer, `_path_to_schema` of core/services/retrieval.py. */
module PathSchema {
  import opened Wrappers
  import opened PathSearch

  datatype SchemaNode = SchemaNode(uuid: string, name: string)

  datatype SchemaEdge = SchemaEdge(relationType: string, fact: Option<string>, confidence: Option<real>)

  /** Python's `name or uuid`. */
  function Label(name: Option<string>, uuid: string): string {
    if name.Some? && name.value != "" then name.value else uuid
  }

  /** Node i of a path, labelled by the edge that reaches it (the start: by the edge that leaves it). */
  function SchemaNodeAt(p: Path, i: nat): SchemaNode
    requires |p| > 0 && i <= |p|
  {
    if i == 0 then SchemaNode(p[0].source, Label(p[0].sourceName, p[0].source))
    else SchemaNode(p[i - 1].target, Label(p[i - 1].targetName, p[i - 1].target))
  }

  /** A path in terms of its own nodes. */
  ghost predicate Chains(p: Path) {
    && |p| > 0 && Distinct(NodesOf(p[0].source, p))
    && forall i :: 0 <= i < |p| ==> p[i].source == NodesOf(p[0].source, p)[i]
  }

  /** The nodes listed so far, each once, and the set of their uuids. */
  ghost predicate SeenIs(nodes: seq<SchemaNode>, seen: set<string>) {
    && (forall i, j :: 0 <= i < j < |nodes| ==> nodes[i].uuid != nodes[j].uuid)
    && forall x :: x in seen <==> exists i :: 0 <= i < |nodes| && nodes[i].uuid == x
  }

  /** The uuid and name of an endpoint of an edge: the uuid stands for a missing or empty name. */
  predicate IsEndpoint(n: SchemaNode, e: Rel) {
    || (n.uuid == e.source
        && n.name == if e.sourceName.Some? && e.sourceName.value != "" then e.sourceName.value else e.source)
    || (n.uuid == e.target
        && n.name == if e.targetName.Some? && e.targetName.value != "" then e.targetName.value else e.target)
  }

  /** Every node listed is an endpoint of one of the edges. */
  ghost predicate AllMentioned(p: Path, nodes: seq<SchemaNode>) {
    forall i :: 0 <= i < |nodes| ==> IsMentioned(p, nodes[i])
  }

  predicate IsMentioned(p: Path, n: SchemaNode) {
    exists k :: 0 <= k < |p| && IsEndpoint(n, p[k])
  }

  /** The endpoints of the edges. */
  ghost function Ends(p: Path): set<string> {
    if |p| == 0 then {} else Ends(p[..|p| - 1]) + {p[|p| - 1].source, p[|p| - 1].target}
  }

  lemma {:induction false} EndsMeaning(p: Path)
    ensures forall x :: x in Ends(p) <==> exists k :: 0 <= k < |p| && (p[k].source == x || p[k].target == x)
  {
    if |p| > 0 {
      var q, n := p[..|p| - 1], |p| - 1;
      EndsMeaning(q);
      assert forall k :: 0 <= k < n ==> q[k] == p[k];
      forall x ensures x in Ends(p) <==> exists k :: 0 <= k < |p| && (p[k].source == x || p[k].target == x) {
        if x in Ends(q) {
          var k :| 0 <= k < n && (q[k].source == x || q[k].target == x);
          assert p[k].source == x || p[k].target == x;
        }
      }
    }
  }

  lemma MentionedLater(p: Path, k: nat, nodes: seq<SchemaNode>)
    requires k < |p| && AllMentioned(p[..k], nodes)
    ensures AllMentioned(p[..k + 1], nodes)
  {
    forall i | 0 <= i < |nodes| ensures IsMentioned(p[..k + 1], nodes[i]) {
      assert IsMentioned(p[..k], nodes[i]);
      var m :| 0 <= m < k && IsEndpoint(nodes[i], p[..k][m]);
      assert p[..k + 1][m] == p[..k][m];
    }
  }

  lemma MentionedOneMore(p: Path, nodes: seq<SchemaNode>, n: SchemaNode)
    requires |p| > 0 && AllMentioned(p, nodes) && IsEndpoint(n, p[|p| - 1])
    ensures AllMentioned(p, nodes + [n])
  {
    assert IsMentioned(p, n);
  }

  lemma EndsStep(p: Path, k: nat)
    requires k < |p|
    ensures Ends(p[..k + 1]) == Ends(p[..k]) + {p[k].source, p[k].target}
  {
    assert p[..k + 1][..k] == p[..k];
  }

  /** The first k edges of a path have listed its first k + 1 nodes. */
  ghost predicate ListsPath(p: Path, k: nat, nodes: seq<SchemaNode>)
    requires k <= |p|
  {
    if k == 0 then nodes == [] else |nodes| == k + 1 && forall i :: 0 <= i <= k ==> nodes[i] == SchemaNodeAt(p, i)
  }

  method AddNode(nodes: seq<SchemaNode>, seen: set<string>, uuid: string, name: Option<string>)
    returns (nodes': seq<SchemaNode>, seen': set<string>)
    requires SeenIs(nodes, seen)
    ensures SeenIs(nodes', seen') && seen' == seen + {uuid}
    ensures nodes' == if uuid in seen then nodes else nodes + [SchemaNode(uuid, Label(name, uuid))]
  {
    nodes', seen' := nodes, seen;
    if uuid !in seen {
      seen' := seen + {uuid};
      nodes' := nodes + [SchemaNode(uuid, Label(name, uuid))];
      assert nodes'[|nodes|].uuid == uuid;
      assert forall i :: 0 <= i < |nodes| ==> nodes'[i] == nodes[i];
    }
  }

  /** What the first k edges have listed. */
  ghost predicate Listing(p: Path, k: nat, nodes: seq<SchemaNode>, seen: set<string>) {
    && k <= |p| && SeenIs(nodes, seen) && AllMentioned(p[..k], nodes) && seen == Ends(p[..k])
    && (k == 0 ==> nodes == []) && (Chains(p) ==> ListsPath(p, k, nodes))
  }

  /** The inner loop: the source, then the target of edge k. */
  method AddEndpoints(p: Path, k: nat, nodes: seq<SchemaNode>, seen: set<string>)
    returns (nodes': seq<SchemaNode>, seen': set<string>)
    requires k < |p| && Listing(p, k, nodes, seen)
    ensures Listing(p, k + 1, nodes', seen')
  {
    var e := p[k];
    nodes', seen' := AddNode(nodes, seen, e.source, e.sourceName);
    nodes', seen' := AddNode(nodes', seen', e.target, e.targetName);
    ListingStep(p, k, nodes, seen, nodes', seen');
  }

  lemma ListingStep(p: Path, k: nat, nodes: seq<SchemaNode>, seen: set<string>, nodes': seq<SchemaNode>,
                    seen': set<string>)
    requires k < |p| && Listing(p, k, nodes, seen) && BothAdded(p[k], nodes, seen, nodes')
    requires SeenIs(nodes', seen') && seen' == seen + {p[k].source} + {p[k].target}
    ensures Listing(p, k + 1, nodes', seen')
  {
    EndsStep(p, k);
    BothMentioned(p, k, nodes, seen, nodes');
    BothListed(p, k, nodes, seen, nodes');
    TwoMore(seen, p[k].source, p[k].target);
  }

  lemma TwoMore(s: set<string>, x: string, y: string)
    ensures s + {x} + {y} == s + {x, y}
  {
  }

  /** nodes' is nodes with the two endpoints of edge k added where they are new. */
  predicate BothAdded(e: Rel, nodes: seq<SchemaNode>, seen: set<string>, nodes': seq<SchemaNode>) {
    var one := if e.source in seen then nodes else nodes + [SchemaNode(e.source, Label(e.sourceName, e.source))];
    nodes' == if e.target in seen + {e.source} then one
              else one + [SchemaNode(e.target, Label(e.targetName, e.target))]
  }

  lemma BothListed(p: Path, k: nat, nodes: seq<SchemaNode>, seen: set<string>, nodes': seq<SchemaNode>)
    requires k < |p| && SeenIs(nodes, seen) && BothAdded(p[k], nodes, seen, nodes')
    ensures Chains(p) && ListsPath(p, k, nodes) ==> ListsPath(p, k + 1, nodes')
  {
    if Chains(p) && ListsPath(p, k, nodes) {
      NextOnPath(p, k, nodes, seen);
      ListsNext(p, k, nodes, nodes');
    }
  }

  lemma BothMentioned(p: Path, k: nat, nodes: seq<SchemaNode>, seen: set<string>, nodes': seq<SchemaNode>)
    requires k < |p| && AllMentioned(p[..k], nodes)
    requires BothAdded(p[k], nodes, seen, nodes')
    ensures AllMentioned(p[..k + 1], nodes')
  {
    var e, q := p[k], p[..k + 1];
    assert q[|q| - 1] == e;
    MentionedLater(p, k, nodes);
    var n := SchemaNode(e.source, Label(e.sourceName, e.source));
    MentionedOneMore(q, nodes, n);
    var one := if e.source in seen then nodes else nodes + [n];
    MentionedOneMore(q, one, SchemaNode(e.target, Label(e.targetName, e.target)));
  }

  lemma ListsNext(p: Path, k: nat, nodes: seq<SchemaNode>, nodes': seq<SchemaNode>)
    requires k < |p| && ListsPath(p, k, nodes)
    requires nodes' == (if k == 0 then [SchemaNodeAt(p, 0)] else nodes) + [SchemaNodeAt(p, k + 1)]
    ensures ListsPath(p, k + 1, nodes')
  {
  }

  /** `_path_to_schema`: on any edge list it lists each endpoint once; on a path that
    * `find_paths` returns it lists exactly the path's nodes in order, one more than its edges. */
  method PathToSchema(p: Path) returns (nodes: seq<SchemaNode>, edges: seq<SchemaEdge>)
    ensures forall i, j :: 0 <= i < j < |nodes| ==> nodes[i].uuid != nodes[j].uuid
    ensures AllMentioned(p, nodes) && (set i | 0 <= i < |nodes| :: nodes[i].uuid) == Ends(p)
    ensures |edges| == |p|
    ensures forall i :: 0 <= i < |p| ==> edges[i] == SchemaEdge(p[i].relationType, p[i].fact, p[i].confidence)
    ensures forall rels, start :: IsSimple(rels, start, p) ==> ListsPath(p, |p|, nodes)
  {
    nodes, edges := [], [];
    var seen: set<string> := {};
    for k := 0 to |p|
      invariant |edges| == k
      invariant forall i :: 0 <= i < k ==> edges[i] == SchemaEdge(p[i].relationType, p[i].fact, p[i].confidence)
      invariant Listing(p, k, nodes, seen)
    {
      var e := p[k];
      nodes, seen := AddEndpoints(p, k, nodes, seen);
      edges := edges + [SchemaEdge(e.relationType, e.fact, e.confidence)];
    }
    ListingDone(p, nodes, seen);
  }

  lemma ListingDone(p: Path, nodes: seq<SchemaNode>, seen: set<string>)
    requires Listing(p, |p|, nodes, seen)
    ensures forall i, j :: 0 <= i < j < |nodes| ==> nodes[i].uuid != nodes[j].uuid
    ensures AllMentioned(p, nodes) && (set i | 0 <= i < |nodes| :: nodes[i].uuid) == Ends(p)
    ensures forall rels, start :: IsSimple(rels, start, p) ==> ListsPath(p, |p|, nodes)
  {
    assert p[..|p|] == p;
    SeenUuids(nodes, seen);
    PathIsListed(p, nodes);
  }

  lemma PathIsListed(p: Path, nodes: seq<SchemaNode>)
    requires (Chains(p) ==> ListsPath(p, |p|, nodes)) && (|p| == 0 ==> nodes == [])
    ensures forall rels, start :: IsSimple(rels, start, p) ==> ListsPath(p, |p|, nodes)
  {
    forall rels, start | IsSimple(rels, start, p) ensures ListsPath(p, |p|, nodes) {
      SimpleChains(rels, start, p);
    }
  }

  lemma SeenUuids(nodes: seq<SchemaNode>, seen: set<string>)
    requires SeenIs(nodes, seen)
    ensures seen == set i | 0 <= i < |nodes| :: nodes[i].uuid
  {
  }

  lemma SimpleChains(rels: seq<Rel>, start: string, p: Path)
    requires IsSimple(rels, start, p)
    ensures |p| > 0 ==> Chains(p)
  {
    if |p| > 0 {
      SimpleMeaning(rels, start, p);
      assert p[0].source == NodesOf(start, p)[0];
    }
  }

  /** Along a path, edge k starts at the last node listed and ends at a new one. */
  lemma NextOnPath(p: Path, k: nat, nodes: seq<SchemaNode>, seen: set<string>)
    requires Chains(p) && k < |p| && SeenIs(nodes, seen) && ListsPath(p, k, nodes)
    ensures k == 0 ==> nodes == [] && seen == {} && p[0].source != p[0].target
    ensures k > 0 ==> p[k].source in seen && p[k].target !in seen
  {
    var ns := NodesOf(p[0].source, p);
    assert ns[k] == p[k].source && ns[k + 1] == p[k].target;
    if k > 0 {
      assert nodes[k].uuid == ns[k];
      forall i | 0 <= i < |nodes| ensures nodes[i].uuid != p[k].target {
        assert nodes[i].uuid == ns[i] && ns[i] != ns[k + 1];
      }
    } else {
      assert ns[0] != ns[1];
    }
  }
}
