/** Runs of memory-tree calls at which the exact conditions of MemoryForest and TreeRuns fail
  * (core/memory_tree/service.py). Each starts from empty tables. */
module TreeFailures {
  import opened Wrappers
  import opened MemoryForest
  import opened MemoryTree
  import opened TreeRuns

  function NewNode(parent: Option<Id>, content: Option<string>): Node {
    Node(project := "p", layer := "source", parent := parent, depth := 0, path := "", orderIndex := 0,
         createdAt := 0, title := "t", content := content, topicId := None, childCount := 0, validFrom := 0,
         validUntil := None, version := 1, summary := None, status := "active", topicLabel := None,
         entityRefs := None, wordCount := 0)
  }

  function Move(parent: Id): Edit {
    Edit(None, None, None, None, None, None, None, Some(parent))
  }

  /** The table after: create a. */
  function One(): Forest {
    Created(map[], "a", NewNode(None, None))
  }

  /** The table after: create a, create b under a. */
  function Pair(): Forest {
    Created(One(), "b", NewNode(Some("a"), None))
  }

  lemma PairRows()
    ensures var t := Pair();
      && t.Keys == {"a", "b"}
      && t["a"].parent == None && t["a"].depth == 0 && t["a"].path == "/a" && t["a"].project == "p"
      && t["b"].parent == Some("a") && t["b"].depth == 1 && t["b"].path == "/a/a" && t["b"].project == "p"
  {
  }

  /** Moving a node under its own child makes a cycle, on which no cascade ends (CascadeEndsIff). */
  lemma MoveUnderChildMakesCycle(calls: seq<Call>) returns (states: seq<State>)
    requires calls == [Create("a", NewNode(None, None)), Create("b", NewNode(Some("a"), None)),
                       Update("p", "a", Move("b"))]
    ensures Run(calls, states)
    ensures !Acyclic(states[3].nodes)
    ensures OnListedCycle(states[3].nodes, "p", 0, "a")
  {
    PairRows();
    var s0, s1 := State(map[], []), State(One(), []);
    var s2 := State(Pair(), []);
    var s3 := State(Updated(Pair(), "a", Move("b")), [SnapshotOf("a", Pair()["a"])]);
    assert Step(s0, calls[0], s1) && Step(s1, calls[1], s2) && Step(s2, calls[2], s3);
    states := [s0, s1, s2, s3];
    var t := states[3].nodes;
    assert t["a"].parent == Some("b") && t["b"].parent == Some("a");
    assert Above(t, "a", "a", 0) && Above(t, "b", "a", 1) && Above(t, "a", "a", 2);
    if Acyclic(t) { AcyclicMeaning(t, "a", 2); }
    assert FallsIn(t, "p", 0, "a", "a", 0) && FallsIn(t, "p", 0, "b", "a", 1) && FallsIn(t, "p", 0, "a", "a", 2);
    assert OnListedCycle(t, "p", 0, "a");
  }

  /** Moving a node with a child leaves the child's depth and path behind. */
  lemma MoveLeavesChildBehind(calls: seq<Call>) returns (states: seq<State>)
    requires calls == [Create("a", NewNode(None, None)), Create("b", NewNode(Some("a"), None)),
                       Create("c", NewNode(None, None)), Update("p", "a", Move("c"))]
    ensures Run(calls, states)
    ensures !Consistent(states[4].nodes)
    ensures "a" in states[4].nodes && "b" in states[4].nodes && states[4].nodes["b"].parent == Some("a")
    ensures states[4].nodes["b"].depth == 1 && states[4].nodes["a"].depth == 1
  {
    PairRows();
    var s0, s1 := State(map[], []), State(One(), []);
    var s2, s3 := State(Pair(), []), State(Created(Pair(), "c", NewNode(None, None)), []);
    var s4 := State(Updated(s3.nodes, "a", Move("c")), [SnapshotOf("a", s3.nodes["a"])]);
    assert Step(s0, calls[0], s1) && Step(s1, calls[1], s2) && Step(s2, calls[2], s3) && Step(s3, calls[3], s4);
    states := [s0, s1, s2, s3, s4];
    assert s4.nodes["b"].parent == Some("a") && !Fits(s4.nodes, "b");
  }

  /** A child that survives its parent becomes a root with depth 1 and its parent's path. */
  lemma SurvivorIsNoProperRoot(calls: seq<Call>) returns (states: seq<State>)
    requires calls == [Create("a", NewNode(None, None)), Create("b", NewNode(Some("a"), None)),
                       Delete("p", "a", false, 0, 0)]
    ensures Run(calls, states)
    ensures !Rooted(states[3].nodes)
    ensures "b" in states[3].nodes && states[3].nodes["b"].parent == None
    ensures states[3].nodes["b"].depth == 1 && states[3].nodes["b"].path == "/a/a"
  {
    PairRows();
    var s0, s1 := State(map[], []), State(One(), []);
    var s2, s3 := State(Pair(), []), State(Pruned(Pair(), {"a"}, None), []);
    assert Without([], {"a"}) == [];
    assert Step(s0, calls[0], s1) && Step(s1, calls[1], s2) && Step(s2, calls[2], s3);
    states := [s0, s1, s2, s3];
    assert s3.nodes["b"].parent == None && !RootFits(s3.nodes, "b");
  }

  /** Rolling back to a version without content keeps the present content. */
  lemma RollbackKeepsContent(calls: seq<Call>) returns (states: seq<State>)
    requires calls == [Create("a", NewNode(None, None)), Update("p", "a", TextEdit("t", Some("x"))),
                       Rollback("p", "a", 1)]
    ensures Run(calls, states)
    ensures "a" in states[1].nodes && "a" in states[3].nodes
    ensures states[1].nodes["a"].content == None && states[3].nodes["a"].content == Some("x")
  {
    var s0, s1 := State(map[], []), State(One(), []);
    var s2 := State(Updated(One(), "a", TextEdit("t", Some("x"))), [SnapshotOf("a", One()["a"])]);
    var s3 := State(Updated(s2.nodes, "a", TextEdit("t", None)), s2.versions + [SnapshotOf("a", s2.nodes["a"])]);
    assert s2.versions[0] == Snapshot("a", "p", 1, "t", None);
    assert IsTarget(s2.versions, "p", "a", 1, 0);
    assert UpdateStep(s2, "p", "a", TextEdit(s2.versions[0].title, s2.versions[0].content), s3);
    assert Step(s0, calls[0], s1) && Step(s1, calls[1], s2) && Step(s2, calls[2], s3);
    states := [s0, s1, s2, s3];
  }
}
