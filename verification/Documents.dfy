/** The memory tree as a document store (openclaw_plugin/router.py, `put_document` and
  * `get_document`): one source node per document key. */
module Documents {
  import opened Wrappers
  import opened MemoryForest
  import opened MemoryTree
  import opened TreeRuns

  datatype Document = Document(title: string, content: string)

  function TopicOf(docKey: string): string {
    "openclaw:" + docKey
  }

  /** A row the lookup by (project, topic_id) may return. */
  predicate IsDoc(nodes: Forest, project: string, docKey: string, x: Id) {
    x in nodes && nodes[x].project == project && nodes[x].topicId == Some(TopicOf(docKey))
  }

  /** What a payload stores: a missing or empty title falls back to the key, a missing content to "". */
  function Payload(docKey: string, title: Option<string>, content: Option<string>): Document {
    Document(if title.Some? && title.value != "" then title.value else docKey, content.GetOr(""))
  }

  /** The arguments of the `create_node` call. */
  function DocNode(project: string, docKey: string, d: Document, now: int): Node {
    Node(project := project, layer := "source", parent := None, depth := 0, path := "", orderIndex := 0,
         createdAt := now, title := d.title, content := Some(d.content), topicId := Some(TopicOf(docKey)),
         childCount := 0, validFrom := now, validUntil := None, version := 1,
         summary := None, status := "active", topicLabel := None, entityRefs := None, wordCount := 0)
  }

  /** The arguments of the `update_node` call. */
  function DocEdit(d: Document): Edit {
    TextEdit(d.title, Some(d.content))
  }

  /** One `put_document`. */
  ghost predicate PutStep(s: State, project: string, docKey: string, d: Document, newId: Id, now: int, s': State) {
    || ((forall x :: !IsDoc(s.nodes, project, docKey, x)) && newId !in s.nodes
        && s' == State(Created(s.nodes, newId, DocNode(project, docKey, d, now)), s.versions))
    || exists x :: IsDoc(s.nodes, project, docKey, x)
                   && UpdateStep(s, project, x, DocEdit(d), s')
  }

  method PutDocument(tree: Service, project: string, docKey: string, title: Option<string>, content: Option<string>,
                     newId: Id, now: int) returns (id: Id, version: nat)
    requires newId !in tree.nodes
    modifies tree
    ensures PutStep(old(State(tree.nodes, tree.versions)), project, docKey, Payload(docKey, title, content), newId, now,
                    State(tree.nodes, tree.versions))
    ensures IsDoc(tree.nodes, project, docKey, id) && version == tree.nodes[id].version
  {
    ghost var s := State(tree.nodes, tree.versions);
    var d := Payload(docKey, title, content);
    if x :| x in tree.nodes && IsDoc(tree.nodes, project, docKey, x) {
      id := x;
      UpdatedOther(tree.nodes, x, DocEdit(d), x);
      var r := tree.UpdateNode(project, x, DocEdit(d));
      assert UpdateStep(s, project, x, DocEdit(d), State(tree.nodes, tree.versions));
    } else {
      var r := tree.CreateNode(newId, DocNode(project, docKey, d, now));
      id := newId;
    }
    version := tree.nodes[id].version;
  }

  /** The answer is the text of some row of the document. */
  ghost predicate Returns(nodes: Forest, project: string, docKey: string, answer: (string, Option<string>, nat)) {
    exists x :: IsDoc(nodes, project, docKey, x) && answer == (nodes[x].title, nodes[x].content, nodes[x].version)
  }

  /** `get_document`: None when no row has the key. */
  method GetDocument(tree: Service, project: string, docKey: string) returns (r: Option<(string, Option<string>, nat)>)
    ensures r.None? <==> forall x :: !IsDoc(tree.nodes, project, docKey, x)
    ensures r.Some? ==> Returns(tree.nodes, project, docKey, r.value)
  {
    if x :| x in tree.nodes && IsDoc(tree.nodes, project, docKey, x) {
      return Some((tree.nodes[x].title, tree.nodes[x].content, tree.nodes[x].version));
    }
    return None;
  }

  // ----- what a put stores and a get finds, column by column -----

  /** The row carries the document's key. */
  predicate HasTopic(n: Node, project: string, docKey: string) {
    n.project == project && n.topicId == Some("openclaw:" + docKey)
  }

  function TitleOr(title: Option<string>, docKey: string): string {
    if title.Some? && title.value != "" then title.value else docKey
  }

  function ContentOr(content: Option<string>): string {
    if content.Some? then content.value else ""
  }

  /** Where no row has the key, a put adds one row of the source layer, a root, and changes nothing else. */
  lemma PutCreates(s: State, project: string, docKey: string, title: Option<string>, content: Option<string>,
                   newId: Id, now: int, s': State)
    requires PutStep(s, project, docKey, Payload(docKey, title, content), newId, now, s')
    requires forall x :: x in s.nodes ==> !HasTopic(s.nodes[x], project, docKey)
    ensures newId !in s.nodes && newId in s'.nodes && s'.nodes == s.nodes[newId := s'.nodes[newId]]
    ensures s'.versions == s.versions
    ensures var n := s'.nodes[newId];
            && n.project == project && n.layer == "source" && n.parent == None && n.depth == 0
            && n.title == TitleOr(title, docKey) && n.content == Some(ContentOr(content))
            && n.topicId == Some("openclaw:" + docKey) && n.version == 1 && n.status == "active"
            && n.validFrom == now && n.validUntil == None && n.childCount == 0 && n.summary == None
            && n.wordCount == |ContentOr(content)|
  {
    forall x ensures !IsDoc(s.nodes, project, docKey, x) {
      assert x in s.nodes ==> !HasTopic(s.nodes[x], project, docKey);
    }
  }

  /** Where rows have the key, a put gives one of them the title and the content and the next version,
    * keeps a snapshot of what it said, and changes nothing else. */
  lemma PutUpdates(s: State, project: string, docKey: string, title: Option<string>, content: Option<string>,
                   newId: Id, now: int, s': State) returns (x: Id)
    requires PutStep(s, project, docKey, Payload(docKey, title, content), newId, now, s')
    requires exists y :: y in s.nodes && HasTopic(s.nodes[y], project, docKey)
    ensures x in s.nodes && HasTopic(s.nodes[x], project, docKey)
    ensures var n := s.nodes[x];
            && s'.nodes == s.nodes[x := n.(title := TitleOr(title, docKey), content := Some(ContentOr(content)),
                                           wordCount := |ContentOr(content)|, version := n.version + 1)]
            && s'.versions == s.versions + [Snapshot(x, project, n.version, n.title, n.content)]
  {
    var y :| y in s.nodes && HasTopic(s.nodes[y], project, docKey);
    assert IsDoc(s.nodes, project, docKey, y);
    x :| IsDoc(s.nodes, project, docKey, x)
      && UpdateStep(s, project, x, DocEdit(Payload(docKey, title, content)), s');
    TextUpdate(s.nodes, x, TitleOr(title, docKey), ContentOr(content));
  }

  lemma TextUpdate(nodes: Forest, x: Id, title: string, content: string)
    requires x in nodes
    ensures Updated(nodes, x, TextEdit(title, Some(content)))
         == nodes[x := nodes[x].(title := title, content := Some(content), wordCount := |content|,
                                 version := nodes[x].version + 1)]
  {
  }

  /** A lookup answers with the title, content and version of a row that has the key. */
  lemma AnswerColumns(nodes: Forest, project: string, docKey: string, answer: (string, Option<string>, nat))
    requires Returns(nodes, project, docKey, answer)
    ensures exists x :: x in nodes && HasTopic(nodes[x], project, docKey)
              && answer == (nodes[x].title, nodes[x].content, nodes[x].version)
  {
    var x :| IsDoc(nodes, project, docKey, x) && answer == (nodes[x].title, nodes[x].content, nodes[x].version);
    assert HasTopic(nodes[x], project, docKey);
  }

  // ----- runs of put_document and all other calls -----

  datatype Event =
    | Put(doc: Document, newId: Id, now: int)
    | Other(call: Call)

  predicate HasKey(n: Node, project: string, docKey: string) {
    n.project == project && n.topicId == Some(TopicOf(docKey))
  }

  /** The call is not about a row of the document, or it fails. */
  ghost predicate Leaves(s: State, project: string, docKey: string, c: Call) {
    match c
    case Create(_, n) => !HasKey(n, project, docKey) || CreateCheck(s.nodes, n).Err?
    case Update(p, id, e) => !IsDoc(s.nodes, project, docKey, id) || UpdateCheck(s.nodes, p, id, e.parent).Err?
    case Rollback(p, id, v) =>
      !IsDoc(s.nodes, project, docKey, id) || !HasTarget(s.versions, p, id, v) || UpdateCheck(s.nodes, p, id, None).Err?
    case Delete(p, id, cascade, now, limit) =>
      !IsDoc(s.nodes, project, docKey, id) || DeleteCheck(s.nodes, p, id, cascade, now, limit).Err?
  }

  ghost predicate EventStep(s: State, project: string, docKey: string, e: Event, s': State) {
    match e
    case Put(d, newId, now) => PutStep(s, project, docKey, d, newId, now, s')
    case Other(c) => Step(s, c, s')
  }

  ghost predicate EventRun(project: string, docKey: string, events: seq<Event>, states: seq<State>) {
    && |states| == |events| + 1
    && (forall x :: !IsDoc(states[0].nodes, project, docKey, x))
    && forall i :: 0 <= i < |events| ==> EventStep(states[i], project, docKey, events[i], states[i + 1])
  }

  function Puts(events: seq<Event>): seq<Document> {
    if |events| == 0 then []
    else Puts(events[..|events| - 1]) + (if events[|events| - 1].Put? then [events[|events| - 1].doc] else [])
  }

  /** x is the document's only row, a root, holding d at version v. */
  ghost predicate HoldsAt(nodes: Forest, project: string, docKey: string, x: Id, d: Document, v: nat) {
    && IsDoc(nodes, project, docKey, x)
    && (forall y :: IsDoc(nodes, project, docKey, y) ==> y == x)
    && nodes[x].parent == None && nodes[x].title == d.title && nodes[x].content == Some(d.content)
      && nodes[x].version == v
  }

  ghost predicate Holds(nodes: Forest, project: string, docKey: string, puts: seq<Document>) {
    if |puts| == 0 then forall x :: !IsDoc(nodes, project, docKey, x)
    else HoldsOne(nodes, project, docKey, puts[|puts| - 1], |puts|)
  }

  ghost predicate HoldsOne(nodes: Forest, project: string, docKey: string, d: Document, v: nat) {
    exists x :: HoldsAt(nodes, project, docKey, x, d, v)
  }

  lemma UpdateKeepsDoc(s: State, p: string, id: Id, e: Edit, s': State, project: string, docKey: string, x: Id)
    requires UpdateStep(s, p, id, e, s')
    ensures IsDoc(s'.nodes, project, docKey, x) <==> IsDoc(s.nodes, project, docKey, x)
    ensures x in s.nodes && x != id ==>
              x in s'.nodes && s'.nodes[x].parent == s.nodes[x].parent && SameText(s'.nodes[x], s.nodes[x])
  {
    if UpdateCheck(s.nodes, p, id, e.parent).Ok? {
      UpdatedKeys(s.nodes, id, e);
      if x in s.nodes {
        UpdatedOther(s.nodes, id, e, x);
      }
    }
  }

  lemma OtherKeepsDoc(s: State, c: Call, s': State, project: string, docKey: string, x: Id)
    requires Step(s, c, s') && Leaves(s, project, docKey, c)
    ensures IsDoc(s'.nodes, project, docKey, x) ==> IsDoc(s.nodes, project, docKey, x)
    ensures IsDoc(s.nodes, project, docKey, x) && s.nodes[x].parent == None ==>
              && IsDoc(s'.nodes, project, docKey, x)
              && s'.nodes[x].parent == None && SameText(s'.nodes[x], s.nodes[x])
  {
    match c
    case Create(id, n) =>
    case Update(p, id, e) =>
      UpdateKeepsDoc(s, p, id, e, s', project, docKey, x);
    case Rollback(p, id, v) =>
      if s' != s {
        var i: nat :| IsTarget(s.versions, p, id, v, i)
          && UpdateStep(s, p, id, TextEdit(s.versions[i].title, s.versions[i].content), s');
        UpdateKeepsDoc(s, p, id, TextEdit(s.versions[i].title, s.versions[i].content), s', project, docKey, x);
      }
    case Delete(p, id, cascade, now, limit) =>
      if s' != s && cascade {
        RootFallsAlone(s.nodes, p, now, x, id);
      }
  }

  lemma RootFallsAlone(nodes: Forest, p: string, now: int, x: Id, id: Id)
    ensures x in nodes && nodes[x].parent == None && x != id ==> x !in Doomed(nodes, p, now, id)
  {
    if x in nodes && nodes[x].parent == None && x != id {
      forall k: nat ensures !FallsIn(nodes, p, now, x, id, k) {
      }
    }
  }

  lemma EventKeepsHolds(s: State, e: Event, s': State, project: string, docKey: string, puts: seq<Document>)
    requires EventStep(s, project, docKey, e, s') && Holds(s.nodes, project, docKey, puts)
    requires e.Other? ==> Leaves(s, project, docKey, e.call)
    ensures Holds(s'.nodes, project, docKey, if e.Put? then puts + [e.doc] else puts)
  {
    if e.Put? && |puts| == 0 {
      assert s'.nodes == Created(s.nodes, e.newId, DocNode(project, docKey, e.doc, e.now));
      forall y ensures IsDoc(s'.nodes, project, docKey, y) ==> y == e.newId {
        assert !IsDoc(s.nodes, project, docKey, y);
      }
      assert HoldsAt(s'.nodes, project, docKey, e.newId, e.doc, 1);
    } else if e.Put? {
      PutAgain(s, e, s', project, docKey, puts);
    } else {
      forall x ensures IsDoc(s'.nodes, project, docKey, x) ==> IsDoc(s.nodes, project, docKey, x) {
        OtherKeepsDoc(s, e.call, s', project, docKey, x);
      }
      if |puts| > 0 {
        var x :| HoldsAt(s.nodes, project, docKey, x, puts[|puts| - 1], |puts|);
        OtherKeepsDoc(s, e.call, s', project, docKey, x);
        assert HoldsAt(s'.nodes, project, docKey, x, puts[|puts| - 1], |puts|);
      }
    }
  }

  lemma PutAgain(s: State, e: Event, s': State, project: string, docKey: string, puts: seq<Document>)
    requires e.Put? && |puts| > 0
    requires EventStep(s, project, docKey, e, s') && Holds(s.nodes, project, docKey, puts)
    ensures HoldsOne(s'.nodes, project, docKey, e.doc, |puts| + 1)
  {
    var x :| HoldsAt(s.nodes, project, docKey, x, puts[|puts| - 1], |puts|);
    assert UpdateStep(s, project, x, DocEdit(e.doc), s');
    UpdatedText(s.nodes, x, DocEdit(e.doc));
    AtRest(s.nodes, x, DocEdit(e.doc));
    forall y ensures IsDoc(s'.nodes, project, docKey, y) <==> IsDoc(s.nodes, project, docKey, y) {
      UpdateKeepsDoc(s, project, x, DocEdit(e.doc), s', project, docKey, y);
    }
    assert HoldsAt(s'.nodes, project, docKey, x, e.doc, |puts| + 1);
  }

  /** An edit without a parent leaves the node where it is. */
  lemma AtRest(nodes: Forest, id: Id, e: Edit)
    requires id in nodes && e.parent.None?
    ensures id in Updated(nodes, id, e) && Updated(nodes, id, e)[id].parent == nodes[id].parent
  {
  }

  lemma PutsStep(events: seq<Event>, i: nat)
    requires i < |events|
    ensures Puts(events[..i + 1]) == if events[i].Put? then Puts(events[..i]) + [events[i].doc] else Puts(events[..i])
  {
    assert events[..i + 1][..i] == events[..i];
  }

  // ----- calls that do not leave the document alone -----

  /** A successful creation with the key adds a row; any other call that does not leave the document
    * alone is about its row, and deletes it or gives it another version. */
  lemma DisturbedRow(s: State, c: Call, s': State, project: string, docKey: string, x: Id, d: Document, v: nat)
    requires HoldsAt(s.nodes, project, docKey, x, d, v) && Step(s, c, s') && !Leaves(s, project, docKey, c)
    ensures c.Create? ==>
              && c.id != x && IsDoc(s'.nodes, project, docKey, x) && IsDoc(s'.nodes, project, docKey, c.id)
              && s'.nodes[x].title == d.title && s'.nodes[x].content == Some(d.content) && s'.nodes[x].version == v
              && s'.nodes[c.id].title == c.node.title && s'.nodes[c.id].content == c.node.content
              && s'.nodes[c.id].version == 1
              && forall y :: IsDoc(s'.nodes, project, docKey, y) ==> y == x || y == c.id
    ensures !c.Create? && IsDoc(s'.nodes, project, docKey, x) ==> s'.nodes[x].version == v + 1
    ensures c.Delete? ==> x !in s'.nodes
    ensures !c.Create? ==> forall y :: IsDoc(s'.nodes, project, docKey, y) ==> y == x
  {
    match c
    case Create(id, n) =>
      forall y | IsDoc(s'.nodes, project, docKey, y) && y != id ensures y == x {
        assert IsDoc(s.nodes, project, docKey, y);
      }
    case Update(p, id, e) =>
      UpdatedRow(s, p, e, s', project, docKey, x);
    case Rollback(p, id, target) =>
      var i: nat :| IsTarget(s.versions, p, id, target, i)
        && UpdateStep(s, p, id, TextEdit(s.versions[i].title, s.versions[i].content), s');
      UpdatedRow(s, p, TextEdit(s.versions[i].title, s.versions[i].content), s', project, docKey, x);
    case Delete(p, id, cascade, now, limit) =>
      assert FallsIn(s.nodes, p, now, id, id, 0);
      forall y | IsDoc(s'.nodes, project, docKey, y) ensures y == x {
        assert IsDoc(s.nodes, project, docKey, y);
      }
  }

  lemma UpdatedRow(s: State, p: string, e: Edit, s': State, project: string, docKey: string, x: Id)
    requires IsDoc(s.nodes, project, docKey, x) && UpdateStep(s, p, x, e, s')
    requires UpdateCheck(s.nodes, p, x, e.parent).Ok?
    ensures x in s'.nodes && s'.nodes[x].version == s.nodes[x].version + 1
    ensures forall y :: IsDoc(s'.nodes, project, docKey, y) <==> IsDoc(s.nodes, project, docKey, y)
  {
    UpdatedText(s.nodes, x, e);
    forall y ensures IsDoc(s'.nodes, project, docKey, y) <==> IsDoc(s.nodes, project, docKey, y) {
      UpdateKeepsDoc(s, p, x, e, s', project, docKey, y);
    }
  }

  /** Another writer's call keeps the store right exactly when it leaves the document alone. */
  lemma OtherHoldsIff(s: State, c: Call, s': State, project: string, docKey: string, puts: seq<Document>)
    requires Step(s, c, s') && Holds(s.nodes, project, docKey, puts)
    ensures Holds(s'.nodes, project, docKey, puts) <==> Leaves(s, project, docKey, c)
  {
    if Leaves(s, project, docKey, c) {
      EventKeepsHolds(s, Other(c), s', project, docKey, puts);
    } else if |puts| > 0 {
      var x :| HoldsAt(s.nodes, project, docKey, x, puts[|puts| - 1], |puts|);
      DisturbedRow(s, c, s', project, docKey, x, puts[|puts| - 1], |puts|);
    } else {
      assert IsDoc(s'.nodes, project, docKey, c.id);
    }
  }

  /** Every lookup of the document finds this text and version. */
  ghost predicate AnswersOnly(nodes: Forest, project: string, docKey: string, d: Document, v: nat) {
    && (exists x :: IsDoc(nodes, project, docKey, x))
    && forall a :: Returns(nodes, project, docKey, a) ==> a == (d.title, Some(d.content), v)
  }

  /** The creation repeats what the document says: its text, and the version of a new row. */
  predicate Repeats(c: Call, d: Document, v: nat) {
    c.Create? && c.node.title == d.title && c.node.content == Some(d.content) && v == 1
  }

  /** Lookups go on answering with the last put exactly when the call leaves the document alone or
    * repeats what it says. */
  lemma AnswersKeptIff(s: State, c: Call, s': State, project: string, docKey: string, x: Id, d: Document, v: nat)
    requires HoldsAt(s.nodes, project, docKey, x, d, v) && Step(s, c, s')
    ensures AnswersOnly(s'.nodes, project, docKey, d, v) <==> Leaves(s, project, docKey, c) || Repeats(c, d, v)
  {
    if Leaves(s, project, docKey, c) {
      forall y ensures IsDoc(s'.nodes, project, docKey, y) ==> y == x {
        OtherKeepsDoc(s, c, s', project, docKey, y);
      }
      OtherKeepsDoc(s, c, s', project, docKey, x);
    } else {
      DisturbedRow(s, c, s', project, docKey, x, d, v);
      if c.Create? {
        assert Returns(s'.nodes, project, docKey, (c.node.title, c.node.content, 1));
      } else if IsDoc(s'.nodes, project, docKey, x) {
        assert Returns(s'.nodes, project, docKey, (s'.nodes[x].title, s'.nodes[x].content, v + 1));
      }
    }
  }

  // ----- whole runs -----

  /** No other writer disturbs the document in the first n events. */
  ghost predicate LeftAlone(project: string, docKey: string, events: seq<Event>, states: seq<State>, n: nat) {
    && n <= |events| == |states| - 1
    && forall i :: 0 <= i < n && events[i].Other? ==> Leaves(states[i], project, docKey, events[i].call)
  }

  lemma HoldsStep(project: string, docKey: string, events: seq<Event>, states: seq<State>, i: nat)
    requires EventRun(project, docKey, events, states) && i < |events|
    requires events[i].Other? ==> Leaves(states[i], project, docKey, events[i].call)
    requires Holds(states[i].nodes, project, docKey, Puts(events[..i]))
    ensures Holds(states[i + 1].nodes, project, docKey, Puts(events[..i + 1]))
  {
    PutsStep(events, i);
    EventKeepsHolds(states[i], events[i], states[i + 1], project, docKey, Puts(events[..i]));
  }

  /** As long as no other writer disturbs it, the document has one row, it holds the last put, and
    * its version is the number of puts; with no put there is no row. */
  lemma {:induction false} StoreHoldsLastPut(project: string, docKey: string, events: seq<Event>, states: seq<State>,
                                             n: nat)
    requires EventRun(project, docKey, events, states) && LeftAlone(project, docKey, events, states, n)
    ensures Holds(states[n].nodes, project, docKey, Puts(events[..n]))
  {
    if n == 0 {
      assert Puts(events[..0]) == [];
    } else {
      StoreHoldsLastPut(project, docKey, events, states, n - 1);
      HoldsStep(project, docKey, events, states, n - 1);
    }
  }

  /** Over every run of puts and any other calls this is so throughout if and only if each other
    * call fails or is not about a row of the document. */
  lemma RunHoldsIff(project: string, docKey: string, events: seq<Event>, states: seq<State>)
    requires EventRun(project, docKey, events, states)
    ensures (forall n :: 0 <= n <= |events| ==> Holds(states[n].nodes, project, docKey, Puts(events[..n]))) <==>
              LeftAlone(project, docKey, events, states, |events|)
  {
    if forall n :: 0 <= n <= |events| ==> Holds(states[n].nodes, project, docKey, Puts(events[..n])) {
      forall i | 0 <= i < |events| && events[i].Other?
        ensures Leaves(states[i], project, docKey, events[i].call)
      {
        assert EventStep(states[i], project, docKey, events[i], states[i + 1]);
        assert Holds(states[i + 1].nodes, project, docKey, Puts(events[..i + 1]));
        PutsStep(events, i);
        OtherHoldsIff(states[i], events[i].call, states[i + 1], project, docKey, Puts(events[..i]));
      }
    }
    if LeftAlone(project, docKey, events, states, |events|) {
      forall n | 0 <= n <= |events| ensures Holds(states[n].nodes, project, docKey, Puts(events[..n])) {
        StoreHoldsLastPut(project, docKey, events, states, n);
      }
    }
  }

  // ----- a writer of the program itself that uses the key -----

  /** The topic tree gives a topic node the `topic_id` of a source node without entities, such as a
    * document (core/memory_tree/builder.py). From then on two rows have the document's key, and the
    * document may be answered with the topic's text. */
  lemma TopicNodeMayAnswer(s: State, c: Call, s': State, project: string, docKey: string, x: Id, d: Document, v: nat)
    requires HoldsAt(s.nodes, project, docKey, x, d, v)
    requires c.Create? && c.node.project == project && c.node.topicId == s.nodes[x].topicId && c.node.parent == None
    requires Step(s, c, s')
    ensures c.id != x && IsDoc(s'.nodes, project, docKey, x) && IsDoc(s'.nodes, project, docKey, c.id)
    ensures Returns(s'.nodes, project, docKey, (c.node.title, c.node.content, 1))
  {
    assert IsDoc(s'.nodes, project, docKey, c.id);
  }
}
