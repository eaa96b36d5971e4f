/** The ingest layer: core/services/graphiti_orchestrator.py writes each extracted entity and
  * relation to the mirror tables, the AGE graph (core/adapters/age_adapter.py) and the vector
  * index (core/adapters/pgvector_adapter.py). This module says what one such write does to the
  * stores and what it keeps; the loops are in module Orchestrator. */
module Ingest {
  import opened Wrappers
  import opened Temporal
  import opened TemporalRuns

  datatype EntityAttrs = EntityAttrs(
    tenantId: string, name: string, entityType: string, summary: Option<string>,
    attributes: Option<string>, graphitiUuid: string, episodeId: string)

  datatype RelationAttrs = RelationAttrs(
    tenantId: string, relationType: string, fact: Option<string>, source: string, target: string,
    sourceName: Option<string>, targetName: Option<string>, confidence: Option<real>,
    graphitiUuid: string, episodeId: string)

  datatype Entity = Entity(name: string, entityType: string, summary: Option<string>, attributes: Option<string>,
    uuid: string)

  datatype Relation = Relation(
    sourceUuid: string, targetUuid: string, relationType: string, fact: Option<string>,
    sourceName: Option<string>, targetName: Option<string>, confidence: Option<real>, uuid: string,
      validAt: Option<int>)

  datatype Extraction = Extraction(entities: seq<Entity>, relations: seq<Relation>, extractor: string)

  /** The call's fixed arguments: project, episode and reference time. */
  datatype Context = Context(project: string, tenantId: string, episodeId: string, refTime: int, extractor: string)

  datatype AgeNode = AgeNode(name: string, entityType: string, validFrom: int)

  datatype AgeEdge = AgeEdge(fact: string, confidence: real, validFrom: int)

  datatype EdgeKey = EdgeKey(project: string, source: string, relationType: string, target: string)

  /** The two mirror tables and the side indexes. */
  datatype Stores = Stores(
    entities: seq<Row<EntityAttrs>>, relations: seq<Row<RelationAttrs>>,
    nodes: map<(string, string), AgeNode>, edges: map<EdgeKey, AgeEdge>, docs: map<string, string>)

  // ----- derived values -----

  /** The relation's logical key. */
  function RelKey(source: string, relationType: string, target: string): string {
    source + "|" + relationType + "|" + target
  }

  function SourceLabel(ctx: Context): string {
    "graphiti_extract:" + ctx.extractor
  }

  function EntityAttrsOf(ctx: Context, e: Entity): EntityAttrs {
    EntityAttrs(ctx.tenantId, e.name, e.entityType, e.summary, e.attributes, e.uuid, ctx.episodeId)
  }

  function RelationAttrsOf(ctx: Context, r: Relation, src: string, tgt: string): RelationAttrs {
    RelationAttrs(ctx.tenantId, r.relationType, r.fact, src, tgt, r.sourceName, r.targetName, r.confidence, r.uuid,
      ctx.episodeId)
  }

  function ValidFromOf(ctx: Context, r: Relation): int {
    r.validAt.GetOr(ctx.refTime)
  }

  function DocId(uuid: string): string {
    "entity:" + uuid
  }

  /** The indexed text; a missing or empty summary falls back to the name. */
  function DocText(name: string, summary: Option<string>): string {
    name + ". " + (if summary.Some? && summary.value != "" then summary.value else name)
  }

  function EdgeKeyOf(r: Row<RelationAttrs>): EdgeKey {
    EdgeKey(r.project, r.attrs.source, r.attrs.relationType, r.attrs.target)
  }

  function EdgeOf(fact: Option<string>, confidence: Option<real>, validFrom: int): AgeEdge {
    AgeEdge(fact.GetOr(""), confidence.GetOr(0.5), validFrom)
  }

  // ----- the steps -----

  predicate SameIdentity(r: Row<EntityAttrs>, project: string, name: string, entityType: string) {
    r.project == project && r.attrs.name == name && r.attrs.entityType == entityType
  }

  /** `_resolve_entity_kuzu_uuid`: the key of some row with that identity, else the fallback. */
  ghost predicate ResolvesTo(rows: seq<Row<EntityAttrs>>, project: string, name: string, entityType: string,
                             fallback: string, key: string)
  {
    || ((forall i :: 0 <= i < |rows| ==> !SameIdentity(rows[i], project, name, entityType)) && key == fallback)
    || exists i :: 0 <= i < |rows| && SameIdentity(rows[i], project, name, entityType)
                   && key == if rows[i].key == "" then fallback else rows[i].key
  }

  /** One round of the entity loop: mirror row, vector document, AGE node. */
  ghost predicate EntityWritten(s: Stores, ctx: Context, e: Entity, key: string, s': Stores) {
    && ResolvesTo(s.entities, ctx.project, e.name, e.entityType, e.uuid, key)
    && Superseded(s.entities, ctx.project, key, EntityAttrsOf(ctx, e), ctx.refTime, SourceLabel(ctx), s'.entities)
    && s'.relations == s.relations && s'.edges == s.edges
    && s'.docs == s.docs[DocId(key) := DocText(e.name, e.summary)]
    && s'.nodes == s.nodes[(ctx.project, key) := AgeNode(e.name, e.entityType, ctx.refTime)]
  }

  /** The edges after `upsert_relation`: MERGE needs both endpoints to MATCH, else nothing happens. */
  function WithEdge(s: Stores, k: EdgeKey, v: AgeEdge): map<EdgeKey, AgeEdge> {
    if (k.project, k.source) in s.nodes && (k.project, k.target) in s.nodes then s.edges[k := v] else s.edges
  }

  /** One round of the relation loop: mirror row, AGE edge. */
  ghost predicate RelationWritten(s: Stores, ctx: Context, r: Relation, src: string, tgt: string, s': Stores) {
    && Superseded(s.relations, ctx.project, RelKey(src, r.relationType, tgt), RelationAttrsOf(ctx, r, src, tgt),
                  ValidFromOf(ctx, r), SourceLabel(ctx), s'.relations)
    && s'.entities == s.entities && s'.nodes == s.nodes && s'.docs == s.docs
    && s'.edges == WithEdge(s, EdgeKey(ctx.project, src, r.relationType, tgt),
                            EdgeOf(r.fact, r.confidence, ValidFromOf(ctx, r)))
  }

  /** rows' is rows with the open row of (r.project, r.key) closed and r added, open. */
  ghost predicate Appended<A>(rows: seq<Row<A>>, rows': seq<Row<A>>, r: Row<A>) {
    && |rows'| == |rows| + 1 && rows'[|rows|] == r && Open(r)
    && (forall i :: 0 <= i < |rows| && !OpenFor(rows[i], r.project, r.key) ==> rows'[i] == rows[i])
    && forall i :: 0 <= i < |rows| && OpenFor(rows[i], r.project, r.key) ==> rows'[i] == Close(rows[i], r.validFrom)
  }

  lemma SupersedeAppends<A>(s: seq<Row<A>>, p: string, k: string, attrs: A, ts: int, source: string, s': seq<Row<A>>)
    requires WellFormed(s) && Superseded(s, p, k, attrs, ts, source, s')
    ensures WellFormed(s') && Appended(s, s', Row(p, k, attrs, ts, None, KeyCount(s, p, k) + 1, source))
  {
    SupersedeEffect(s, p, k, attrs, ts, source, s');
  }

  // ----- identity -----

  /** All rows of one (project, name, type) share one key, and no key serves two of them. */
  ghost predicate Identified(rows: seq<Row<EntityAttrs>>) {
    forall i, j :: 0 <= i < |rows| && 0 <= j < |rows| ==>
      (rows[i].key == rows[j].key <==>
        SameIdentity(rows[i], rows[j].project, rows[j].attrs.name, rows[j].attrs.entityType))
  }

  /** The freshness of uuid4: the fallback is non-empty and not the key of another identity. */
  predicate FreshFor(rows: seq<Row<EntityAttrs>>, project: string, e: Entity) {
    e.uuid != "" && forall i :: 0 <= i < |rows| && rows[i].key == e.uuid ==>
      SameIdentity(rows[i], project, e.name, e.entityType)
  }

  ghost predicate KeysNonEmpty(rows: seq<Row<EntityAttrs>>) {
    forall i :: 0 <= i < |rows| ==> rows[i].key != ""
  }

  /** Writing an entity keeps identities stable exactly when the key is fresh for it; when the
    * identity already has a row, no condition on the fallback is needed. */
  lemma EntityKeepsIdentityIff(s: Stores, ctx: Context, e: Entity, key: string, s': Stores)
    requires Identified(s.entities) && KeysNonEmpty(s.entities) && WellFormed(s.entities)
    requires EntityWritten(s, ctx, e, key, s')
    ensures Identified(s'.entities) <==>
              (exists i :: 0 <= i < |s.entities| && SameIdentity(s.entities[i], ctx.project, e.name, e.entityType)) ||
              (forall i :: 0 <= i < |s.entities| ==> s.entities[i].key != e.uuid)
  {
    var rows, rows' := s.entities, s'.entities;
    SupersedeAppends(rows, ctx.project, key, EntityAttrsOf(ctx, e), ctx.refTime, SourceLabel(ctx), rows');
    var r := rows'[|rows|];
    if exists i :: 0 <= i < |rows| && SameIdentity(rows[i], ctx.project, e.name, e.entityType) {
      KnownIdentity(rows, ctx.project, e, key);
      AppendedIdentified(rows, rows', r);
    } else if exists i :: 0 <= i < |rows| && rows[i].key == e.uuid {
      var i :| 0 <= i < |rows| && rows[i].key == e.uuid;
      assert rows'[i].key == r.key && !SameIdentity(rows'[i], r.project, r.attrs.name, r.attrs.entityType);
    } else {
      AppendedIdentified(rows, rows', r);
    }
  }

  /** An identity that has a row resolves to that row's key. */
  lemma KnownIdentity(rows: seq<Row<EntityAttrs>>, project: string, e: Entity, key: string)
    requires Identified(rows) && KeysNonEmpty(rows)
    requires ResolvesTo(rows, project, e.name, e.entityType, e.uuid, key)
    requires exists i :: 0 <= i < |rows| && SameIdentity(rows[i], project, e.name, e.entityType)
    ensures key != ""
    ensures forall i :: 0 <= i < |rows| ==>
              (rows[i].key == key <==> SameIdentity(rows[i], project, e.name, e.entityType))
  {
    var j :| 0 <= j < |rows| && SameIdentity(rows[j], project, e.name, e.entityType) && key == rows[j].key;
    forall i | 0 <= i < |rows|
      ensures rows[i].key == key <==> SameIdentity(rows[i], project, e.name, e.entityType)
    {
      assert rows[i].key == rows[j].key <==>
        SameIdentity(rows[i], rows[j].project, rows[j].attrs.name, rows[j].attrs.entityType);
    }
  }

  lemma AppendedIdentified(rows: seq<Row<EntityAttrs>>, rows': seq<Row<EntityAttrs>>, r: Row<EntityAttrs>)
    requires Identified(rows) && Appended(rows, rows', r) && OwnKey(rows, r)
    ensures Identified(rows')
  {
    forall i, j | 0 <= i < |rows'| && 0 <= j < |rows'|
      ensures rows'[i].key == rows'[j].key <==>
                SameIdentity(rows'[i], rows'[j].project, rows'[j].attrs.name, rows'[j].attrs.entityType)
    {
      assert i < |rows| ==> SameKey(rows'[i], rows[i]) && rows'[i].attrs == rows[i].attrs;
      assert j < |rows| ==> SameKey(rows'[j], rows[j]) && rows'[j].attrs == rows[j].attrs;
      if i < |rows| && j < |rows| {
        assert rows[i].key == rows[j].key <==>
          SameIdentity(rows[i], rows[j].project, rows[j].attrs.name, rows[j].attrs.entityType);
      }
    }
  }

  // ----- the side indexes agree with the mirror -----

  /** Each open entity row is what its AGE node says. */
  ghost predicate NodesAgree(s: Stores) {
    forall i :: 0 <= i < |s.entities| && Open(s.entities[i]) ==> NodeAgrees(s, s.entities[i])
  }

  predicate NodeAgrees(s: Stores, r: Row<EntityAttrs>) {
    && (r.project, r.key) in s.nodes
    && s.nodes[(r.project, r.key)] == AgeNode(r.attrs.name, r.attrs.entityType, r.validFrom)
  }

  ghost predicate DocsAgree(s: Stores) {
    forall i :: 0 <= i < |s.entities| && Open(s.entities[i]) ==> DocAgrees(s, s.entities[i])
  }

  predicate DocAgrees(s: Stores, r: Row<EntityAttrs>) {
    DocId(r.key) in s.docs && s.docs[DocId(r.key)] == DocText(r.attrs.name, r.attrs.summary)
  }

  ghost predicate EdgesAgree(s: Stores) {
    forall i :: 0 <= i < |s.relations| && Open(s.relations[i]) ==> EdgeAgrees(s, s.relations[i])
  }

  predicate EdgeAgrees(s: Stores, r: Row<RelationAttrs>) {
    EdgeKeyOf(r) in s.edges && s.edges[EdgeKeyOf(r)] == EdgeOf(r.attrs.fact, r.attrs.confidence, r.validFrom)
  }

  /** No index entry without an open mirror row behind it. */
  ghost predicate NodesBacked(s: Stores) {
    forall k :: k in s.nodes ==> HasOpen(s.entities, k.0, k.1)
  }

  ghost predicate DocsBacked(s: Stores) {
    forall id :: id in s.docs ==> Documents(s.entities, id)
  }

  /** Some open entity row has the document. */
  predicate Documents(rows: seq<Row<EntityAttrs>>, id: string) {
    exists i :: 0 <= i < |rows| && Open(rows[i]) && DocId(rows[i].key) == id
  }

  predicate HasOpen<A>(rows: seq<Row<A>>, p: string, k: string) {
    exists i :: 0 <= i < |rows| && OpenFor(rows[i], p, k)
  }

  ghost predicate EdgesBacked(s: Stores) {
    forall k :: k in s.edges ==> Backed(s.relations, k)
  }

  /** Edges only join nodes that exist. */
  ghost predicate EdgesJoinNodes(s: Stores) {
    forall k :: k in s.edges ==> (k.project, k.source) in s.nodes && (k.project, k.target) in s.nodes
  }

  ghost predicate RelationsKeyed(rows: seq<Row<RelationAttrs>>) {
    forall i :: 0 <= i < |rows| ==>
      rows[i].key == RelKey(rows[i].attrs.source, rows[i].attrs.relationType, rows[i].attrs.target)
  }

  /** The mirror tables are well-formed and identities stable, whatever the indexes hold. */
  ghost predicate Sound(s: Stores) {
    && WellFormed(s.entities) && WellFormed(s.relations)
    && Identified(s.entities) && KeysNonEmpty(s.entities) && RelationsKeyed(s.relations)
  }

  /** The open entity rows are what the indexes hold, with nothing left over. */
  ghost predicate Mirrored(s: Stores) {
    && Sound(s) && NodesAgree(s) && NodesBacked(s) && DocsAgree(s) && DocsBacked(s) && EdgesJoinNodes(s)
  }

  /** Each of these agreements holds in s' if it held in s. */
  ghost predicate KeepsAgreement(s: Stores, s': Stores) {
    && (NodesAgree(s) ==> NodesAgree(s')) && (NodesBacked(s) ==> NodesBacked(s'))
    && (DocsAgree(s) ==> DocsAgree(s')) && (DocsBacked(s) ==> DocsBacked(s'))
    && (EdgesJoinNodes(s) ==> EdgesJoinNodes(s'))
  }

  lemma AppendedHasOpen<A>(s: seq<Row<A>>, s': seq<Row<A>>, r: Row<A>, q: string, l: string)
    requires Appended(s, s', r)
    ensures HasOpen(s', q, l) <==> Mine(r, q, l) || HasOpen(s, q, l)
  {
    if Mine(r, q, l) {
      assert OpenFor(s'[|s|], q, l);
    } else {
      assert forall i :: 0 <= i < |s| ==> (OpenFor(s'[i], q, l) <==> OpenFor(s[i], q, l));
    }
  }

  lemma ResolvedIdentity(rows: seq<Row<EntityAttrs>>, project: string, e: Entity, key: string)
    requires Identified(rows) && KeysNonEmpty(rows) && FreshFor(rows, project, e)
    requires ResolvesTo(rows, project, e.name, e.entityType, e.uuid, key)
    ensures key != ""
    ensures forall i :: 0 <= i < |rows| ==>
              (rows[i].key == key <==> SameIdentity(rows[i], project, e.name, e.entityType))
  {
    if exists i :: 0 <= i < |rows| && SameIdentity(rows[i], project, e.name, e.entityType) {
      KnownIdentity(rows, project, e, key);
    }
  }

  /** The rows that have r's key are those of r's identity. */
  ghost predicate OwnKey(rows: seq<Row<EntityAttrs>>, r: Row<EntityAttrs>) {
    forall i :: 0 <= i < |rows| ==>
      (rows[i].key == r.key <==> SameIdentity(rows[i], r.project, r.attrs.name, r.attrs.entityType))
  }

  /** s' is s with the entity row r added and indexed. */
  ghost predicate EntityAdded(s: Stores, s': Stores, r: Row<EntityAttrs>) {
    && Appended(s.entities, s'.entities, r) && OwnKey(s.entities, r) && r.key != ""
    && s'.relations == s.relations && s'.edges == s.edges
    && s'.nodes == s.nodes[(r.project, r.key) := AgeNode(r.attrs.name, r.attrs.entityType, r.validFrom)]
    && s'.docs == s.docs[DocId(r.key) := DocText(r.attrs.name, r.attrs.summary)]
  }

  lemma WrittenIsAdded(s: Stores, ctx: Context, e: Entity, key: string, s': Stores) returns (r: Row<EntityAttrs>)
    requires WellFormed(s.entities) && Identified(s.entities) && KeysNonEmpty(s.entities)
    requires FreshFor(s.entities, ctx.project, e) && EntityWritten(s, ctx, e, key, s')
    ensures WellFormed(s'.entities) && EntityAdded(s, s', r)
    ensures r == Row(ctx.project, key, EntityAttrsOf(ctx, e), ctx.refTime, None,
                     KeyCount(s.entities, ctx.project, key) + 1, SourceLabel(ctx))
  {
    SupersedeAppends(s.entities, ctx.project, key, EntityAttrsOf(ctx, e), ctx.refTime, SourceLabel(ctx), s'.entities);
    ResolvedIdentity(s.entities, ctx.project, e, key);
    r := s'.entities[|s.entities|];
  }

  lemma KeysKept(s: Stores, s': Stores, r: Row<EntityAttrs>)
    requires KeysNonEmpty(s.entities) && EntityAdded(s, s', r)
    ensures KeysNonEmpty(s'.entities)
  {
  }

  lemma NodesAgreeKept(s: Stores, s': Stores, r: Row<EntityAttrs>)
    requires NodesAgree(s) && EntityAdded(s, s', r)
    ensures NodesAgree(s')
  {
    forall i | 0 <= i < |s'.entities| && Open(s'.entities[i])
      ensures NodeAgrees(s', s'.entities[i])
    {
      if i < |s.entities| { assert NodeAgrees(s, s.entities[i]); }
    }
  }

  lemma NodesBackedKept(s: Stores, s': Stores, r: Row<EntityAttrs>)
    requires NodesBacked(s) && EntityAdded(s, s', r)
    ensures NodesBacked(s')
  {
    forall k | k in s'.nodes ensures HasOpen(s'.entities, k.0, k.1) {
      AppendedHasOpen(s.entities, s'.entities, r, k.0, k.1);
    }
  }

  lemma DocsKept(s: Stores, s': Stores, r: Row<EntityAttrs>)
    requires DocsAgree(s) && EntityAdded(s, s', r)
    ensures DocsAgree(s')
  {
    forall i | 0 <= i < |s'.entities| && Open(s'.entities[i])
      ensures DocAgrees(s', s'.entities[i])
    {
      if i < |s.entities| {
        assert DocAgrees(s, s.entities[i]);
        DocIdInjective(s.entities[i].key, r.key);
      }
    }
  }

  lemma DocsBackedKept(s: Stores, s': Stores, r: Row<EntityAttrs>)
    requires DocsBacked(s) && EntityAdded(s, s', r)
    ensures DocsBacked(s')
  {
    forall id | id in s'.docs ensures Documents(s'.entities, id) {
      if id == DocId(r.key) {
        assert s'.entities[|s.entities|] == r;
      } else {
        assert Documents(s.entities, id);
        var i :| 0 <= i < |s.entities| && Open(s.entities[i]) && DocId(s.entities[i].key) == id;
        assert s'.entities[i] == s.entities[i];
      }
    }
  }

  lemma EdgesJoinKept(s: Stores, s': Stores, r: Row<EntityAttrs>)
    requires EdgesJoinNodes(s) && EntityAdded(s, s', r)
    ensures EdgesJoinNodes(s')
  {
  }

  lemma EdgesAgreeSame(s: Stores, s': Stores)
    requires EdgesAgree(s) && s'.edges == s.edges && s'.relations == s.relations
    ensures EdgesAgree(s')
  {
    forall i | 0 <= i < |s'.relations| && Open(s'.relations[i]) ensures EdgeAgrees(s', s'.relations[i]) {
      assert EdgeAgrees(s, s.relations[i]);
    }
  }

  /** An entity write keeps the mirror sound and every agreement there is, whatever its time. */
  lemma EntityKeepsMirrored(s: Stores, ctx: Context, e: Entity, key: string, s': Stores)
    requires Sound(s) && FreshFor(s.entities, ctx.project, e) && EntityWritten(s, ctx, e, key, s')
    ensures Sound(s') && KeepsAgreement(s, s')
    ensures EdgesAgree(s) ==> EdgesAgree(s')
    ensures EdgesBacked(s) ==> EdgesBacked(s')
  {
    var r := WrittenIsAdded(s, ctx, e, key, s');
    AppendedIdentified(s.entities, s'.entities, r);
    KeysKept(s, s', r);
    if NodesAgree(s) { NodesAgreeKept(s, s', r); }
    if NodesBacked(s) { NodesBackedKept(s, s', r); }
    if DocsAgree(s) { DocsKept(s, s', r); }
    if DocsBacked(s) { DocsBackedKept(s, s', r); }
    if EdgesJoinNodes(s) { EdgesJoinKept(s, s', r); }
    if EdgesAgree(s) { EdgesAgreeSame(s, s'); }
    if EdgesBacked(s) { EdgesBackedSame(s, s'); }
  }

  lemma EdgesBackedSame(s: Stores, s': Stores)
    requires EdgesBacked(s) && s'.edges == s.edges && s'.relations == s.relations
    ensures EdgesBacked(s')
  {
  }

  lemma DocIdInjective(a: string, b: string)
    ensures DocId(a) == DocId(b) ==> a == b
  {
    assert DocId(a)[7..] == a && DocId(b)[7..] == b;
  }

  /** A relation write keeps the mirror sound and agreements about entities. It keeps mirror and
    * graph edges in agreement exactly when both endpoints are nodes of the graph. */
  lemma RelationKeepsMirrored(s: Stores, ctx: Context, r: Relation, src: string, tgt: string, s': Stores)
    requires Sound(s) && EdgesJoinNodes(s) && EdgesAgree(s) && RelationWritten(s, ctx, r, src, tgt, s')
    ensures Sound(s') && KeepsAgreement(s, s')
    ensures EdgesAgree(s') <==> (ctx.project, src) in s.nodes && (ctx.project, tgt) in s.nodes
  {
    RelationKeepsSound(s, ctx, r, src, tgt, s');
    if (ctx.project, src) in s.nodes && (ctx.project, tgt) in s.nodes {
      JoiningKeepsEdges(s, ctx, r, src, tgt, s');
    } else {
      var row := RelationIsAdded(s, ctx, r, src, tgt, s');
      assert !EdgeAgrees(s', row);
    }
  }

  lemma JoiningKeepsEdges(s: Stores, ctx: Context, r: Relation, src: string, tgt: string, s': Stores)
    requires Sound(s) && EdgesAgree(s) && RelationWritten(s, ctx, r, src, tgt, s')
    requires (ctx.project, src) in s.nodes && (ctx.project, tgt) in s.nodes
    ensures EdgesAgree(s')
  {
    RelationKeepsSound(s, ctx, r, src, tgt, s');
    var row := RelationIsAdded(s, ctx, r, src, tgt, s');
    EdgesKept(s, s', row);
  }

  lemma EdgesKept(s: Stores, s': Stores, r: Row<RelationAttrs>)
    requires EdgesAgree(s) && Appended(s.relations, s'.relations, r) && RelationsKeyed(s'.relations)
    requires s'.edges == s.edges[EdgeKeyOf(r) := EdgeOf(r.attrs.fact, r.attrs.confidence, r.validFrom)]
    ensures EdgesAgree(s')
  {
    forall i | 0 <= i < |s'.relations| && Open(s'.relations[i])
      ensures EdgeAgrees(s', s'.relations[i])
    {
      if i < |s.relations| {
        assert s'.relations[i] == s.relations[i] && EdgeAgrees(s, s.relations[i]);
        assert s.relations[i].project != r.project || s.relations[i].key != r.key;
        assert r == s'.relations[|s.relations|];
      }
    }
  }

  /** All but the edges is kept even where an endpoint is not in the graph. */
  lemma RelationKeepsSound(s: Stores, ctx: Context, r: Relation, src: string, tgt: string, s': Stores)
    requires Sound(s) && RelationWritten(s, ctx, r, src, tgt, s')
    ensures Sound(s') && KeepsAgreement(s, s')
  {
    SupersedeAppends(s.relations, ctx.project, RelKey(src, r.relationType, tgt), RelationAttrsOf(ctx, r, src, tgt),
                     ValidFromOf(ctx, r), SourceLabel(ctx), s'.relations);
  }

  // ----- the relation key -----

  /** Over the endpoints in ends the key determines source, type and target. */
  ghost predicate KeyInjective(ends: iset<string>) {
    forall a, t, b, a', t', b' ::
      a in ends && b in ends && a' in ends && b' in ends && RelKey(a, t, b) == RelKey(a', t', b') ==>
        a == a' && t == t' && b == b'
  }

  /** No endpoint continues another one past a separator, on the right or on the left. */
  ghost predicate KeySafe(ends: iset<string>) {
    forall a, a' :: a in ends && a' in ends ==> !(a + "|" <= a') && !EndsWith(a', "|" + a)
  }

  predicate EndsWith(s: string, tail: string) {
    |tail| <= |s| && s[|s| - |tail|..] == tail
  }

  /** The exact condition on the endpoints; types may be any strings. */
  lemma RelKeyInjectiveIff(ends: iset<string>)
    ensures KeyInjective(ends) <==> KeySafe(ends)
  {
    if KeySafe(ends) {
      forall a, t, b, a', t', b' | a in ends && b in ends && a' in ends && b' in ends
          && RelKey(a, t, b) == RelKey(a', t', b')
        ensures a == a' && t == t' && b == b'
      {
        SafeKey(ends, a, t, b, a', t', b');
      }
    } else {
      var a, a' :| a in ends && a' in ends && (a + "|" <= a' || EndsWith(a', "|" + a));
      ClashingTriples(ends, a, a');
    }
  }

  lemma SafeKey(ends: iset<string>, a: string, t: string, b: string, a': string, t': string, b': string)
    requires KeySafe(ends) && a in ends && b in ends && a' in ends && b' in ends
    requires RelKey(a, t, b) == RelKey(a', t', b')
    ensures a == a' && t == t' && b == b'
  {
    assert RelKey(a, t, b) == a + "|" + (t + "|" + b) && RelKey(a', t', b') == a' + "|" + (t' + "|" + b');
    SameHead(a, t + "|" + b, a', t' + "|" + b');
    SameTail(a + "|" + t, b, a' + "|" + t', b');
    assert (a + "|" + t)[|a| + 1..] == t && (a' + "|" + t')[|a'| + 1..] == t';
  }

  /** Of two equal strings cut at a separator, one head continues the other past one, or they agree. */
  lemma SameHead(a: string, x: string, a': string, x': string)
    requires a + "|" + x == a' + "|" + x'
    ensures a == a' || a + "|" <= a' || a' + "|" <= a
  {
    var k := a + "|" + x;
    assert k[..|a|] == a && k[..|a'|] == a';
    assert k[..|a| + 1] == a + "|" && k[..|a'| + 1] == a' + "|";
    if |a| < |a'| { assert a'[..|a| + 1] == k[..|a| + 1]; }
    if |a'| < |a| { assert a[..|a'| + 1] == k[..|a'| + 1]; }
  }

  lemma SameTail(x: string, b: string, x': string, b': string)
    requires x + "|" + b == x' + "|" + b'
    ensures (b == b' && x == x') || EndsWith(b', "|" + b) || EndsWith(b, "|" + b')
  {
    var k := x + "|" + b;
    var n := |k|;
    assert k[n - |b|..] == b && k[n - |b'|..] == b';
    assert k[n - |b| - 1..] == "|" + b && k[n - |b'| - 1..] == "|" + b';
    if |b| < |b'| { assert b'[|b'| - |b| - 1..] == k[n - |b| - 1..]; }
    if |b'| < |b| { assert b[|b| - |b'| - 1..] == k[n - |b'| - 1..]; }
    if |b| == |b'| { assert k[..|x|] == x && k[..|x'|] == x'; }
  }

  /** Where one endpoint continues another, part of it can be read as part of the type. */
  lemma ClashingTriples(ends: iset<string>, a: string, a': string)
    requires a in ends && a' in ends && (a + "|" <= a' || EndsWith(a', "|" + a))
    ensures !KeyInjective(ends)
  {
    if a + "|" <= a' {
      var w := a'[|a| + 1..];
      assert a' == a + "|" + w;
      assert RelKey(a', "", a) == RelKey(a, w + "|" + "", a);
    } else {
      var w := a'[..|a'| - |a| - 1];
      assert a' == w + "|" + a;
      assert RelKey(a, "", a') == RelKey(a, "" + "|" + w, a);
    }
  }

  /** In particular endpoints without a separator, such as uuids, are safe. */
  lemma PlainEndpointsSafe(ends: iset<string>)
    requires forall a :: a in ends ==> '|' !in a
    ensures KeySafe(ends)
  {
    forall a, a' | a in ends && a' in ends ensures !(a + "|" <= a') && !EndsWith(a', "|" + a) {
      ContinuedHasBar(a, a');
    }
  }

  lemma ContinuedHasBar(a: string, a': string)
    ensures a + "|" <= a' || EndsWith(a', "|" + a) ==> '|' in a'
  {
    assert (a + "|")[|a|] == '|' && ("|" + a)[0] == '|';
    if a + "|" <= a' {
      assert a'[|a|] == '|';
    } else if EndsWith(a', "|" + a) {
      assert a'[|a'| - |a| - 1] == '|';
    }
  }

  /** Two triples with one key; a separator alone does no harm. */
  lemma RelKeyCollision()
    ensures RelKey("x|y", "T", "z") == RelKey("x", "y|T", "z")
    ensures !KeySafe(iset{"x|y", "x", "z"}) && KeySafe(iset{"x|y"})
  {
    assert RelKey("x|y", "T", "z") == "x|y|T|z" == RelKey("x", "y|T", "z");
    assert "x" + "|" <= "x|y";
    assert !("x|y" + "|" <= "x|y") && !EndsWith("x|y", "|" + "x|y");
  }

  /** No open row has the key of this triple for another triple. */
  ghost predicate NoClash(rows: seq<Row<RelationAttrs>>, p: string, src: string, relationType: string, tgt: string) {
    forall i :: 0 <= i < |rows| && OpenFor(rows[i], p, RelKey(src, relationType, tgt)) ==>
      EdgeKeyOf(rows[i]) == EdgeKey(p, src, relationType, tgt)
  }

  /** A relation write leaves no edge without an open mirror row if and only if its key does not
    * clash with another open triple, whose row it would close. */
  lemma RelationKeepsBackedIff(s: Stores, ctx: Context, r: Relation, src: string, tgt: string, s': Stores)
    requires Sound(s) && EdgesAgree(s) && EdgesBacked(s) && RelationWritten(s, ctx, r, src, tgt, s')
    ensures EdgesBacked(s') <==> NoClash(s.relations, ctx.project, src, r.relationType, tgt)
  {
    var added := RelationIsAdded(s, ctx, r, src, tgt, s');
    var k := EdgeKey(ctx.project, src, r.relationType, tgt);
    if NoClash(s.relations, ctx.project, src, r.relationType, tgt) {
      AllStillBacked(s, s', added);
    } else {
      var i :| 0 <= i < |s.relations| && OpenFor(s.relations[i], ctx.project, added.key)
        && EdgeKeyOf(s.relations[i]) != k;
      OpenHasEdge(s, i);
      LeftBehind(s.relations, s'.relations, added, i);
    }
  }

  lemma OpenHasEdge(s: Stores, i: nat)
    requires EdgesAgree(s) && i < |s.relations| && Open(s.relations[i])
    ensures EdgeKeyOf(s.relations[i]) in s.edges
  {
    assert EdgeAgrees(s, s.relations[i]);
  }

  lemma AllStillBacked(s: Stores, s': Stores, r: Row<RelationAttrs>)
    requires EdgesBacked(s) && Appended(s.relations, s'.relations, r)
    requires forall k :: k in s'.edges ==> k in s.edges || k == EdgeKeyOf(r)
    requires forall i :: 0 <= i < |s.relations| && OpenFor(s.relations[i], r.project, r.key) ==>
               EdgeKeyOf(s.relations[i]) == EdgeKeyOf(r)
    ensures EdgesBacked(s')
  {
    forall k | k in s'.edges ensures Backed(s'.relations, k) {
      StillBacked(s.relations, s'.relations, r, k);
    }
  }

  predicate Backed(rows: seq<Row<RelationAttrs>>, k: EdgeKey) {
    exists i :: 0 <= i < |rows| && Open(rows[i]) && EdgeKeyOf(rows[i]) == k
  }

  lemma RelationIsAdded(s: Stores, ctx: Context, r: Relation, src: string, tgt: string, s': Stores)
    returns (row: Row<RelationAttrs>)
    requires WellFormed(s.relations) && RelationWritten(s, ctx, r, src, tgt, s')
    ensures WellFormed(s'.relations) && Appended(s.relations, s'.relations, row)
    ensures var key := RelKey(src, r.relationType, tgt);
            row == Row(ctx.project, key, RelationAttrsOf(ctx, r, src, tgt), ValidFromOf(ctx, r), None,
                       KeyCount(s.relations, ctx.project, key) + 1, SourceLabel(ctx))
  {
    SupersedeAppends(s.relations, ctx.project, RelKey(src, r.relationType, tgt), RelationAttrsOf(ctx, r, src, tgt),
                     ValidFromOf(ctx, r), SourceLabel(ctx), s'.relations);
    row := s'.relations[|s.relations|];
  }

  lemma StillBacked(rows: seq<Row<RelationAttrs>>, rows': seq<Row<RelationAttrs>>, r: Row<RelationAttrs>, k: EdgeKey)
    requires Appended(rows, rows', r) && (k == EdgeKeyOf(r) || Backed(rows, k))
    requires forall i :: 0 <= i < |rows| && OpenFor(rows[i], r.project, r.key) ==> EdgeKeyOf(rows[i]) == EdgeKeyOf(r)
    ensures Backed(rows', k)
  {
    if k == EdgeKeyOf(r) {
      assert rows'[|rows|] == r;
    } else {
      var i :| 0 <= i < |rows| && Open(rows[i]) && EdgeKeyOf(rows[i]) == k;
      assert rows'[i] == rows[i];
    }
  }

  lemma LeftBehind(rows: seq<Row<RelationAttrs>>, rows': seq<Row<RelationAttrs>>, r: Row<RelationAttrs>, i: nat)
    requires RelationsKeyed(rows) && Appended(rows, rows', r) && i < |rows|
    requires OpenFor(rows[i], r.project, r.key) && EdgeKeyOf(rows[i]) != EdgeKeyOf(r)
    ensures !Backed(rows', EdgeKeyOf(rows[i]))
  {
    forall j | 0 <= j < |rows'| && Open(rows'[j]) ensures EdgeKeyOf(rows'[j]) != EdgeKeyOf(rows[i]) {
      if j < |rows| {
        assert !OpenFor(rows[j], r.project, r.key);
      }
    }
  }

  ghost predicate EndpointsIn(rows: seq<Row<RelationAttrs>>, ends: iset<string>) {
    forall i :: 0 <= i < |rows| ==> rows[i].attrs.source in ends && rows[i].attrs.target in ends
  }

  lemma SafeNoClash(rows: seq<Row<RelationAttrs>>, ends: iset<string>, p: string, src: string, relationType: string,
                    tgt: string)
    requires KeySafe(ends) && EndpointsIn(rows, ends) && RelationsKeyed(rows) && src in ends && tgt in ends
    ensures NoClash(rows, p, src, relationType, tgt)
  {
    forall i | 0 <= i < |rows| && OpenFor(rows[i], p, RelKey(src, relationType, tgt))
      ensures EdgeKeyOf(rows[i]) == EdgeKey(p, src, relationType, tgt)
    {
      SafeKey(ends, rows[i].attrs.source, rows[i].attrs.relationType, rows[i].attrs.target, src, relationType, tgt);
    }
  }

  /** The keys of all entity rows. */
  ghost function EntityKeys(rows: seq<Row<EntityAttrs>>): iset<string> {
    iset i | 0 <= i < |rows| :: rows[i].key
  }

  lemma KeysGrow(rows: seq<Row<EntityAttrs>>, rows': seq<Row<EntityAttrs>>)
    requires Extends(rows, rows')
    ensures EntityKeys(rows) <= EntityKeys(rows')
    ensures KeySafe(EntityKeys(rows')) ==> KeySafe(EntityKeys(rows))
  {
    forall k | k in EntityKeys(rows) ensures k in EntityKeys(rows') {
      var i :| 0 <= i < |rows| && rows[i].key == k;
      assert rows'[i].key == k;
    }
  }

  lemma EndpointsStayIn(rows: seq<Row<RelationAttrs>>, ends: iset<string>, ends': iset<string>)
    requires EndpointsIn(rows, ends) && ends <= ends'
    ensures EndpointsIn(rows, ends')
  {
  }

  ghost predicate NodesKeyed(s: Stores) {
    forall k :: k in s.nodes ==> k.1 in EntityKeys(s.entities)
  }

  /** Nodes and endpoints are entity keys, and where those make safe keys every edge has an open row. */
  ghost predicate NoEdgeLeft(s: Stores) {
    && EdgesAgree(s) && NodesKeyed(s) && EndpointsIn(s.relations, EntityKeys(s.entities))
    && (KeySafe(EntityKeys(s.entities)) ==> EdgesBacked(s))
  }

  lemma EntityKeepsNoEdgeLeft(s: Stores, ctx: Context, e: Entity, key: string, s': Stores)
    requires Sound(s) && FreshFor(s.entities, ctx.project, e) && EntityWritten(s, ctx, e, key, s') && NoEdgeLeft(s)
    ensures NoEdgeLeft(s')
  {
    var r := WrittenIsAdded(s, ctx, e, key, s');
    EdgesAgreeSame(s, s');
    KeysGrow(s.entities, s'.entities);
    NodesStayKeyed(s, s', r);
    EndpointsStayIn(s.relations, EntityKeys(s.entities), EntityKeys(s'.entities));
    if EdgesBacked(s) { EdgesBackedSame(s, s'); }
  }

  lemma NodesStayKeyed(s: Stores, s': Stores, r: Row<EntityAttrs>)
    requires NodesKeyed(s) && EntityAdded(s, s', r) && EntityKeys(s.entities) <= EntityKeys(s'.entities)
    ensures NodesKeyed(s')
  {
    assert s'.entities[|s.entities|] == r;
    forall k | k in s'.nodes ensures k.1 in EntityKeys(s'.entities) {
      if k != (r.project, r.key) { assert k in s.nodes; }
    }
  }

  lemma RelationKeepsNoEdgeLeft(s: Stores, ctx: Context, r: Relation, src: string, tgt: string, s': Stores)
    requires Sound(s) && RelationWritten(s, ctx, r, src, tgt, s') && NoEdgeLeft(s)
    requires (ctx.project, src) in s.nodes && (ctx.project, tgt) in s.nodes
    ensures NoEdgeLeft(s')
  {
    var ends := EntityKeys(s.entities);
    JoiningKeepsEdges(s, ctx, r, src, tgt, s');
    EndpointsKept(s, ctx, r, src, tgt, s', ends);
    if KeySafe(ends) {
      SafeNoClash(s.relations, ends, ctx.project, src, r.relationType, tgt);
      RelationKeepsBackedIff(s, ctx, r, src, tgt, s');
    }
  }

  // ----- deleting an entity -----

  /** `DELETE /entities/{kuzu_uuid}` (api/routers/graph.py): the open rows of the key are closed and
    * neither index is touched. Where none is open it raises, and nothing changes either. */
  function Expired(s: Stores, project: string, key: string, at: int): Stores {
    s.(entities := CloseAllBut(s.entities, project, key, None, at))
  }

  /** A delete disturbs neither the mirror's soundness nor what the graph says of open rows. */
  lemma ExpiryKeepsSound(s: Stores, project: string, key: string, at: int)
    requires Sound(s)
    ensures var s' := Expired(s, project, key, at);
            && Sound(s') && Extends(s.entities, s'.entities)
            && (NodesAgree(s) ==> NodesAgree(s')) && (DocsAgree(s) ==> DocsAgree(s'))
            && (EdgesJoinNodes(s) ==> EdgesJoinNodes(s')) && (EdgesAgree(s) ==> EdgesAgree(s'))
            && (EdgesBacked(s) ==> EdgesBacked(s')) && (NoEdgeLeft(s) ==> NoEdgeLeft(s'))
  {
    var s' := Expired(s, project, key, at);
    ClosingKeepsWellFormed(s.entities, s'.entities);
    ClosingKeepsIdentified(s.entities, s'.entities);
    if NodesAgree(s) { ClosingKeepsNodes(s, s'); }
    if DocsAgree(s) { ClosingKeepsDocs(s, s'); }
    if EdgesAgree(s) { EdgesAgreeSame(s, s'); }
    if EdgesBacked(s) { EdgesBackedSame(s, s'); }
    if NoEdgeLeft(s) {
      KeysGrow(s.entities, s'.entities);
      EndpointsStayIn(s.relations, EntityKeys(s.entities), EntityKeys(s'.entities));
    }
  }

  /** Rows are only closed. */
  ghost predicate OnlyCloses<A>(rows: seq<Row<A>>, rows': seq<Row<A>>) {
    && |rows| == |rows'| && Extends(rows, rows')
    && forall i :: 0 <= i < |rows| && Open(rows'[i]) ==> rows'[i] == rows[i]
  }

  lemma ClosingKeepsIdentified(rows: seq<Row<EntityAttrs>>, rows': seq<Row<EntityAttrs>>)
    requires Identified(rows) && KeysNonEmpty(rows) && |rows| == |rows'| && Extends(rows, rows')
    ensures Identified(rows') && KeysNonEmpty(rows')
  {
    forall i, j | 0 <= i < |rows'| && 0 <= j < |rows'|
      ensures rows'[i].key == rows'[j].key <==>
                SameIdentity(rows'[i], rows'[j].project, rows'[j].attrs.name, rows'[j].attrs.entityType)
    {
      assert rows[i].key == rows[j].key <==>
        SameIdentity(rows[i], rows[j].project, rows[j].attrs.name, rows[j].attrs.entityType);
    }
  }

  lemma ClosingKeepsNodes(s: Stores, s': Stores)
    requires NodesAgree(s) && OnlyCloses(s.entities, s'.entities) && s'.nodes == s.nodes
    ensures NodesAgree(s')
  {
    forall i | 0 <= i < |s'.entities| && Open(s'.entities[i]) ensures NodeAgrees(s', s'.entities[i]) {
      assert NodeAgrees(s, s.entities[i]);
    }
  }

  lemma ClosingKeepsDocs(s: Stores, s': Stores)
    requires DocsAgree(s) && OnlyCloses(s.entities, s'.entities) && s'.docs == s.docs
    ensures DocsAgree(s')
  {
    forall i | 0 <= i < |s'.entities| && Open(s'.entities[i]) ensures DocAgrees(s', s'.entities[i]) {
      assert DocAgrees(s, s.entities[i]);
    }
  }

  /** But it leaves the entity's node and document behind, exactly when there was anything to delete. */
  lemma ExpiryKeepsBackedIff(s: Stores, project: string, key: string, at: int)
    requires Mirrored(s)
    ensures NodesBacked(Expired(s, project, key, at)) <==> !HasOpen(s.entities, project, key)
    ensures DocsBacked(Expired(s, project, key, at)) <==> !HasOpen(s.entities, project, key)
  {
    if HasOpen(s.entities, project, key) {
      var i :| 0 <= i < |s.entities| && OpenFor(s.entities[i], project, key);
      NodeLeft(s, project, key, at, i);
      DocumentLeft(s, project, key, at, i);
    } else {
      assert Expired(s, project, key, at).entities == s.entities;
    }
  }

  lemma NodeLeft(s: Stores, project: string, key: string, at: int, i: nat)
    requires NodesAgree(s) && i < |s.entities| && OpenFor(s.entities[i], project, key)
    ensures !NodesBacked(Expired(s, project, key, at))
  {
    assert NodeAgrees(s, s.entities[i]);
    assert !HasOpen(Expired(s, project, key, at).entities, project, key);
  }

  lemma DocumentLeft(s: Stores, project: string, key: string, at: int, i: nat)
    requires Identified(s.entities) && DocsAgree(s) && i < |s.entities| && OpenFor(s.entities[i], project, key)
    ensures !DocsBacked(Expired(s, project, key, at))
  {
    assert DocAgrees(s, s.entities[i]);
    DocumentGone(s.entities, project, key, at, i);
  }

  lemma DocumentGone(rows: seq<Row<EntityAttrs>>, project: string, key: string, at: int, i: nat)
    requires Identified(rows) && i < |rows| && OpenFor(rows[i], project, key)
    ensures !Documents(CloseAllBut(rows, project, key, None, at), DocId(key))
  {
    var rows' := CloseAllBut(rows, project, key, None, at);
    forall j | 0 <= j < |rows'| && Open(rows'[j]) ensures DocId(rows'[j].key) != DocId(key) {
      DocIdInjective(rows[j].key, key);
      assert rows[j].key == rows[i].key ==> rows[j].project == rows[i].project;
    }
  }

  // ----- every ingest run -----

  function NoStores(): Stores {
    Stores([], [], map[], map[], map[])
  }

  datatype IngestStep =
    | WriteEntity(ctx: Context, entity: Entity, key: string)
    | WriteRelation(ctx: Context, relation: Relation, source: string, target: string)
    | DeleteEntity(project: string, key: string, at: int)

  /** A write as ingest makes it: fresh uuids, endpoints already in the graph. Nothing is asked
    * of the times, nor of the deletes in between. */
  ghost predicate IngestNext(s: Stores, w: IngestStep, s': Stores, ends: iset<string>) {
    match w
    case WriteEntity(ctx, e, key) => FreshFor(s.entities, ctx.project, e) && EntityWritten(s, ctx, e, key, s')
    case WriteRelation(ctx, r, src, tgt) =>
      && RelationWritten(s, ctx, r, src, tgt, s') && src in ends && tgt in ends
      && (ctx.project, src) in s.nodes && (ctx.project, tgt) in s.nodes
    case DeleteEntity(p, k, at) => s' == Expired(s, p, k, at)
  }

  ghost predicate IngestRun(writes: seq<IngestStep>, states: seq<Stores>, ends: iset<string>) {
    && |states| == |writes| + 1 && states[0] == NoStores()
    && forall i :: 0 <= i < |writes| ==> IngestNext(states[i], writes[i], states[i + 1], ends)
  }

  /** What open rows say, the indexes say; and the endpoints are as expected. */
  ghost predicate Agreeing(s: Stores, ends: iset<string>) {
    && Sound(s) && NodesAgree(s) && DocsAgree(s) && EdgesJoinNodes(s) && EdgesAgree(s)
    && EndpointsIn(s.relations, ends)
  }

  /** Over every run of writes and deletes, whatever the time order: identities are stable; each
    * open mirror row equals its graph node or edge and its document; no edge is left over where
    * the endpoints make safe keys. */
  lemma {:induction false} IngestRunAgrees(writes: seq<IngestStep>, states: seq<Stores>, n: nat, ends: iset<string>)
    requires IngestRun(writes, states, ends) && n <= |writes|
    ensures Agreeing(states[n], ends)
    ensures KeySafe(ends) ==> EdgesBacked(states[n])
  {
    if n == 0 {
      NothingAgreeing(ends);
    } else {
      IngestRunAgrees(writes, states, n - 1, ends);
      assert IngestNext(states[n - 1], writes[n - 1], states[n], ends);
      IngestStepAgrees(states[n - 1], writes[n - 1], states[n], ends);
    }
  }

  lemma NothingAgreeing(ends: iset<string>)
    ensures Agreeing(NoStores(), ends) && EdgesBacked(NoStores())
  {
  }

  lemma IngestStepAgrees(s: Stores, w: IngestStep, s': Stores, ends: iset<string>)
    requires Agreeing(s, ends) && IngestNext(s, w, s', ends)
    ensures Agreeing(s', ends)
    ensures KeySafe(ends) && EdgesBacked(s) ==> EdgesBacked(s')
  {
    match w
    case WriteEntity(ctx, e, key) =>
      EntityKeepsMirrored(s, ctx, e, key, s');
    case WriteRelation(ctx, r, src, tgt) =>
      RelationKeepsMirrored(s, ctx, r, src, tgt, s');
      EndpointsKept(s, ctx, r, src, tgt, s', ends);
      if KeySafe(ends) && EdgesBacked(s) {
        SafeNoClash(s.relations, ends, ctx.project, src, r.relationType, tgt);
        RelationKeepsBackedIff(s, ctx, r, src, tgt, s');
      }
    case DeleteEntity(p, k, at) =>
      ExpiryKeepsSound(s, p, k, at);
  }

  /** The step deletes an entity that has an open row. */
  predicate Deletes(s: Stores, w: IngestStep) {
    w.DeleteEntity? && HasOpen(s.entities, w.project, w.key)
  }

  lemma StepMirroredIff(s: Stores, w: IngestStep, s': Stores, ends: iset<string>)
    requires Mirrored(s) && IngestNext(s, w, s', ends)
    ensures Mirrored(s') <==> !Deletes(s, w)
  {
    match w
    case WriteEntity(ctx, e, key) =>
      EntityKeepsMirrored(s, ctx, e, key, s');
    case WriteRelation(ctx, r, src, tgt) =>
      RelationKeepsSound(s, ctx, r, src, tgt, s');
    case DeleteEntity(p, k, at) =>
      ExpiryKeepsSound(s, p, k, at);
      ExpiryKeepsBackedIff(s, p, k, at);
  }

  /** The indexes hold nothing but the open entity rows throughout a run if and only if the run
    * deletes no entity that has an open row. */
  lemma RunMirroredIff(writes: seq<IngestStep>, states: seq<Stores>, ends: iset<string>)
    requires IngestRun(writes, states, ends)
    ensures (forall n :: 0 <= n <= |writes| ==> Mirrored(states[n])) <==>
              forall i :: 0 <= i < |writes| ==> !Deletes(states[i], writes[i])
  {
    if forall n :: 0 <= n <= |writes| ==> Mirrored(states[n]) {
      forall i | 0 <= i < |writes| ensures !Deletes(states[i], writes[i]) {
        assert Mirrored(states[i]) && Mirrored(states[i + 1]);
        StepMirroredIff(states[i], writes[i], states[i + 1], ends);
      }
    }
    if forall i :: 0 <= i < |writes| ==> !Deletes(states[i], writes[i]) {
      forall n | 0 <= n <= |writes| ensures Mirrored(states[n]) {
        UndeletedMirrored(writes, states, n, ends);
      }
    }
  }

  lemma {:induction false} UndeletedMirrored(writes: seq<IngestStep>, states: seq<Stores>, n: nat, ends: iset<string>)
    requires IngestRun(writes, states, ends) && n <= |writes|
    requires forall i :: 0 <= i < |writes| ==> !Deletes(states[i], writes[i])
    ensures Mirrored(states[n])
  {
    if n > 0 {
      UndeletedMirrored(writes, states, n - 1, ends);
      StepMirroredIff(states[n - 1], writes[n - 1], states[n], ends);
    }
  }

  lemma EndpointsKept(s: Stores, ctx: Context, r: Relation, src: string, tgt: string, s': Stores, ends: iset<string>)
    requires WellFormed(s.relations) && EndpointsIn(s.relations, ends) && src in ends && tgt in ends
    requires RelationWritten(s, ctx, r, src, tgt, s')
    ensures EndpointsIn(s'.relations, ends)
  {
    var row := RelationIsAdded(s, ctx, r, src, tgt, s');
  }

  // ----- runs that fail -----

  lemma SomeCurrent<A>(rows: seq<Row<A>>, p: string, k: string)
    ensures exists cur: Option<nat> :: IsCurrent(rows, p, k, cur)
  {
    if |rows| == 0 {
      assert IsCurrent(rows, p, k, None);
    } else {
      var n := |rows| - 1;
      SomeCurrent(rows[..n], p, k);
      var cur: Option<nat> :| IsCurrent(rows[..n], p, k, cur);
      var last := OpenFor(rows[n], p, k) && (cur.None? || rows[cur.value].version <= rows[n].version);
      assert IsCurrent(rows, p, k, if last then Some(n) else cur);
    }
  }

  /** Every entity can be written, in every state of the stores. */
  lemma EntityWrites(s: Stores, ctx: Context, e: Entity, key: string) returns (s': Stores)
    requires ResolvesTo(s.entities, ctx.project, e.name, e.entityType, e.uuid, key)
    ensures EntityWritten(s, ctx, e, key, s')
  {
    SomeCurrent(s.entities, ctx.project, key);
    var cur: Option<nat> :| IsCurrent(s.entities, ctx.project, key, cur);
    var rows := Written(s.entities, cur, MaxVersion(s.entities, ctx.project, key), ctx.project, key,
                        EntityAttrsOf(ctx, e), ctx.refTime, SourceLabel(ctx));
    s' := s.(entities := rows, docs := s.docs[DocId(key) := DocText(e.name, e.summary)],
             nodes := s.nodes[(ctx.project, key) := AgeNode(e.name, e.entityType, ctx.refTime)]);
  }

  lemma RelationWrites(s: Stores, ctx: Context, r: Relation, src: string, tgt: string) returns (s': Stores)
    ensures RelationWritten(s, ctx, r, src, tgt, s')
  {
    var key := RelKey(src, r.relationType, tgt);
    SomeCurrent(s.relations, ctx.project, key);
    var cur: Option<nat> :| IsCurrent(s.relations, ctx.project, key, cur);
    var rows := Written(s.relations, cur, MaxVersion(s.relations, ctx.project, key), ctx.project, key,
                        RelationAttrsOf(ctx, r, src, tgt), ValidFromOf(ctx, r), SourceLabel(ctx));
    s' := s.(relations := rows, edges := WithEdge(s, EdgeKey(ctx.project, src, r.relationType, tgt),
                                                  EdgeOf(r.fact, r.confidence, ValidFromOf(ctx, r))));
  }

  lemma NothingAgrees()
    ensures Mirrored(NoStores()) && EdgesAgree(NoStores()) && EdgesBacked(NoStores())
  {
  }

  /** A first entity, written to empty stores. */
  lemma FirstEntity(ctx: Context, a: Entity) returns (s: Stores)
    requires a.uuid != ""
    ensures EntityWritten(NoStores(), ctx, a, a.uuid, s)
    ensures Mirrored(s) && EdgesAgree(s) && EdgesBacked(s)
    ensures |s.entities| == 1 && s.entities[0].key == a.uuid && s.entities[0].attrs == EntityAttrsOf(ctx, a)
    ensures s.relations == [] && (ctx.project, a.uuid) in s.nodes
  {
    NothingAgrees();
    s := EntityWrites(NoStores(), ctx, a, a.uuid);
    EntityKeepsMirrored(NoStores(), ctx, a, a.uuid, s);
    var row := WrittenIsAdded(NoStores(), ctx, a, a.uuid, s);
  }

  /** Writing an entity and deleting it leaves its node and its document without an open row. */
  lemma DeleteLeavesNode(ctx: Context, a: Entity, at: int) returns (writes: seq<IngestStep>, states: seq<Stores>)
    requires a.uuid != ""
    ensures writes == [WriteEntity(ctx, a, a.uuid), DeleteEntity(ctx.project, a.uuid, at)]
    ensures IngestRun(writes, states, iset{}) && Sound(states[2])
    ensures !NodesBacked(states[2]) && !DocsBacked(states[2])
  {
    var s1 := FirstEntity(ctx, a);
    var s2 := Expired(s1, ctx.project, a.uuid, at);
    assert HasOpen(s1.entities, ctx.project, a.uuid);
    ExpiryKeepsSound(s1, ctx.project, a.uuid, at);
    ExpiryKeepsBackedIff(s1, ctx.project, a.uuid, at);
    TwoWrites(WriteEntity(ctx, a, a.uuid), DeleteEntity(ctx.project, a.uuid, at), s1, s2, iset{});
    writes := [WriteEntity(ctx, a, a.uuid), DeleteEntity(ctx.project, a.uuid, at)];
    states := [NoStores(), s1, s2];
  }

  lemma TwoWrites(w0: IngestStep, w1: IngestStep, s1: Stores, s2: Stores, ends: iset<string>)
    requires IngestNext(NoStores(), w0, s1, ends) && IngestNext(s1, w1, s2, ends)
    ensures IngestRun([w0, w1], [NoStores(), s1, s2], ends)
  {
  }

  /** A second one, of another name and with another uuid. */
  lemma SecondEntity(s: Stores, ctx: Context, c: Entity) returns (s': Stores)
    requires Mirrored(s) && EdgesAgree(s) && EdgesBacked(s)
    requires |s.entities| == 1 && s.entities[0].key != c.uuid && s.entities[0].attrs.name != c.name && c.uuid != ""
    ensures FreshFor(s.entities, ctx.project, c) && EntityWritten(s, ctx, c, c.uuid, s')
    ensures Mirrored(s') && EdgesAgree(s') && EdgesBacked(s')
  {
    s' := EntityWrites(s, ctx, c, c.uuid);
    EntityKeepsMirrored(s, ctx, c, c.uuid, s');
  }

  /** A first relation, between nodes. */
  lemma FirstRelation(s: Stores, ctx: Context, r: Relation, src: string, tgt: string) returns (s': Stores)
    requires Mirrored(s) && EdgesAgree(s) && EdgesBacked(s) && s.relations == []
    requires (ctx.project, src) in s.nodes && (ctx.project, tgt) in s.nodes
    ensures RelationWritten(s, ctx, r, src, tgt, s')
    ensures Mirrored(s') && EdgesAgree(s') && EdgesBacked(s')
    ensures |s'.relations| == 1 && OpenFor(s'.relations[0], ctx.project, RelKey(src, r.relationType, tgt))
    ensures EdgeKeyOf(s'.relations[0]) == EdgeKey(ctx.project, src, r.relationType, tgt)
  {
    s' := RelationWrites(s, ctx, r, src, tgt);
    RelationKeepsMirrored(s, ctx, r, src, tgt, s');
    RelationKeepsBackedIff(s, ctx, r, src, tgt, s');
    var row := RelationIsAdded(s, ctx, r, src, tgt, s');
  }

  /** A second one with the key of the first. */
  lemma ClashingRelation(s: Stores, ctx: Context, r: Relation, src: string, tgt: string) returns (s': Stores)
    requires Mirrored(s) && EdgesAgree(s) && EdgesBacked(s)
    requires |s.relations| == 1 && OpenFor(s.relations[0], ctx.project, RelKey(src, r.relationType, tgt))
    requires EdgeKeyOf(s.relations[0]) != EdgeKey(ctx.project, src, r.relationType, tgt)
    ensures RelationWritten(s, ctx, r, src, tgt, s') && !EdgesBacked(s')
  {
    s' := RelationWrites(s, ctx, r, src, tgt);
    assert !NoClash(s.relations, ctx.project, src, r.relationType, tgt);
    RelationKeepsBackedIff(s, ctx, r, src, tgt, s');
  }

  lemma ClashingKeys()
    ensures RelKey("x|y", "T", "x") == RelKey("x", "y|T", "x")
  {
    assert RelKey("x|y", "T", "x") == "x|y|T|x" == RelKey("x", "y|T", "x");
  }

  /** Two relations between entities with the uuids "x|y" and "x" share a key: the second write
    * closes the first one's row, and its edge stays in the graph without an open row. */
  lemma ClashStrandsEdge(ctx: Context, a: Entity, c: Entity, r: Relation, r': Relation)
    returns (writes: seq<IngestStep>, states: seq<Stores>)
    requires a.uuid == "x|y" && c.uuid == "x" && a.name != c.name
    requires r.relationType == "T" && r'.relationType == "y|T"
    ensures writes == [WriteEntity(ctx, a, "x|y"), WriteEntity(ctx, c, "x"), WriteRelation(ctx, r, "x|y", "x"),
                       WriteRelation(ctx, r', "x", "x")]
    ensures IngestRun(writes, states, iset{"x|y", "x"}) && !EdgesBacked(states[4])
  {
    var s1 := FirstEntity(ctx, a);
    var s2 := SecondEntity(s1, ctx, c);
    var s3 := FirstRelation(s2, ctx, r, "x|y", "x");
    ClashingKeys();
    var s4 := ClashingRelation(s3, ctx, r', "x", "x");
    var ends := iset{"x|y", "x"};
    var w, w' := WriteRelation(ctx, r, "x|y", "x"), WriteRelation(ctx, r', "x", "x");
    assert IngestNext(s2, w, s3, ends) && IngestNext(s3, w', s4, ends);
    FourWrites(WriteEntity(ctx, a, "x|y"), WriteEntity(ctx, c, "x"), w, w', s1, s2, s3, s4, ends);
    writes := [WriteEntity(ctx, a, "x|y"), WriteEntity(ctx, c, "x"), w, w'];
    states := [NoStores(), s1, s2, s3, s4];
  }

  lemma FourWrites(w0: IngestStep, w1: IngestStep, w2: IngestStep, w3: IngestStep,
                   s1: Stores, s2: Stores, s3: Stores, s4: Stores, ends: iset<string>)
    requires IngestNext(NoStores(), w0, s1, ends) && IngestNext(s1, w1, s2, ends)
    requires IngestNext(s2, w2, s3, ends) && IngestNext(s3, w3, s4, ends)
    ensures IngestRun([w0, w1, w2, w3], [NoStores(), s1, s2, s3, s4], ends)
  {
  }

  /** The first write of a project may be a relation between uuids that name no entity: the mirror
    * gets a row, the graph gets no edge. */
  lemma UnknownEndpointsDisagree(ctx: Context, r: Relation, src: string, tgt: string)
    ensures exists s' :: RelationWritten(NoStores(), ctx, r, src, tgt, s')
              && Mirrored(s') && !EdgesAgree(s')
  {
    var s := NoStores();
    var key := RelKey(src, r.relationType, tgt);
    var row := Row(ctx.project, key, RelationAttrsOf(ctx, r, src, tgt), ValidFromOf(ctx, r), None, 1, SourceLabel(ctx));
    assert IsCurrent(s.relations, ctx.project, key, None);
    var s' := Stores([], [row], map[], map[], map[]);
    assert Superseded(s.relations, ctx.project, key, row.attrs, row.validFrom, row.source, s'.relations);
    assert RelationWritten(s, ctx, r, src, tgt, s');
    RelationKeepsMirrored(s, ctx, r, src, tgt, s');
  }
}
