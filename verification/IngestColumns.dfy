/** What one round of each ingest loop stores (core/services/graphiti_orchestrator.py,
  * core/adapters/age_adapter.py, core/adapters/pgvector_adapter.py), column by column. */
module IngestColumns {
  import opened Wrappers
  import opened Temporal
  import opened TemporalRuns
  import opened Ingest
  import opened Orchestrator
  import opened VersionColumns

  /** The text that is indexed for an entity: its name and, if it has one that is not empty, its summary. */
  lemma DocumentText(name: string, summary: Option<string>)
    ensures summary.Some? && summary.value != "" ==> DocText(name, summary) == name + ". " + summary.value
    ensures summary.None? || summary.value == "" ==> DocText(name, summary) == name + ". " + name
  {
  }

  /** An entity round: the new row, the document and the node. */
  lemma EntityColumns(s: Stores, ctx: Context, e: Entity, key: string, s': Stores)
    requires EntityWritten(s, ctx, e, key, s')
    ensures |s'.entities| == |s.entities| + 1
    ensures var r := s'.entities[|s.entities|];
            && r.project == ctx.project && r.key == key && r.validFrom == ctx.refTime && r.validUntil == None
            && r.source == "graphiti_extract:" + ctx.extractor
            && r.attrs.name == e.name && r.attrs.entityType == e.entityType && r.attrs.summary == e.summary
            && r.attrs.attributes == e.attributes && r.attrs.graphitiUuid == e.uuid
            && r.attrs.tenantId == ctx.tenantId && r.attrs.episodeId == ctx.episodeId
    ensures s'.docs.Keys == s.docs.Keys + {"entity:" + key}
    ensures s'.docs["entity:" + key]
         == e.name + ". " + (if e.summary.Some? && e.summary.value != "" then e.summary.value else e.name)
    ensures forall d :: d in s.docs && d != "entity:" + key ==> s'.docs[d] == s.docs[d]
    ensures s'.nodes.Keys == s.nodes.Keys + {(ctx.project, key)}
    ensures var n := s'.nodes[(ctx.project, key)];
            n.name == e.name && n.entityType == e.entityType && n.validFrom == ctx.refTime
    ensures forall k :: k in s.nodes && k != (ctx.project, key) ==> s'.nodes[k] == s.nodes[k]
    ensures s'.relations == s.relations && s'.edges == s.edges
  {
    SupersedeColumns(s.entities, ctx.project, key, EntityAttrsOf(ctx, e), ctx.refTime, SourceLabel(ctx), s'.entities);
  }

  /** The key of an entity: that of a row of the same project, name and type, else the drawn uuid. */
  lemma EntityKey(s: Stores, ctx: Context, e: Entity, key: string, s': Stores)
    requires EntityWritten(s, ctx, e, key, s')
    ensures (forall i :: 0 <= i < |s.entities| ==> !IsRowOf(s.entities[i], ctx, e)) ==> key == e.uuid
    ensures (exists i :: 0 <= i < |s.entities| && IsRowOf(s.entities[i], ctx, e)) ==>
              exists i :: 0 <= i < |s.entities| && IsRowOf(s.entities[i], ctx, e)
                && key == if s.entities[i].key == "" then e.uuid else s.entities[i].key
  {
    forall i | 0 <= i < |s.entities|
      ensures IsRowOf(s.entities[i], ctx, e) <==> SameIdentity(s.entities[i], ctx.project, e.name, e.entityType)
    {
    }
  }

  predicate IsRowOf(r: Row<EntityAttrs>, ctx: Context, e: Entity) {
    r.project == ctx.project && r.attrs.name == e.name && r.attrs.entityType == e.entityType
  }

  /** A relation round: the new row and, where both endpoints are nodes, the edge. */
  lemma RelationColumns(s: Stores, ctx: Context, r: Relation, src: string, tgt: string, s': Stores)
    requires RelationWritten(s, ctx, r, src, tgt, s')
    ensures |s'.relations| == |s.relations| + 1
    ensures var row := s'.relations[|s.relations|];
            && row.project == ctx.project && row.key == src + "|" + r.relationType + "|" + tgt
            && row.validFrom == (if r.validAt.Some? then r.validAt.value else ctx.refTime) && row.validUntil == None
            && row.source == "graphiti_extract:" + ctx.extractor
            && row.attrs.relationType == r.relationType && row.attrs.fact == r.fact
            && row.attrs.source == src && row.attrs.target == tgt && row.attrs.sourceName == r.sourceName
            && row.attrs.targetName == r.targetName && row.attrs.confidence == r.confidence
            && row.attrs.graphitiUuid == r.uuid && row.attrs.tenantId == ctx.tenantId
            && row.attrs.episodeId == ctx.episodeId
    ensures s'.entities == s.entities && s'.nodes == s.nodes && s'.docs == s.docs
    ensures (ctx.project, src) !in s.nodes || (ctx.project, tgt) !in s.nodes ==> s'.edges == s.edges
    ensures (ctx.project, src) in s.nodes && (ctx.project, tgt) in s.nodes ==>
              var k := EdgeKey(ctx.project, src, r.relationType, tgt);
              && s'.edges.Keys == s.edges.Keys + {k}
              && (forall j :: j in s.edges && j != k ==> s'.edges[j] == s.edges[j])
              && s'.edges[k].fact == (if r.fact.Some? then r.fact.value else "")
              && s'.edges[k].confidence == (if r.confidence.Some? then r.confidence.value else 0.5)
              && s'.edges[k].validFrom == if r.validAt.Some? then r.validAt.value else ctx.refTime
  {
    SupersedeColumns(s.relations, ctx.project, RelKey(src, r.relationType, tgt), RelationAttrsOf(ctx, r, src, tgt),
                     ValidFromOf(ctx, r), SourceLabel(ctx), s'.relations);
  }

  /** The relation loop sends each endpoint through the map, and one that is not in it to itself. */
  lemma MappedColumns(row: Row<RelationAttrs>, ctx: Context, r: Relation, uuidMap: map<string, string>)
    requires IsRelationRow(row, ctx, r, uuidMap)
    ensures row.attrs.source == if r.sourceUuid in uuidMap then uuidMap[r.sourceUuid] else r.sourceUuid
    ensures row.attrs.target == if r.targetUuid in uuidMap then uuidMap[r.targetUuid] else r.targetUuid
    ensures row.key == row.attrs.source + "|" + r.relationType + "|" + row.attrs.target
    ensures row.attrs.relationType == r.relationType && row.attrs.fact == r.fact && row.attrs.confidence == r.confidence
    ensures row.validFrom == if r.validAt.Some? then r.validAt.value else ctx.refTime
  {
  }

  /** What the loop over entities adds, entity by entity. */
  lemma BatchColumns(rows: seq<Row<EntityAttrs>>, rows': seq<Row<EntityAttrs>>, ctx: Context, es: seq<Entity>, i: nat)
    requires EntityRows(rows, rows', ctx, es) && i < |es|
    ensures |rows'| == |rows| + |es|
    ensures var r := rows'[|rows| + i];
            && r.project == ctx.project && r.validFrom == ctx.refTime
            && r.attrs.name == es[i].name && r.attrs.entityType == es[i].entityType && r.attrs.summary == es[i].summary
            && r.attrs.attributes == es[i].attributes && r.attrs.graphitiUuid == es[i].uuid
  {
    assert IsEntityRow(rows'[|rows| + i], ctx, es[i]);
  }

  /** In every run of writes and deletes an open entity row has its node and its document, with the
    * row's own name, type, start and summary. */
  lemma OpenEntityIsIndexed(writes: seq<IngestStep>, states: seq<Stores>, n: nat, ends: iset<string>, i: nat)
    requires IngestRun(writes, states, ends) && n <= |writes| && i < |states[n].entities|
    requires states[n].entities[i].validUntil == None
    ensures var s, r := states[n], states[n].entities[i];
            && (r.project, r.key) in s.nodes && "entity:" + r.key in s.docs
            && s.nodes[(r.project, r.key)].name == r.attrs.name
            && s.nodes[(r.project, r.key)].entityType == r.attrs.entityType
            && s.nodes[(r.project, r.key)].validFrom == r.validFrom
            && s.docs["entity:" + r.key] == r.attrs.name + ". " +
                 (if r.attrs.summary.Some? && r.attrs.summary.value != "" then r.attrs.summary.value else r.attrs.name)
  {
    IngestRunAgrees(writes, states, n, ends);
    assert NodeAgrees(states[n], states[n].entities[i]) && DocAgrees(states[n], states[n].entities[i]);
  }

  /** And an open relation row has its edge. */
  lemma OpenRelationIsIndexed(writes: seq<IngestStep>, states: seq<Stores>, n: nat, ends: iset<string>, i: nat)
    requires IngestRun(writes, states, ends) && n <= |writes| && i < |states[n].relations|
    requires states[n].relations[i].validUntil == None
    ensures var s, r := states[n], states[n].relations[i];
            var k := EdgeKey(r.project, r.attrs.source, r.attrs.relationType, r.attrs.target);
            && k in s.edges && s.edges[k].fact == (if r.attrs.fact.Some? then r.attrs.fact.value else "")
            && s.edges[k].confidence == (if r.attrs.confidence.Some? then r.attrs.confidence.value else 0.5)
            && s.edges[k].validFrom == r.validFrom
  {
    IngestRunAgrees(writes, states, n, ends);
    assert EdgeAgrees(states[n], states[n].relations[i]);
  }
}
