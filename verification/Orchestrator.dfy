/** The loops of core/services/graphiti_orchestrator.py over the stores of module Ingest. */
module Orchestrator {
  import opened Wrappers
  import opened Temporal
  import opened TemporalRuns
  import opened Ingest

  // ----- what the loops add -----

  /** The entity rows a batch appends, in batch order. */
  ghost predicate EntityRows(rows: seq<Row<EntityAttrs>>, rows': seq<Row<EntityAttrs>>, ctx: Context, es: seq<Entity>) {
    && |rows'| == |rows| + |es| && Extends(rows, rows')
    && forall i :: |rows| <= i < |rows'| ==> IsEntityRow(rows'[i], ctx, es[i - |rows|])
  }

  predicate IsEntityRow(r: Row<EntityAttrs>, ctx: Context, e: Entity) {
    r.project == ctx.project && r.attrs == EntityAttrsOf(ctx, e) && r.validFrom == ctx.refTime
      && r.source == SourceLabel(ctx)
  }

  function Mapped(uuidMap: map<string, string>, uuid: string): string {
    if uuid in uuidMap then uuidMap[uuid] else uuid
  }

  ghost predicate RelationRows(rows: seq<Row<RelationAttrs>>, rows': seq<Row<RelationAttrs>>, ctx: Context,
                               rs: seq<Relation>, uuidMap: map<string, string>)
  {
    && |rows'| == |rows| + |rs| && Extends(rows, rows')
    && forall i :: |rows| <= i < |rows'| ==> IsRelationRow(rows'[i], ctx, rs[i - |rows|], uuidMap)
  }

  predicate IsRelationRow(row: Row<RelationAttrs>, ctx: Context, r: Relation, uuidMap: map<string, string>) {
    var src, tgt := Mapped(uuidMap, r.sourceUuid), Mapped(uuidMap, r.targetUuid);
    && row.project == ctx.project && row.key == RelKey(src, r.relationType, tgt)
    && row.attrs == RelationAttrsOf(ctx, r, src, tgt) && row.validFrom == ValidFromOf(ctx, r)
      && row.source == SourceLabel(ctx)
  }

  /** Appending `added` rows of project p opens their keys and no others. */
  ghost predicate Opens<A>(rows: seq<Row<A>>, rows': seq<Row<A>>, p: string) {
    |rows| <= |rows'| &&
    forall q, l :: HasOpen(rows', q, l) <==> HasOpen(rows, q, l) || (q == p && AddedKey(rows, rows', l))
  }

  ghost predicate AddedKey<A>(rows: seq<Row<A>>, rows': seq<Row<A>>, l: string) {
    exists i :: |rows| <= i < |rows'| && rows'[i].key == l
  }

  ghost predicate SameOpenKeys<A>(rows: seq<Row<A>>, rows': seq<Row<A>>) {
    forall q, l :: HasOpen(rows', q, l) <==> HasOpen(rows, q, l)
  }

  /** Each added row is the next version of its key. */
  ghost predicate Advances<A>(rows: seq<Row<A>>, rows': seq<Row<A>>) {
    forall i :: |rows| <= i < |rows'| ==> IsNextVersion(rows', i)
  }

  predicate IsNextVersion<A>(rows: seq<Row<A>>, i: nat)
    requires i < |rows|
  {
    rows[i].version == MaxVersion(rows[..i], rows[i].project, rows[i].key).GetOr(0) + 1
  }

  lemma WellFormedAdvances<A>(rows: seq<Row<A>>, rows': seq<Row<A>>)
    requires WellFormed(rows') && |rows| <= |rows'|
    ensures Advances(rows, rows')
  {
    forall i | |rows| <= i < |rows'| ensures IsNextVersion(rows', i) {
      assert Numbered(rows', i);
      PrefixWellFormed(rows', i);
      MaxIsCount(rows'[..i], rows'[i].project, rows'[i].key);
    }
  }

  lemma OpensNothing<A>(rows: seq<Row<A>>, p: string)
    ensures Opens(rows, rows, p)
  {
  }

  lemma OpensStep<A>(rows0: seq<Row<A>>, rows: seq<Row<A>>, rows': seq<Row<A>>, r: Row<A>)
    requires Opens(rows0, rows, r.project) && Appended(rows, rows', r)
    ensures Opens(rows0, rows', r.project)
  {
    forall q, l
      ensures HasOpen(rows', q, l) <==> HasOpen(rows0, q, l) || (q == r.project && AddedKey(rows0, rows', l))
    {
      AppendedHasOpen(rows, rows', r, q, l);
      if AddedKey(rows0, rows, l) {
        var i :| |rows0| <= i < |rows| && rows[i].key == l;
        assert rows'[i].key == l;
      }
      if AddedKey(rows0, rows', l) && l != r.key {
        var i :| |rows0| <= i < |rows'| && rows'[i].key == l;
        assert rows[i].key == l;
      }
      assert l == r.key ==> rows'[|rows|].key == l;
    }
  }

  /** The map sends each extracted uuid to the key of the row written for it, which is a graph node. */
  ghost predicate MapsTo(uuidMap: map<string, string>, es: seq<Entity>, rows: seq<Row<EntityAttrs>>, base: nat,
                         project: string, nodes: map<(string, string), AgeNode>)
  {
    && |rows| == base + |es|
    && (forall u :: u in uuidMap <==> HasUuid(es, u))
    && forall i :: base <= i < |rows| ==> MappedRow(uuidMap, es[i - base], rows[i], project, nodes)
  }

  predicate MappedRow(uuidMap: map<string, string>, e: Entity, r: Row<EntityAttrs>, project: string,
                      nodes: map<(string, string), AgeNode>) {
    && e.uuid in uuidMap && uuidMap[e.uuid] == r.key && (project, r.key) in nodes
    && SameIdentity(r, project, e.name, e.entityType)
  }

  lemma MapsStep(uuidMap: map<string, string>, es: seq<Entity>, n: nat, s: Stores, s': Stores, base: nat, ctx: Context,
                 key: string)
    requires n < |es| && MapsTo(uuidMap, es[..n], s.entities, base, ctx.project, s.nodes)
    requires |s'.entities| == |s.entities| + 1 && s'.entities[|s.entities|].key == key
    requires SameIdentity(s'.entities[|s.entities|], ctx.project, es[n].name, es[n].entityType)
    requires Extends(s.entities, s'.entities)
    requires forall i ::
              0 <= i < |s.entities| && SameIdentity(s.entities[i], ctx.project, es[n].name, es[n].entityType) ==>
               s.entities[i].key == key
    requires forall k :: k in s.nodes ==> k in s'.nodes
    requires (ctx.project, key) in s'.nodes
    requires forall i :: 0 <= i < n && es[i].uuid == es[n].uuid ==>
              es[i].name == es[n].name && es[i].entityType == es[n].entityType
    ensures MapsTo(uuidMap[es[n].uuid := key], es[..n + 1], s'.entities, base, ctx.project, s'.nodes)
  {
    var m := uuidMap[es[n].uuid := key];
    forall u ensures u in m <==> HasUuid(es[..n + 1], u) {
      UuidStep(es, n, u);
    }
    forall i | base <= i < |s'.entities|
      ensures MappedRow(m, es[..n + 1][i - base], s'.entities[i], ctx.project, s'.nodes)
    {
      if i < |s.entities| {
        assert MappedRow(uuidMap, es[..n][i - base], s.entities[i], ctx.project, s.nodes);
      }
    }
  }

  lemma UuidStep(es: seq<Entity>, n: nat, u: string)
    requires n < |es|
    ensures HasUuid(es[..n + 1], u) <==> HasUuid(es[..n], u) || es[n].uuid == u
  {
    assert es[..n + 1] == es[..n] + [es[n]];
    if HasUuid(es[..n], u) {
      var i :| 0 <= i < n && es[..n][i].uuid == u;
      assert es[..n + 1][i].uuid == u;
    }
    assert es[..n + 1][n] == es[n];
    if HasUuid(es[..n + 1], u) && es[n].uuid != u {
      var i :| 0 <= i < n + 1 && es[..n + 1][i].uuid == u;
      assert es[..n][i].uuid == u;
    }
  }

  // ----- freshness of a batch -----

  ghost predicate FreshBatch(rows: seq<Row<EntityAttrs>>, project: string, es: seq<Entity>) {
    && (forall i :: 0 <= i < |es| ==> FreshFor(rows, project, es[i]))
    && forall i, j :: 0 <= i < j < |es| && es[i].uuid == es[j].uuid ==>
         es[i].name == es[j].name && es[i].entityType == es[j].entityType
  }

  predicate HasIdentity(rows: seq<Row<EntityAttrs>>, project: string, name: string, entityType: string) {
    exists i :: 0 <= i < |rows| && SameIdentity(rows[i], project, name, entityType)
  }

  predicate SameEntity(e: Entity, name: string, entityType: string) {
    e.name == name && e.entityType == entityType
  }

  predicate FirstNamed(es: seq<Entity>, name: string, entityType: string, j: int) {
    && 0 <= j < |es| && SameEntity(es[j], name, entityType)
    && forall m :: 0 <= m < j ==> !SameEntity(es[m], name, entityType)
  }

  /** The key an identity has after the batch: that of its rows before it, or else the uuid drawn
    * for the first entity of the batch that has the identity. */
  ghost predicate KeyFor(rows: seq<Row<EntityAttrs>>, project: string, es: seq<Entity>, name: string,
                         entityType: string, key: string)
  {
    if HasIdentity(rows, project, name, entityType)
    then exists i :: 0 <= i < |rows| && SameIdentity(rows[i], project, name, entityType) && rows[i].key == key
    else exists j :: FirstNamed(es, name, entityType, j) && es[j].uuid == key
  }

  lemma KeyForOnce(rows: seq<Row<EntityAttrs>>, project: string, es: seq<Entity>, name: string, entityType: string,
                   k: string, l: string)
    requires Identified(rows)
    requires KeyFor(rows, project, es, name, entityType, k) && KeyFor(rows, project, es, name, entityType, l)
    ensures k == l
  {
    if HasIdentity(rows, project, name, entityType) {
      var i :| 0 <= i < |rows| && SameIdentity(rows[i], project, name, entityType) && rows[i].key == k;
      var j :| 0 <= j < |rows| && SameIdentity(rows[j], project, name, entityType) && rows[j].key == l;
    } else {
      var i :| FirstNamed(es, name, entityType, i) && es[i].uuid == k;
      var j :| FirstNamed(es, name, entityType, j) && es[j].uuid == l;
      assert i == j;
    }
  }

  /** The first n entities of the batch have their rows, each under the key of its identity. */
  ghost predicate Keyed(rows0: seq<Row<EntityAttrs>>, rows: seq<Row<EntityAttrs>>, project: string, es: seq<Entity>,
                        n: nat) {
    && n <= |es| && |rows| == |rows0| + n && Extends(rows0, rows)
    && forall i :: 0 <= i < n ==> KeyedRow(rows0, rows[|rows0| + i], project, es, es[i])
  }

  ghost predicate KeyedRow(rows0: seq<Row<EntityAttrs>>, r: Row<EntityAttrs>, project: string, es: seq<Entity>,
                           e: Entity) {
    SameIdentity(r, project, e.name, e.entityType) && KeyFor(rows0, project, es, e.name, e.entityType, r.key)
  }

  lemma KeyedStep(rows0: seq<Row<EntityAttrs>>, rows: seq<Row<EntityAttrs>>, rows': seq<Row<EntityAttrs>>,
                  project: string, es: seq<Entity>, n: nat, r: Row<EntityAttrs>)
    requires n < |es| && Keyed(rows0, rows, project, es, n) && Appended(rows, rows', r) && KeysNonEmpty(rows)
    requires SameIdentity(r, project, es[n].name, es[n].entityType)
    requires ResolvesTo(rows, project, es[n].name, es[n].entityType, es[n].uuid, r.key)
    ensures Keyed(rows0, rows', project, es, n + 1)
  {
    ResolvedKeyFor(rows0, rows, project, es, n, r.key);
    forall i | 0 <= i < n + 1 ensures KeyedRow(rows0, rows'[|rows0| + i], project, es, es[i]) {
      if i < n {
        assert KeyedRow(rows0, rows[|rows0| + i], project, es, es[i]);
        AppendedKeeps(rows, rows', r, |rows0| + i);
        KeyedStays(rows0, rows[|rows0| + i], rows'[|rows0| + i], project, es, es[i]);
      } else {
        assert rows'[|rows0| + i] == r;
      }
    }
    AppendedExtends(rows0, rows, rows', r);
  }

  lemma AppendedKeeps<A>(rows: seq<Row<A>>, rows': seq<Row<A>>, r: Row<A>, j: nat)
    requires Appended(rows, rows', r) && j < |rows|
    ensures SameKey(rows'[j], rows[j]) && rows'[j].attrs == rows[j].attrs
  {
  }

  lemma AppendedExtends<A>(rows0: seq<Row<A>>, rows: seq<Row<A>>, rows': seq<Row<A>>, r: Row<A>)
    requires Extends(rows0, rows) && Appended(rows, rows', r)
    ensures Extends(rows0, rows')
  {
  }

  lemma KeyedStays(rows0: seq<Row<EntityAttrs>>, r: Row<EntityAttrs>, r': Row<EntityAttrs>, project: string,
                   es: seq<Entity>, e: Entity)
    requires KeyedRow(rows0, r, project, es, e) && SameKey(r', r) && r'.attrs == r.attrs
    ensures KeyedRow(rows0, r', project, es, e)
  {
  }

  lemma ResolvedKeyFor(rows0: seq<Row<EntityAttrs>>, rows: seq<Row<EntityAttrs>>, project: string, es: seq<Entity>,
                       n: nat, key: string)
    requires n < |es| && Keyed(rows0, rows, project, es, n) && KeysNonEmpty(rows)
    requires ResolvesTo(rows, project, es[n].name, es[n].entityType, es[n].uuid, key)
    ensures KeyFor(rows0, project, es, es[n].name, es[n].entityType, key)
  {
    var name, entityType := es[n].name, es[n].entityType;
    if j :| 0 <= j < |rows| && SameIdentity(rows[j], project, name, entityType) && key == rows[j].key {
      if j < |rows0| {
        assert SameIdentity(rows0[j], project, name, entityType) && rows0[j].key == key;
      } else {
        assert KeyedRow(rows0, rows[|rows0| + (j - |rows0|)], project, es, es[j - |rows0|]);
      }
    } else {
      forall i | 0 <= i < |rows0| ensures !SameIdentity(rows0[i], project, name, entityType) {
        assert !SameIdentity(rows[i], project, name, entityType);
      }
      forall m | 0 <= m < n ensures !SameEntity(es[m], name, entityType) {
        assert KeyedRow(rows0, rows[|rows0| + m], project, es, es[m]);
        assert !SameIdentity(rows[|rows0| + m], project, name, entityType);
      }
      assert FirstNamed(es, name, entityType, n);
    }
  }

  lemma StillFresh(rows0: seq<Row<EntityAttrs>>, rows: seq<Row<EntityAttrs>>, project: string, es: seq<Entity>, n: nat)
    requires n < |es| && FreshBatch(rows0, project, es) && Keyed(rows0, rows, project, es, n)
    ensures FreshFor(rows, project, es[n])
  {
    assert FreshFor(rows0, project, es[n]);
    forall i | 0 <= i < |rows| && rows[i].key == es[n].uuid
      ensures SameIdentity(rows[i], project, es[n].name, es[n].entityType)
    {
      if i < |rows0| {
        assert rows0[i].key == es[n].uuid;
      } else {
        FreshKey(rows0, rows[i], project, es, n, i - |rows0|);
      }
    }
  }

  lemma FreshKey(rows0: seq<Row<EntityAttrs>>, r: Row<EntityAttrs>, project: string, es: seq<Entity>, n: nat, m: nat)
    requires n < |es| && m < |es| && FreshBatch(rows0, project, es) && KeyedRow(rows0, r, project, es, es[m])
    requires r.key == es[n].uuid
    ensures SameIdentity(r, project, es[n].name, es[n].entityType)
  {
    assert FreshFor(rows0, project, es[n]);
    if HasIdentity(rows0, project, es[m].name, es[m].entityType) {
      var i :| 0 <= i < |rows0| && SameIdentity(rows0[i], project, es[m].name, es[m].entityType)
        && rows0[i].key == r.key;
    } else {
      var j :| FirstNamed(es, es[m].name, es[m].entityType, j) && es[j].uuid == r.key;
      assert SameEntity(es[j], es[m].name, es[m].entityType);
    }
  }

  // ----- ingesting what is there already -----

  /** The identity has a row that is open now. */
  predicate KnownOpen(rows: seq<Row<EntityAttrs>>, project: string, e: Entity) {
    exists i :: 0 <= i < |rows| && Open(rows[i]) && SameIdentity(rows[i], project, e.name, e.entityType)
  }

  /** A batch leaves the set of open entity keys as it was if and only if each of its entities had
    * an open row before the call: then it only advances versions. */
  lemma EntitiesReopenIff(rows: seq<Row<EntityAttrs>>, rows': seq<Row<EntityAttrs>>, ctx: Context, es: seq<Entity>)
    requires Identified(rows') && EntityRows(rows, rows', ctx, es) && Opens(rows, rows', ctx.project)
    ensures SameOpenKeys(rows, rows') <==> forall i :: 0 <= i < |es| ==> KnownOpen(rows, ctx.project, es[i])
  {
    forall i | 0 <= i < |es|
      ensures HasOpen(rows, ctx.project, rows'[|rows| + i].key) <==> KnownOpen(rows, ctx.project, es[i])
    {
      KeyOpenIff(rows, rows', ctx, es, i);
    }
    AddedOpenIff(rows, rows', ctx.project);
    if forall i :: 0 <= i < |es| ==> KnownOpen(rows, ctx.project, es[i]) {
      forall i | |rows| <= i < |rows'| ensures HasOpen(rows, ctx.project, rows'[i].key) {
        assert KnownOpen(rows, ctx.project, es[i - |rows|]);
        assert rows'[|rows| + (i - |rows|)] == rows'[i];
      }
    }
  }

  lemma KeyOpenIff(rows: seq<Row<EntityAttrs>>, rows': seq<Row<EntityAttrs>>, ctx: Context, es: seq<Entity>, i: nat)
    requires Identified(rows') && EntityRows(rows, rows', ctx, es) && i < |es|
    ensures HasOpen(rows, ctx.project, rows'[|rows| + i].key) <==> KnownOpen(rows, ctx.project, es[i])
  {
    var r := rows'[|rows| + i];
    assert IsEntityRow(r, ctx, es[i]);
    forall j | 0 <= j < |rows|
      ensures rows[j].key == r.key <==> SameIdentity(rows[j], ctx.project, es[i].name, es[i].entityType)
    {
      assert rows'[j].key == r.key <==> SameIdentity(rows'[j], r.project, r.attrs.name, r.attrs.entityType);
    }
    if HasOpen(rows, ctx.project, r.key) {
      var j :| 0 <= j < |rows| && OpenFor(rows[j], ctx.project, r.key);
    }
    if KnownOpen(rows, ctx.project, es[i]) {
      var j :| 0 <= j < |rows| && Open(rows[j]) && SameIdentity(rows[j], ctx.project, es[i].name, es[i].entityType);
      assert OpenFor(rows[j], ctx.project, r.key);
    }
  }

  /** No key is opened exactly when the keys of all added rows were open. */
  lemma AddedOpenIff<A>(rows: seq<Row<A>>, rows': seq<Row<A>>, p: string)
    requires Opens(rows, rows', p)
    ensures SameOpenKeys(rows, rows') <==> forall i :: |rows| <= i < |rows'| ==> HasOpen(rows, p, rows'[i].key)
  {
    forall i | |rows| <= i < |rows'| ensures HasOpen(rows', p, rows'[i].key) {
      assert AddedKey(rows, rows', rows'[i].key);
    }
  }

  /** The relation's key, from the table before the call and the batch alone, is open. */
  ghost predicate RelationOpen(ents: seq<Row<EntityAttrs>>, rels: seq<Row<RelationAttrs>>, project: string,
                               es: seq<Entity>, r: Relation)
  {
    exists a, b, src, tgt :: IsEndpoint(ents, project, es, r.sourceUuid, a, src)
      && IsEndpoint(ents, project, es, r.targetUuid, b, tgt)
      && HasOpen(rels, project, RelKey(src, r.relationType, tgt))
  }

  /** Entity a of the batch has the uuid, and its identity gets the key. */
  ghost predicate IsEndpoint(ents: seq<Row<EntityAttrs>>, project: string, es: seq<Entity>, uuid: string, a: int,
                             key: string) {
    0 <= a < |es| && es[a].uuid == uuid && KeyFor(ents, project, es, es[a].name, es[a].entityType, key)
  }

  /** The same for relations between entities of the batch. */
  lemma RelationsReopenIff(ents: seq<Row<EntityAttrs>>, rels: seq<Row<RelationAttrs>>, rels': seq<Row<RelationAttrs>>,
                           ctx: Context, x: Extraction, uuidMap: map<string, string>)
    requires RelationRows(rels, rels', ctx, x.relations, uuidMap) && Opens(rels, rels', ctx.project)
    requires EndpointsListed(x) && Identified(ents) && FreshBatch(ents, ctx.project, x.entities)
    requires MapsKeys(uuidMap, ents, ctx.project, x.entities)
    ensures SameOpenKeys(rels, rels') <==>
              forall i :: 0 <= i < |x.relations| ==> RelationOpen(ents, rels, ctx.project, x.entities, x.relations[i])
  {
    AddedOpenIff(rels, rels', ctx.project);
    forall i | 0 <= i < |x.relations|
      ensures HasOpen(rels, ctx.project, rels'[|rels| + i].key) <==>
                RelationOpen(ents, rels, ctx.project, x.entities, x.relations[i])
    {
      assert IsRelationRow(rels'[|rels| + i], ctx, x.relations[i], uuidMap);
      RelationKeyOpen(ents, rels, ctx.project, x, x.relations[i], uuidMap);
    }
    if forall i :: 0 <= i < |x.relations| ==> RelationOpen(ents, rels, ctx.project, x.entities, x.relations[i]) {
      forall i | |rels| <= i < |rels'| ensures HasOpen(rels, ctx.project, rels'[i].key) {
        assert RelationOpen(ents, rels, ctx.project, x.entities, x.relations[i - |rels|]);
        assert rels'[|rels| + (i - |rels|)] == rels'[i];
      }
    }
  }

  /** The map sends each uuid of the batch to the key of its identity. */
  ghost predicate MapsKeys(uuidMap: map<string, string>, ents: seq<Row<EntityAttrs>>, project: string,
                           es: seq<Entity>) {
    forall a :: 0 <= a < |es| ==>
      es[a].uuid in uuidMap && KeyFor(ents, project, es, es[a].name, es[a].entityType, uuidMap[es[a].uuid])
  }

  lemma RelationKeyOpen(ents: seq<Row<EntityAttrs>>, rels: seq<Row<RelationAttrs>>, project: string, x: Extraction,
                        r: Relation, uuidMap: map<string, string>)
    requires Identified(ents) && FreshBatch(ents, project, x.entities) && MapsKeys(uuidMap, ents, project, x.entities)
    requires HasUuid(x.entities, r.sourceUuid) && HasUuid(x.entities, r.targetUuid)
    ensures var key := RelKey(Mapped(uuidMap, r.sourceUuid), r.relationType, Mapped(uuidMap, r.targetUuid));
            HasOpen(rels, project, key) <==> RelationOpen(ents, rels, project, x.entities, r)
  {
    var es := x.entities;
    var a :| 0 <= a < |es| && es[a].uuid == r.sourceUuid;
    var b :| 0 <= b < |es| && es[b].uuid == r.targetUuid;
    var src, tgt := uuidMap[es[a].uuid], uuidMap[es[b].uuid];
    assert IsEndpoint(ents, project, es, r.sourceUuid, a, src) && IsEndpoint(ents, project, es, r.targetUuid, b, tgt);
    if RelationOpen(ents, rels, project, es, r) {
      var a', b', src', tgt' :| IsEndpoint(ents, project, es, r.sourceUuid, a', src')
        && IsEndpoint(ents, project, es, r.targetUuid, b', tgt')
        && HasOpen(rels, project, RelKey(src', r.relationType, tgt'));
      EndpointOnce(ents, project, es, r.sourceUuid, a, src, a', src');
      EndpointOnce(ents, project, es, r.targetUuid, b, tgt, b', tgt');
    }
  }

  lemma EndpointOnce(ents: seq<Row<EntityAttrs>>, project: string, es: seq<Entity>, uuid: string,
                     a: int, k: string, b: int, l: string)
    requires Identified(ents) && FreshBatch(ents, project, es)
    requires IsEndpoint(ents, project, es, uuid, a, k) && IsEndpoint(ents, project, es, uuid, b, l)
    ensures k == l
  {
    assert a == b || (es[a].name == es[b].name && es[a].entityType == es[b].entityType);
    KeyForOnce(ents, project, es, es[a].name, es[a].entityType, k, l);
  }

  lemma MappedKeys(uuidMap: map<string, string>, rows0: seq<Row<EntityAttrs>>, s: Stores, project: string,
                   es: seq<Entity>)
    requires MapsTo(uuidMap, es, s.entities, |rows0|, project, s.nodes) && Keyed(rows0, s.entities, project, es, |es|)
    ensures MapsKeys(uuidMap, rows0, project, es)
  {
    forall a | 0 <= a < |es|
      ensures es[a].uuid in uuidMap && KeyFor(rows0, project, es, es[a].name, es[a].entityType, uuidMap[es[a].uuid])
    {
      assert MappedRow(uuidMap, es[|rows0| + a - |rows0|], s.entities[|rows0| + a], project, s.nodes);
      assert KeyedRow(rows0, s.entities[|rows0| + a], project, es, es[a]);
    }
  }

  // ----- the orchestrator -----

  class Pipeline {
    const entities: VersionTable<EntityAttrs>
    const relations: VersionTable<RelationAttrs>
    var nodes: map<(string, string), AgeNode>
    var edges: map<EdgeKey, AgeEdge>
    var docs: map<string, string>

    ghost function View(): Stores
      reads this, entities, relations
    {
      Stores(entities.rows, relations.rows, nodes, edges, docs)
    }

    constructor ()
      ensures fresh(entities) && fresh(relations)
      ensures View() == Stores([], [], map[], map[], map[])
    {
      entities := new VersionTable();
      relations := new VersionTable();
      nodes, edges, docs := map[], map[], map[];
    }

    /** `_resolve_entity_kuzu_uuid`. */
    method ResolveEntityUuid(project: string, name: string, entityType: string, fallback: string) returns (key: string)
      ensures ResolvesTo(entities.rows, project, name, entityType, fallback, key)
    {
      for i := 0 to |entities.rows|
        invariant forall j :: 0 <= j < i ==> !SameIdentity(entities.rows[j], project, name, entityType)
      {
        if SameIdentity(entities.rows[i], project, name, entityType) {
          return if entities.rows[i].key == "" then fallback else entities.rows[i].key;
        }
      }
      return fallback;
    }

    /** One round of the loop of `_persist_entities`. */
    method PersistEntity(ctx: Context, e: Entity) returns (key: string)
      modifies this, entities
      ensures EntityWritten(old(View()), ctx, e, key, View())
    {
      key := ResolveEntityUuid(ctx.project, e.name, e.entityType, e.uuid);
      var added := entities.Supersede(ctx.project, key, EntityAttrsOf(ctx, e), ctx.refTime, SourceLabel(ctx));
      docs := docs[DocId(key) := DocText(e.name, e.summary)];
      nodes := nodes[(ctx.project, key) := AgeNode(e.name, e.entityType, ctx.refTime)];
    }

    /** `_persist_entities`: the map from extracted to stable uuids. */
    method PersistEntities(ctx: Context, es: seq<Entity>) returns (uuidMap: map<string, string>)
      requires Sound(View()) && FreshBatch(entities.rows, ctx.project, es)
      modifies this, entities
      ensures Sound(View()) && KeepsAgreement(old(View()), View())
      ensures EntityRows(old(entities.rows), entities.rows, ctx, es) && Advances(old(entities.rows), entities.rows)
      ensures Opens(old(entities.rows), entities.rows, ctx.project)
      ensures Keyed(old(entities.rows), entities.rows, ctx.project, es, |es|)
      ensures SameOpenKeys(old(entities.rows), entities.rows) <==>
                forall i :: 0 <= i < |es| ==> KnownOpen(old(entities.rows), ctx.project, es[i])
      ensures edges == old(edges)
      ensures old(EdgesAgree(View())) ==> EdgesAgree(View())
      ensures old(NoEdgeLeft(View())) ==> NoEdgeLeft(View())
      ensures MapsTo(uuidMap, es, entities.rows, |old(entities.rows)|, ctx.project, nodes)
    {
      uuidMap := map[];
      ghost var s0 := View();
      NothingPersisted(s0, ctx, es);
      for n := 0 to |es|
        invariant PersistedSoFar(s0, ctx, es, n, View(), uuidMap)
      {
        ghost var s := View();
        StillFresh(s0.entities, entities.rows, ctx.project, es, n);
        var key := PersistEntity(ctx, es[n]);
        PersistedStep(s0, ctx, es, n, s, uuidMap, key, View());
        uuidMap := uuidMap[es[n].uuid := key];
      }
      assert es[..|es|] == es;
      WellFormedAdvances(s0.entities, entities.rows);
      EntitiesReopenIff(s0.entities, entities.rows, ctx, es);
    }

    /** One round of the loop of `_persist_relations`. */
    method PersistRelation(ctx: Context, r: Relation, src: string, tgt: string)
      modifies this, relations
      ensures RelationWritten(old(View()), ctx, r, src, tgt, View())
    {
      var added := relations.Supersede(ctx.project, RelKey(src, r.relationType, tgt), RelationAttrsOf(ctx, r, src, tgt),
                                       ValidFromOf(ctx, r), SourceLabel(ctx));
      if (ctx.project, src) in nodes && (ctx.project, tgt) in nodes {
        var edge := EdgeKey(ctx.project, src, r.relationType, tgt);
        edges := edges[edge := EdgeOf(r.fact, r.confidence, ValidFromOf(ctx, r))];
      }
    }

    /** `_persist_relations`. */
    method PersistRelations(ctx: Context, rs: seq<Relation>, uuidMap: map<string, string>) returns (count: nat)
      requires Sound(View())
      modifies this, relations
      ensures Sound(View()) && KeepsAgreement(old(View()), View()) && count == |rs|
      ensures nodes == old(nodes) && docs == old(docs)
      ensures RelationRows(old(relations.rows), relations.rows, ctx, rs, uuidMap)
      ensures Opens(old(relations.rows), relations.rows, ctx.project) && Advances(old(relations.rows), relations.rows)
      ensures old(EdgesAgree(View())) && EndpointsKnown(nodes, ctx, rs, uuidMap) ==> EdgesAgree(View())
      ensures old(NoEdgeLeft(View())) && EndpointsKnown(nodes, ctx, rs, uuidMap) ==> NoEdgeLeft(View())
    {
      count := 0;
      ghost var s0 := View();
      OpensNothing(s0.relations, ctx.project);
      for n := 0 to |rs|
        invariant RelatedSoFar(s0, ctx, rs, n, View(), uuidMap) && count == n
      {
        ghost var s := View();
        var src, tgt := Mapped(uuidMap, rs[n].sourceUuid), Mapped(uuidMap, rs[n].targetUuid);
        PersistRelation(ctx, rs[n], src, tgt);
        RelatedStep(s0, ctx, rs, n, s, uuidMap, View());
        count := count + 1;
      }
      assert rs[..|rs|] == rs;
      WellFormedAdvances(s0.relations, relations.rows);
    }

    /** `persist_structured`: both loops over one extraction. The map between them is returned to
      * say which entity rows the relation rows join. */
    method PersistStructured(ctx: Context, x: Extraction) returns (ne: nat, nr: nat, ghost uuidMap: map<string, string>)
      requires Sound(View()) && FreshBatch(entities.rows, ctx.project, x.entities)
      modifies this, entities, relations
      ensures Sound(View()) && KeepsAgreement(old(View()), View()) && ne == |x.entities| && nr == |x.relations|
      ensures EntityRows(old(entities.rows), entities.rows, ctx, x.entities)
      ensures Keyed(old(entities.rows), entities.rows, ctx.project, x.entities, |x.entities|)
      ensures MapsTo(uuidMap, x.entities, entities.rows, |old(entities.rows)|, ctx.project, nodes)
      ensures RelationRows(old(relations.rows), relations.rows, ctx, x.relations, uuidMap)
      ensures Opens(old(entities.rows), entities.rows, ctx.project)
      ensures Opens(old(relations.rows), relations.rows, ctx.project)
      ensures Advances(old(entities.rows), entities.rows) && Advances(old(relations.rows), relations.rows)
      ensures SameOpenKeys(old(entities.rows), entities.rows) <==>
                forall i :: 0 <= i < |x.entities| ==> KnownOpen(old(entities.rows), ctx.project, x.entities[i])
      ensures EndpointsListed(x) ==>
                (SameOpenKeys(old(relations.rows), relations.rows) <==>
                   forall i :: 0 <= i < |x.relations| ==>
                     RelationOpen(old(entities.rows), old(relations.rows), ctx.project, x.entities, x.relations[i]))
      ensures EndpointsListed(x) ==> NewEndpointsOpen(old(relations.rows), relations.rows, entities.rows)
      ensures old(EdgesAgree(View())) && EndpointsListed(x) ==> EdgesAgree(View())
      ensures old(NoEdgeLeft(View())) && EndpointsListed(x) ==> NoEdgeLeft(View())
    {
      ghost var ents, rels := entities.rows, relations.rows;
      var m := PersistEntities(ctx, x.entities);
      uuidMap := m;
      nr := PersistRelations(ctx, x.relations, m);
      ne := |x.entities|;
      if EndpointsListed(x) {
        ListedEndpoints(View(), ctx, x, m, ents, rels);
      }
    }
  }

  /** What both loops have done where the relations name entities of the same result. */
  lemma ListedEndpoints(s: Stores, ctx: Context, x: Extraction, uuidMap: map<string, string>,
                        ents: seq<Row<EntityAttrs>>, rels: seq<Row<RelationAttrs>>)
    requires EndpointsListed(x) && Identified(ents) && FreshBatch(ents, ctx.project, x.entities)
    requires Opens(ents, s.entities, ctx.project) && Keyed(ents, s.entities, ctx.project, x.entities, |x.entities|)
    requires MapsTo(uuidMap, x.entities, s.entities, |ents|, ctx.project, s.nodes)
    requires RelationRows(rels, s.relations, ctx, x.relations, uuidMap) && Opens(rels, s.relations, ctx.project)
    ensures EndpointsKnown(s.nodes, ctx, x.relations, uuidMap)
    ensures NewEndpointsOpen(rels, s.relations, s.entities)
    ensures SameOpenKeys(rels, s.relations) <==>
              forall i :: 0 <= i < |x.relations| ==> RelationOpen(ents, rels, ctx.project, x.entities, x.relations[i])
  {
    EndpointsMapped(s, ctx, x, uuidMap, ents, rels);
    MappedKeys(uuidMap, ents, s, ctx.project, x.entities);
    RelationsReopenIff(ents, rels, s.relations, ctx, x, uuidMap);
  }

  /** Where the entity loop stands after n rounds. */
  ghost predicate PersistedSoFar(s0: Stores, ctx: Context, es: seq<Entity>, n: nat, s: Stores,
                                 uuidMap: map<string, string>)
  {
    n <= |es| && PersistedRows(s0, ctx, es, n, s, uuidMap) && PersistedIndexes(s0, s)
  }

  ghost predicate PersistedRows(s0: Stores, ctx: Context, es: seq<Entity>, n: nat, s: Stores,
                                uuidMap: map<string, string>)
    requires n <= |es|
  {
    && EntityRows(s0.entities, s.entities, ctx, es[..n]) && Opens(s0.entities, s.entities, ctx.project)
    && Keyed(s0.entities, s.entities, ctx.project, es, n)
    && MapsTo(uuidMap, es[..n], s.entities, |s0.entities|, ctx.project, s.nodes)
  }

  ghost predicate PersistedIndexes(s0: Stores, s: Stores) {
    && Sound(s) && KeepsAgreement(s0, s) && s.edges == s0.edges && s.relations == s0.relations
    && (EdgesAgree(s0) ==> EdgesAgree(s)) && (NoEdgeLeft(s0) ==> NoEdgeLeft(s))
  }

  lemma NothingPersisted(s: Stores, ctx: Context, es: seq<Entity>)
    requires Sound(s)
    ensures PersistedSoFar(s, ctx, es, 0, s, map[])
  {
    OpensNothing(s.entities, ctx.project);
    assert es[..0] == [];
  }

  lemma PersistedStep(s0: Stores, ctx: Context, es: seq<Entity>, n: nat, s: Stores, uuidMap: map<string, string>,
                      key: string, s': Stores)
    requires n < |es| && PersistedSoFar(s0, ctx, es, n, s, uuidMap) && FreshBatch(s0.entities, ctx.project, es)
    requires EntityWritten(s, ctx, es[n], key, s')
    ensures PersistedSoFar(s0, ctx, es, n + 1, s', uuidMap[es[n].uuid := key])
  {
    StillFresh(s0.entities, s.entities, ctx.project, es, n);
    RowsPersisted(s0, ctx, es, n, s, uuidMap, key, s');
    IndexesPersisted(s0, ctx, es[n], s, key, s');
  }

  lemma RowsPersisted(s0: Stores, ctx: Context, es: seq<Entity>, n: nat, s: Stores, uuidMap: map<string, string>,
                      key: string, s': Stores)
    requires n < |es| && PersistedRows(s0, ctx, es, n, s, uuidMap) && FreshBatch(s0.entities, ctx.project, es)
    requires Sound(s) && FreshFor(s.entities, ctx.project, es[n]) && EntityWritten(s, ctx, es[n], key, s')
    ensures PersistedRows(s0, ctx, es, n + 1, s', uuidMap[es[n].uuid := key])
  {
    EntityRoundRows(s, ctx, es, n, key, s', s0.entities);
    MapsStep(uuidMap, es, n, s, s', |s0.entities|, ctx, key);
  }

  lemma IndexesPersisted(s0: Stores, ctx: Context, e: Entity, s: Stores, key: string, s': Stores)
    requires PersistedIndexes(s0, s) && FreshFor(s.entities, ctx.project, e) && EntityWritten(s, ctx, e, key, s')
    ensures PersistedIndexes(s0, s')
  {
    EntityKeepsMirrored(s, ctx, e, key, s');
    if NoEdgeLeft(s) {
      EntityKeepsNoEdgeLeft(s, ctx, e, key, s');
    }
  }

  lemma EntityRoundRows(s: Stores, ctx: Context, es: seq<Entity>, n: nat, key: string, s': Stores,
                        rows0: seq<Row<EntityAttrs>>)
    requires n < |es| && Sound(s) && EntityWritten(s, ctx, es[n], key, s')
    requires EntityRows(rows0, s.entities, ctx, es[..n]) && Opens(rows0, s.entities, ctx.project)
    requires Keyed(rows0, s.entities, ctx.project, es, n) && FreshFor(s.entities, ctx.project, es[n])
    ensures EntityRows(rows0, s'.entities, ctx, es[..n + 1]) && Opens(rows0, s'.entities, ctx.project)
    ensures Keyed(rows0, s'.entities, ctx.project, es, n + 1)
    ensures |s'.entities| == |s.entities| + 1 && s'.entities[|s.entities|].key == key
    ensures SameIdentity(s'.entities[|s.entities|], ctx.project, es[n].name, es[n].entityType)
    ensures Extends(s.entities, s'.entities)
    ensures forall i ::
              0 <= i < |s.entities| && SameIdentity(s.entities[i], ctx.project, es[n].name, es[n].entityType) ==>
              s.entities[i].key == key
  {
    var r := WrittenIsAdded(s, ctx, es[n], key, s');
    OpensStep(rows0, s.entities, s'.entities, r);
    KeyedStep(rows0, s.entities, s'.entities, ctx.project, es, n, r);
    EntityRowsStep(rows0, s.entities, s'.entities, ctx, es, n, r);
  }

  lemma EntityRowsStep(rows0: seq<Row<EntityAttrs>>, rows: seq<Row<EntityAttrs>>, rows': seq<Row<EntityAttrs>>,
                       ctx: Context, es: seq<Entity>, n: nat, r: Row<EntityAttrs>)
    requires n < |es| && EntityRows(rows0, rows, ctx, es[..n]) && Appended(rows, rows', r) && IsEntityRow(r, ctx, es[n])
    ensures EntityRows(rows0, rows', ctx, es[..n + 1])
  {
    forall i | |rows0| <= i < |rows'| ensures IsEntityRow(rows'[i], ctx, es[..n + 1][i - |rows0|]) {
      assert i < |rows| ==> IsEntityRow(rows[i], ctx, es[..n][i - |rows0|]);
    }
  }

  /** Where the relation loop stands after n rounds. */
  ghost predicate RelatedSoFar(s0: Stores, ctx: Context, rs: seq<Relation>, n: nat, s: Stores,
                               uuidMap: map<string, string>)
  {
    && n <= |rs| && RelationRows(s0.relations, s.relations, ctx, rs[..n], uuidMap)
    && Opens(s0.relations, s.relations, ctx.project)
    && s.nodes == s0.nodes && s.docs == s0.docs && s.entities == s0.entities
    && Sound(s) && KeepsAgreement(s0, s)
    && (EndpointsKnown(s0.nodes, ctx, rs, uuidMap) ==>
          (EdgesAgree(s0) ==> EdgesAgree(s)) && (NoEdgeLeft(s0) ==> NoEdgeLeft(s)))
  }

  lemma RelatedStep(s0: Stores, ctx: Context, rs: seq<Relation>, n: nat, s: Stores, uuidMap: map<string, string>,
                    s': Stores)
    requires n < |rs| && RelatedSoFar(s0, ctx, rs, n, s, uuidMap)
    requires RelationWritten(s, ctx, rs[n], Mapped(uuidMap, rs[n].sourceUuid), Mapped(uuidMap, rs[n].targetUuid), s')
    ensures RelatedSoFar(s0, ctx, rs, n + 1, s', uuidMap)
  {
    var src, tgt := Mapped(uuidMap, rs[n].sourceUuid), Mapped(uuidMap, rs[n].targetUuid);
    RelationKeepsSound(s, ctx, rs[n], src, tgt, s');
    RelationRoundRows(s, ctx, rs, n, uuidMap, s', s0.relations);
    if EndpointsKnown(s0.nodes, ctx, rs, uuidMap) {
      if EdgesAgree(s) { JoiningKeepsEdges(s, ctx, rs[n], src, tgt, s'); }
      if NoEdgeLeft(s) { RelationKeepsNoEdgeLeft(s, ctx, rs[n], src, tgt, s'); }
    }
  }

  lemma RelationRoundRows(s: Stores, ctx: Context, rs: seq<Relation>, n: nat, uuidMap: map<string, string>, s': Stores,
                          rows0: seq<Row<RelationAttrs>>)
    requires n < |rs| && WellFormed(s.relations)
    requires RelationWritten(s, ctx, rs[n], Mapped(uuidMap, rs[n].sourceUuid), Mapped(uuidMap, rs[n].targetUuid), s')
    requires RelationRows(rows0, s.relations, ctx, rs[..n], uuidMap) && Opens(rows0, s.relations, ctx.project)
    ensures RelationRows(rows0, s'.relations, ctx, rs[..n + 1], uuidMap) && Opens(rows0, s'.relations, ctx.project)
  {
    var src, tgt := Mapped(uuidMap, rs[n].sourceUuid), Mapped(uuidMap, rs[n].targetUuid);
    var row := RelationIsAdded(s, ctx, rs[n], src, tgt, s');
    OpensStep(rows0, s.relations, s'.relations, row);
    assert rs[..n + 1] == rs[..n] + [rs[n]];
  }

  // ----- endpoints -----

  ghost predicate EndpointsKnown(nodes: map<(string, string), AgeNode>, ctx: Context, rs: seq<Relation>,
                                 uuidMap: map<string, string>) {
    forall i :: 0 <= i < |rs| ==>
      (ctx.project, Mapped(uuidMap, rs[i].sourceUuid)) in nodes
        && (ctx.project, Mapped(uuidMap, rs[i].targetUuid)) in nodes
  }

  predicate HasUuid(es: seq<Entity>, u: string) {
    exists i :: 0 <= i < |es| && es[i].uuid == u
  }

  /** The relations only name entities of the same result. */
  ghost predicate EndpointsListed(x: Extraction) {
    forall i :: 0 <= i < |x.relations| ==>
      HasUuid(x.entities, x.relations[i].sourceUuid) && HasUuid(x.entities, x.relations[i].targetUuid)
  }

  /** The added relation rows point at entities of their project that are in force. */
  ghost predicate NewEndpointsOpen(rows: seq<Row<RelationAttrs>>, rows': seq<Row<RelationAttrs>>,
                                   entities: seq<Row<EntityAttrs>>) {
    forall i :: |rows| <= i < |rows'| ==> EndpointsOpen(rows'[i], entities)
  }

  predicate EndpointsOpen(r: Row<RelationAttrs>, entities: seq<Row<EntityAttrs>>) {
    HasOpen(entities, r.project, r.attrs.source) && HasOpen(entities, r.project, r.attrs.target)
  }

  lemma EndpointsMapped(s: Stores, ctx: Context, x: Extraction, uuidMap: map<string, string>,
                        ents0: seq<Row<EntityAttrs>>, rels0: seq<Row<RelationAttrs>>)
    requires EndpointsListed(x) && Opens(ents0, s.entities, ctx.project)
    requires MapsTo(uuidMap, x.entities, s.entities, |ents0|, ctx.project, s.nodes)
    requires RelationRows(rels0, s.relations, ctx, x.relations, uuidMap)
    ensures EndpointsKnown(s.nodes, ctx, x.relations, uuidMap)
    ensures NewEndpointsOpen(rels0, s.relations, s.entities)
  {
    forall i | 0 <= i < |x.relations|
      ensures IsWrittenKey(s, ctx.project, Mapped(uuidMap, x.relations[i].sourceUuid))
      ensures IsWrittenKey(s, ctx.project, Mapped(uuidMap, x.relations[i].targetUuid))
    {
      EndpointWritten(s, ctx.project, x.entities, uuidMap, ents0, x.relations[i].sourceUuid);
      EndpointWritten(s, ctx.project, x.entities, uuidMap, ents0, x.relations[i].targetUuid);
    }
    forall i | |rels0| <= i < |s.relations| ensures EndpointsOpen(s.relations[i], s.entities) {
      var j := i - |rels0|;
      assert IsRelationRow(s.relations[i], ctx, x.relations[j], uuidMap);
      assert IsWrittenKey(s, ctx.project, Mapped(uuidMap, x.relations[j].sourceUuid));
    }
  }

  /** A graph node with an open row. */
  predicate IsWrittenKey(s: Stores, project: string, key: string) {
    (project, key) in s.nodes && HasOpen(s.entities, project, key)
  }

  lemma EndpointWritten(s: Stores, project: string, es: seq<Entity>, uuidMap: map<string, string>,
                        ents0: seq<Row<EntityAttrs>>, uuid: string)
    requires HasUuid(es, uuid) && Opens(ents0, s.entities, project)
    requires MapsTo(uuidMap, es, s.entities, |ents0|, project, s.nodes)
    ensures IsWrittenKey(s, project, Mapped(uuidMap, uuid))
  {
    var a :| 0 <= a < |es| && es[a].uuid == uuid;
    var base := |ents0|;
    assert MappedRow(uuidMap, es[base + a - base], s.entities[base + a], project, s.nodes);
    assert AddedKey(ents0, s.entities, s.entities[base + a].key);
  }

  lemma OpensTwice<A>(rows0: seq<Row<A>>, rows: seq<Row<A>>, rows': seq<Row<A>>, p: string)
    requires Opens(rows0, rows, p) && Opens(rows, rows', p) && Extends(rows, rows')
    ensures Opens(rows0, rows', p)
  {
    forall l ensures AddedKey(rows0, rows', l) <==> AddedKey(rows0, rows, l) || AddedKey(rows, rows', l) {
      if AddedKey(rows0, rows, l) {
        var i :| |rows0| <= i < |rows| && rows[i].key == l;
        assert rows'[i].key == l;
      }
      if AddedKey(rows0, rows', l) {
        var i :| |rows0| <= i < |rows'| && rows'[i].key == l;
        assert i < |rows| ==> rows[i].key == l;
      }
    }
  }

  lemma EndpointsStayOpen(rels0: seq<Row<RelationAttrs>>, rels: seq<Row<RelationAttrs>>, rels': seq<Row<RelationAttrs>>,
                          rows: seq<Row<EntityAttrs>>, rows': seq<Row<EntityAttrs>>, project: string)
    requires |rels0| <= |rels| && Extends(rels, rels') && Opens(rows, rows', project)
    requires NewEndpointsOpen(rels0, rels, rows) && NewEndpointsOpen(rels, rels', rows')
    ensures NewEndpointsOpen(rels0, rels', rows')
  {
    forall i | |rels0| <= i < |rels'| ensures EndpointsOpen(rels'[i], rows') {
      if i < |rels| {
        assert EndpointsOpen(rels[i], rows);
      }
    }
  }
}
