/** core/services/bulk_ingest.py: records of named entities and relations, written through the
  * orchestrator, and what writing them again does. */
module BulkIngest {
  import opened Wrappers
  import opened Temporal
  import opened TemporalRuns
  import opened Ingest
  import opened Orchestrator

  // ----- bulk records -----

  /** `uuid` is the value the dataclass draws when the entity object is made. */
  datatype BulkEntity = BulkEntity(name: string, entityType: string, summary: Option<string>,
    attributes: Option<string>, uuid: string)

  datatype BulkRelation = BulkRelation(source: string, target: string, relationType: string, fact: Option<string>,
                                       confidence: Option<real>, validFrom: Option<int>, uuid: string)

  datatype BulkRecord = BulkRecord(episodeId: string, validFrom: Option<int>, entities: seq<BulkEntity>,
    relations: seq<BulkRelation>)

  function EntityOf(e: BulkEntity): Entity {
    Entity(e.name, e.entityType, e.summary, e.attributes, e.uuid)
  }

  predicate Named(es: seq<BulkEntity>, name: string) {
    exists i :: 0 <= i < |es| && es[i].name == name
  }

  /** Relations whose two endpoint names the record defines; the others are dropped. */
  function Known(es: seq<BulkEntity>, rs: seq<BulkRelation>): seq<BulkRelation> {
    if |rs| == 0 then []
    else
      var r := rs[|rs| - 1];
      Known(es, rs[..|rs| - 1]) + (if Named(es, r.source) && Named(es, r.target) then [r] else [])
  }

  function EntityTotal(records: seq<BulkRecord>): nat {
    if |records| == 0 then 0 else EntityTotal(records[..|records| - 1]) + |records[|records| - 1].entities|
  }

  function RelationTotal(records: seq<BulkRecord>): nat {
    if |records| == 0 then 0
    else
      var last := records[|records| - 1];
      RelationTotal(records[..|records| - 1]) + |Known(last.entities, last.relations)|
  }

  /** The last entity of the record with that name, as the dict keeps it. */
  predicate IsLast(es: seq<BulkEntity>, name: string, i: int) {
    0 <= i < |es| && es[i].name == name && forall j :: i < j < |es| ==> es[j].name != name
  }

  ghost predicate LastNamed(es: seq<BulkEntity>, name: string, e: Entity) {
    exists i :: IsLast(es, name, i) && e == EntityOf(es[i])
  }

  ghost predicate IsBuilt(es: seq<BulkEntity>, b: BulkRelation, refTime: int, r: Relation) {
    exists src, tgt :: LastNamed(es, b.source, src) && LastNamed(es, b.target, tgt)
      && r == BuiltRelation(b, src, tgt, refTime)
  }

  function BuiltRelation(b: BulkRelation, src: Entity, tgt: Entity, refTime: int): Relation {
    Relation(src.uuid, tgt.uuid, b.relationType, b.fact, Some(src.name), Some(tgt.name), b.confidence, b.uuid,
             Some(b.validFrom.GetOr(refTime)))
  }

  /** The two inner loops of `ingest_bulk`: the name map, then the relations with known endpoints. */
  method BuildExtraction(record: BulkRecord, refTime: int, extractor: string) returns (x: Extraction)
    ensures x.extractor == extractor && |x.entities| == |record.entities|
    ensures forall i :: 0 <= i < |x.entities| ==> x.entities[i] == EntityOf(record.entities[i])
    ensures AllBuilt(record.entities, Known(record.entities, record.relations), refTime, x.relations)
    ensures EndpointsListed(x)
  {
    var es, rs := record.entities, record.relations;
    var entities, name2ent := NameMap(es);
    var relations := BuildRelations(es, rs, refTime, name2ent);
    x := Extraction(entities, relations, extractor);
    forall i | 0 <= i < |x.relations|
      ensures HasUuid(x.entities, x.relations[i].sourceUuid) && HasUuid(x.entities, x.relations[i].targetUuid)
    {
      BuiltListed(es, Known(es, rs)[i], refTime, x.relations[i], x.entities);
    }
  }

  /** Relation i of the extraction is made from the i-th known relation of the record. */
  ghost predicate AllBuilt(es: seq<BulkEntity>, bs: seq<BulkRelation>, refTime: int, rs: seq<Relation>) {
    |rs| == |bs| && forall i :: 0 <= i < |rs| ==> IsBuilt(es, bs[i], refTime, rs[i])
  }

  method BuildRelations(ghost es: seq<BulkEntity>, bs: seq<BulkRelation>, refTime: int, name2ent: map<string, Entity>)
    returns (rs: seq<Relation>)
    requires forall name :: name in name2ent <==> Named(es, name)
    requires forall name :: name in name2ent ==> LastNamed(es, name, name2ent[name])
    ensures AllBuilt(es, Known(es, bs), refTime, rs)
  {
    rs := [];
    for i := 0 to |bs|
      invariant AllBuilt(es, Known(es, bs[..i]), refTime, rs)
    {
      var b := bs[i];
      assert bs[..i + 1][..i] == bs[..i];
      if b.source in name2ent && b.target in name2ent {
        var src, tgt := name2ent[b.source], name2ent[b.target];
        var r := BuiltRelation(b, src, tgt, refTime);
        assert IsBuilt(es, b, refTime, r);
        rs := rs + [r];
      }
    }
    assert bs[..|bs|] == bs;
  }

  /** The entity loop of one record: its entities and the dict from name to entity. */
  method NameMap(es: seq<BulkEntity>) returns (entities: seq<Entity>, name2ent: map<string, Entity>)
    ensures |entities| == |es| && forall i :: 0 <= i < |es| ==> entities[i] == EntityOf(es[i])
    ensures forall name :: name in name2ent <==> Named(es, name)
    ensures forall name :: name in name2ent ==> LastNamed(es, name, name2ent[name])
  {
    entities := [];
    name2ent := map[];
    for i := 0 to |es|
      invariant |entities| == i && forall j :: 0 <= j < i ==> entities[j] == EntityOf(es[j])
      invariant forall name :: name in name2ent <==> Named(es[..i], name)
      invariant forall name :: name in name2ent ==> LastNamed(es[..i], name, name2ent[name])
    {
      var ee := EntityOf(es[i]);
      entities := entities + [ee];
      NamedStep(es, i);
      name2ent := name2ent[es[i].name := ee];
    }
    assert es[..|es|] == es;
  }

  lemma BuiltListed(es: seq<BulkEntity>, b: BulkRelation, refTime: int, r: Relation, entities: seq<Entity>)
    requires IsBuilt(es, b, refTime, r)
    requires |entities| == |es| && forall i :: 0 <= i < |es| ==> entities[i] == EntityOf(es[i])
    ensures HasUuid(entities, r.sourceUuid) && HasUuid(entities, r.targetUuid)
  {
    var src, tgt :| LastNamed(es, b.source, src) && LastNamed(es, b.target, tgt) && r.sourceUuid == src.uuid
      && r.targetUuid == tgt.uuid;
    var i :| IsLast(es, b.source, i) && src == EntityOf(es[i]);
    var j :| IsLast(es, b.target, j) && tgt == EntityOf(es[j]);
    assert entities[i].uuid == r.sourceUuid && entities[j].uuid == r.targetUuid;
  }

  lemma NamedStep(es: seq<BulkEntity>, i: nat)
    requires i < |es|
    ensures forall name :: Named(es[..i + 1], name) <==> Named(es[..i], name) || es[i].name == name
    ensures LastNamed(es[..i + 1], es[i].name, EntityOf(es[i]))
    ensures forall name, e :: LastNamed(es[..i], name, e) && name != es[i].name ==> LastNamed(es[..i + 1], name, e)
  {
    var a, b := es[..i], es[..i + 1];
    assert b == a + [es[i]];
    assert b[i] == es[i] && IsLast(b, es[i].name, i);
    forall name ensures Named(b, name) <==> Named(a, name) || es[i].name == name {
      if Named(a, name) { var j :| 0 <= j < |a| && a[j].name == name; assert b[j].name == name; }
      if Named(b, name) && es[i].name != name { var j :| 0 <= j < |b| && b[j].name == name; assert a[j].name == name; }
    }
    forall name, e | LastNamed(a, name, e) && name != es[i].name ensures LastNamed(b, name, e) {
      var j :| IsLast(a, name, j) && e == EntityOf(a[j]);
      assert b[j] == a[j];
      forall m | j < m < |b| ensures b[m].name != name { assert m < |a| ==> b[m] == a[m]; }
      assert IsLast(b, name, j);
    }
  }

  /** The uuids drawn for the records: non-empty, all different, and no key of the table. */
  ghost predicate FreshRecords(rows: seq<Row<EntityAttrs>>, records: seq<BulkRecord>) {
    && (forall a, i :: IsEntityAt(records, a, i) ==> UnusedUuid(rows, records[a].entities[i].uuid))
    && forall a, i, b, j :: IsEntityAt(records, a, i) && IsEntityAt(records, b, j) ==>
         (records[a].entities[i].uuid == records[b].entities[j].uuid ==> a == b && i == j)
  }

  predicate IsEntityAt(records: seq<BulkRecord>, a: int, i: int) {
    0 <= a < |records| && 0 <= i < |records[a].entities|
  }

  predicate UnusedUuid(rows: seq<Row<EntityAttrs>>, u: string) {
    u != "" && forall i :: 0 <= i < |rows| ==> rows[i].key != u
  }

  lemma FreshRecordBatch(rows: seq<Row<EntityAttrs>>, records: seq<BulkRecord>, project: string, es: seq<Entity>)
    requires FreshRecords(rows, records) && |records| > 0 && |es| == |records[0].entities|
    requires forall i :: 0 <= i < |es| ==> es[i] == EntityOf(records[0].entities[i])
    ensures FreshBatch(rows, project, es)
  {
    forall i | 0 <= i < |es| ensures FreshFor(rows, project, es[i]) {
      assert UnusedUuid(rows, records[0].entities[i].uuid);
    }
    forall i, j | 0 <= i < j < |es| ensures es[i].uuid != es[j].uuid {
      assert records[0].entities[i].uuid != records[0].entities[j].uuid;
    }
  }

  lemma FreshRecordsLater(rows: seq<Row<EntityAttrs>>, rows': seq<Row<EntityAttrs>>, records: seq<BulkRecord>,
                          project: string, es: seq<Entity>)
    requires FreshRecords(rows, records) && |records| > 0 && |es| == |records[0].entities|
    requires forall i :: 0 <= i < |es| ==> es[i] == EntityOf(records[0].entities[i])
    requires Keyed(rows, rows', project, es, |es|)
    ensures FreshRecords(rows', records[1..])
  {
    var later := records[1..];
    forall a, i | 0 <= a < |later| && 0 <= i < |later[a].entities|
      ensures UnusedUuid(rows', later[a].entities[i].uuid)
    {
      assert later[a] == records[a + 1];
      StillUnused(rows, rows', records, project, es, a + 1, i);
    }
    forall a, i, b, j | 0 <= a < |later| && 0 <= i < |later[a].entities| && 0 <= b < |later|
      && 0 <= j < |later[b].entities|
        && later[a].entities[i].uuid == later[b].entities[j].uuid
      ensures a == b && i == j
    {
      assert later[a] == records[a + 1] && later[b] == records[b + 1];
    }
  }

  lemma StillUnused(rows: seq<Row<EntityAttrs>>, rows': seq<Row<EntityAttrs>>, records: seq<BulkRecord>,
                    project: string, es: seq<Entity>, a: nat, i: nat)
    requires FreshRecords(rows, records) && 0 < a < |records| && i < |records[a].entities|
    requires |es| == |records[0].entities| && forall j :: 0 <= j < |es| ==> es[j] == EntityOf(records[0].entities[j])
    requires Keyed(rows, rows', project, es, |es|)
    ensures UnusedUuid(rows', records[a].entities[i].uuid)
  {
    var u := records[a].entities[i].uuid;
    assert UnusedUuid(rows, u);
    forall k | 0 <= k < |rows'| ensures rows'[k].key != u {
      if k >= |rows| {
        var e := es[k - |rows|];
        assert KeyedRow(rows, rows'[|rows| + (k - |rows|)], project, es, e);
        if !HasIdentity(rows, project, e.name, e.entityType) {
          var j :| FirstNamed(es, e.name, e.entityType, j) && es[j].uuid == rows'[k].key;
          assert es[j].uuid == records[0].entities[j].uuid;
        }
      }
    }
  }

  // ----- what a bulk request writes -----

  /** The request's fields that apply to all of its records, and the clock. */
  datatype Bulk = Bulk(project: string, tenantId: string, source: string, defaultFrom: Option<int>, now: int)

  function ContextOf(b: Bulk, record: BulkRecord): Context {
    Context(b.project, b.tenantId, record.episodeId, record.validFrom.GetOr(b.defaultFrom.GetOr(b.now)),
      "bulk:" + b.source)
  }

  /** The row of a bulk relation between the entities with the keys src and tgt. */
  predicate IsBulkRow(row: Row<RelationAttrs>, ctx: Context, b: BulkRelation, src: string, tgt: string) {
    && row.project == ctx.project && row.key == RelKey(src, b.relationType, tgt)
    && row.attrs == RelationAttrs(ctx.tenantId, b.relationType, b.fact, src, tgt, Some(b.source), Some(b.target),
                                  b.confidence, b.uuid, ctx.episodeId)
    && row.validFrom == b.validFrom.GetOr(ctx.refTime) && row.source == SourceLabel(ctx)
  }

  /** The row joins the rows of the last entities of the record with the two names; the record's
    * entity rows start at base. */
  ghost predicate JoinsNamed(row: Row<RelationAttrs>, ctx: Context, es: seq<BulkEntity>, b: BulkRelation,
                             ents: seq<Row<EntityAttrs>>, base: nat)
  {
    exists i, j :: IsLast(es, b.source, i) && IsLast(es, b.target, j) && base + |es| <= |ents|
      && IsBulkRow(row, ctx, b, ents[base + i].key, ents[base + j].key)
  }

  /** The record's entities have their rows from eb on, in order, and its known relations have
    * theirs from rb on. */
  ghost predicate RecordWritten(ents: seq<Row<EntityAttrs>>, rels: seq<Row<RelationAttrs>>, eb: nat, rb: nat,
                                ctx: Context, record: BulkRecord)
  {
    var known := Known(record.entities, record.relations);
    && eb + |record.entities| <= |ents| && rb + |known| <= |rels|
    && (forall i :: 0 <= i < |record.entities| ==> IsEntityRow(ents[eb + i], ctx, EntityOf(record.entities[i])))
    && forall i :: 0 <= i < |known| ==> JoinsNamed(rels[rb + i], ctx, record.entities, known[i], ents, eb)
  }

  /** The first n records are written, one after the other, behind the rows of s0. */
  ghost predicate RecordsWritten(s0: Stores, b: Bulk, records: seq<BulkRecord>, n: nat, s: Stores) {
    && n <= |records|
    && |s.entities| == EntityBase(s0, records, n) && |s.relations| == RelationBase(s0, records, n)
    && forall m :: 0 <= m < n ==> WrittenAt(s0, b, records, m, s)
  }

  /** Where the rows of record m begin. */
  function EntityBase(s0: Stores, records: seq<BulkRecord>, m: nat): nat
    requires m <= |records|
  {
    |s0.entities| + EntityTotal(records[..m])
  }

  function RelationBase(s0: Stores, records: seq<BulkRecord>, m: nat): nat
    requires m <= |records|
  {
    |s0.relations| + RelationTotal(records[..m])
  }

  ghost predicate WrittenAt(s0: Stores, b: Bulk, records: seq<BulkRecord>, m: nat, s: Stores)
    requires m < |records|
  {
    RecordWritten(s.entities, s.relations, EntityBase(s0, records, m), RelationBase(s0, records, m),
                  ContextOf(b, records[m]), records[m])
  }

  /** Where a bulk ingest stands after n records: what it wrote, that it kept all there was, which
    * keys it opened, and that its relations join open entities. */
  ghost predicate Ingesting(s0: Stores, b: Bulk, records: seq<BulkRecord>, n: nat, s: Stores) {
    && Sound(s0) && Sound(s) && KeepsAgreement(s0, s) && RecordsWritten(s0, b, records, n, s)
    && Extends(s0.entities, s.entities) && Extends(s0.relations, s.relations)
    && Opens(s0.entities, s.entities, b.project) && Opens(s0.relations, s.relations, b.project)
    && Advances(s0.entities, s.entities) && Advances(s0.relations, s.relations)
    && NewEndpointsOpen(s0.relations, s.relations, s.entities)
  }

  ghost predicate Ingested(s0: Stores, b: Bulk, records: seq<BulkRecord>, s: Stores) {
    Ingesting(s0, b, records, |records|, s)
  }

  /** What `persist_structured` says of the extraction, said of the record. */
  lemma RecordIsWritten(s: Stores, s': Stores, ctx: Context, record: BulkRecord, x: Extraction,
                        uuidMap: map<string, string>)
    requires |x.entities| == |record.entities|
    requires forall i :: 0 <= i < |x.entities| ==> x.entities[i] == EntityOf(record.entities[i])
    requires AllBuilt(record.entities, Known(record.entities, record.relations), ctx.refTime, x.relations)
    requires EntityRows(s.entities, s'.entities, ctx, x.entities)
    requires MapsTo(uuidMap, x.entities, s'.entities, |s.entities|, ctx.project, s'.nodes)
    requires RelationRows(s.relations, s'.relations, ctx, x.relations, uuidMap)
    ensures RecordWritten(s'.entities, s'.relations, |s.entities|, |s.relations|, ctx, record)
  {
    var known := Known(record.entities, record.relations);
    forall i | 0 <= i < |record.entities|
      ensures IsEntityRow(s'.entities[|s.entities| + i], ctx, EntityOf(record.entities[i]))
    {
      assert IsEntityRow(s'.entities[|s.entities| + i], ctx, x.entities[|s.entities| + i - |s.entities|]);
    }
    forall i | 0 <= i < |known|
      ensures JoinsNamed(s'.relations[|s.relations| + i], ctx, record.entities, known[i], s'.entities, |s.entities|)
    {
      assert IsRelationRow(s'.relations[|s.relations| + i], ctx, x.relations[|s.relations| + i - |s.relations|],
        uuidMap);
      BuiltJoins(s, s', ctx, record.entities, known[i], x, i, uuidMap);
    }
  }

  lemma BuiltJoins(s: Stores, s': Stores, ctx: Context, es: seq<BulkEntity>, b: BulkRelation, x: Extraction, i: nat,
                   uuidMap: map<string, string>)
    requires i < |x.relations| && IsBuilt(es, b, ctx.refTime, x.relations[i])
    requires |x.entities| == |es| && forall j :: 0 <= j < |es| ==> x.entities[j] == EntityOf(es[j])
    requires |s.relations| + i < |s'.relations|
    requires IsRelationRow(s'.relations[|s.relations| + i], ctx, x.relations[i], uuidMap)
    requires MapsTo(uuidMap, x.entities, s'.entities, |s.entities|, ctx.project, s'.nodes)
    ensures JoinsNamed(s'.relations[|s.relations| + i], ctx, es, b, s'.entities, |s.entities|)
  {
    var src, tgt :| LastNamed(es, b.source, src) && LastNamed(es, b.target, tgt)
      && x.relations[i] == BuiltRelation(b, src, tgt, ctx.refTime);
    var j := LastIsMapped(s, s', ctx, es, x, uuidMap, b.source, src);
    var k := LastIsMapped(s, s', ctx, es, x, uuidMap, b.target, tgt);
    BuiltRow(s'.relations[|s.relations| + i], ctx, b, src, tgt, uuidMap);
  }

  /** The row of a built relation, in terms of the record. */
  lemma BuiltRow(row: Row<RelationAttrs>, ctx: Context, b: BulkRelation, src: Entity, tgt: Entity,
                 uuidMap: map<string, string>)
    requires src.name == b.source && tgt.name == b.target
    requires IsRelationRow(row, ctx, BuiltRelation(b, src, tgt, ctx.refTime), uuidMap)
    ensures IsBulkRow(row, ctx, b, Mapped(uuidMap, src.uuid), Mapped(uuidMap, tgt.uuid))
  {
  }

  lemma LastIsMapped(s: Stores, s': Stores, ctx: Context, es: seq<BulkEntity>, x: Extraction,
                     uuidMap: map<string, string>, name: string, e: Entity) returns (j: nat)
    requires |x.entities| == |es| && forall i :: 0 <= i < |es| ==> x.entities[i] == EntityOf(es[i])
    requires MapsTo(uuidMap, x.entities, s'.entities, |s.entities|, ctx.project, s'.nodes) && LastNamed(es, name, e)
    ensures IsLast(es, name, j) && e.name == name && |s.entities| + |es| <= |s'.entities|
    ensures Mapped(uuidMap, e.uuid) == s'.entities[|s.entities| + j].key
  {
    j :| IsLast(es, name, j) && e == EntityOf(es[j]);
    var base := |s.entities|;
    assert MappedRow(uuidMap, x.entities[base + j - base], s'.entities[base + j], ctx.project, s'.nodes);
  }

  lemma RecordStays(ents: seq<Row<EntityAttrs>>, rels: seq<Row<RelationAttrs>>, ents': seq<Row<EntityAttrs>>,
                    rels': seq<Row<RelationAttrs>>, eb: nat, rb: nat, ctx: Context, record: BulkRecord)
    requires Extends(ents, ents') && Extends(rels, rels') && RecordWritten(ents, rels, eb, rb, ctx, record)
    ensures RecordWritten(ents', rels', eb, rb, ctx, record)
  {
    var known := Known(record.entities, record.relations);
    forall i | 0 <= i < |record.entities| ensures IsEntityRow(ents'[eb + i], ctx, EntityOf(record.entities[i])) {
      assert IsEntityRow(ents[eb + i], ctx, EntityOf(record.entities[i]));
    }
    forall i | 0 <= i < |known| ensures JoinsNamed(rels'[rb + i], ctx, record.entities, known[i], ents', eb) {
      assert JoinsNamed(rels[rb + i], ctx, record.entities, known[i], ents, eb);
      var j, k :| IsLast(record.entities, known[i].source, j) && IsLast(record.entities, known[i].target, k)
        && IsBulkRow(rels[rb + i], ctx, known[i], ents[eb + j].key, ents[eb + k].key);
      assert IsBulkRow(rels'[rb + i], ctx, known[i], ents'[eb + j].key, ents'[eb + k].key);
    }
  }

  lemma RecordsStep(s0: Stores, b: Bulk, records: seq<BulkRecord>, n: nat, s: Stores, s': Stores)
    requires n < |records| && RecordsWritten(s0, b, records, n, s)
    requires Extends(s.entities, s'.entities) && Extends(s.relations, s'.relations)
    requires RecordWritten(s'.entities, s'.relations, |s.entities|, |s.relations|, ContextOf(b, records[n]), records[n])
    requires |s'.entities| == |s.entities| + |records[n].entities|
    requires |s'.relations| == |s.relations| + |Known(records[n].entities, records[n].relations)|
    ensures RecordsWritten(s0, b, records, n + 1, s')
  {
    assert records[..n + 1][..n] == records[..n];
    forall m | 0 <= m < n + 1 ensures WrittenAt(s0, b, records, m, s') {
      if m < n {
        WrittenStays(s0, b, records, m, s, s');
      }
    }
  }

  lemma WrittenStays(s0: Stores, b: Bulk, records: seq<BulkRecord>, m: nat, s: Stores, s': Stores)
    requires m < |records| && WrittenAt(s0, b, records, m, s)
    requires Extends(s.entities, s'.entities) && Extends(s.relations, s'.relations)
    ensures WrittenAt(s0, b, records, m, s')
  {
    RecordStays(s.entities, s.relations, s'.entities, s'.relations, EntityBase(s0, records, m),
                RelationBase(s0, records, m), ContextOf(b, records[m]), records[m]);
  }

  lemma IngestingStep(s0: Stores, b: Bulk, records: seq<BulkRecord>, n: nat, s: Stores, s': Stores)
    requires n < |records| && Ingesting(s0, b, records, n, s) && Sound(s') && KeepsAgreement(s, s')
    requires RecordsWritten(s0, b, records, n + 1, s')
    requires Extends(s.entities, s'.entities) && Extends(s.relations, s'.relations)
    requires Opens(s.entities, s'.entities, b.project) && Opens(s.relations, s'.relations, b.project)
    requires NewEndpointsOpen(s.relations, s'.relations, s'.entities)
    ensures Ingesting(s0, b, records, n + 1, s')
  {
    OpensTwice(s0.entities, s.entities, s'.entities, b.project);
    OpensTwice(s0.relations, s.relations, s'.relations, b.project);
    ExtendsTwice(s0.entities, s.entities, s'.entities);
    ExtendsTwice(s0.relations, s.relations, s'.relations);
    WellFormedAdvances(s0.entities, s'.entities);
    WellFormedAdvances(s0.relations, s'.relations);
    EndpointsStayOpen(s0.relations, s.relations, s'.relations, s.entities, s'.entities, b.project);
  }

  lemma ExtendsTwice<A>(rows0: seq<Row<A>>, rows: seq<Row<A>>, rows': seq<Row<A>>)
    requires Extends(rows0, rows) && Extends(rows, rows')
    ensures Extends(rows0, rows')
  {
  }

  /** `ingest_bulk`: one extraction per record, then the totals. */
  method IngestBulk(p: Pipeline, b: Bulk, records: seq<BulkRecord>)
    returns (episodes: nat, entityTotal: nat, relationTotal: nat)
    requires Sound(p.View()) && FreshRecords(p.entities.rows, records)
    modifies p, p.entities, p.relations
    ensures Ingested(old(p.View()), b, records, p.View())
    ensures old(EdgesAgree(p.View())) ==> EdgesAgree(p.View())
    ensures old(NoEdgeLeft(p.View())) ==> NoEdgeLeft(p.View())
    ensures episodes == |records| && entityTotal == EntityTotal(records) && relationTotal == RelationTotal(records)
  {
    episodes, entityTotal, relationTotal := 0, 0, 0;
    ghost var s0 := p.View();
    OpensNothing(p.entities.rows, b.project);
    OpensNothing(p.relations.rows, b.project);
    for n := 0 to |records|
      invariant Ingesting(s0, b, records, n, p.View()) && (EdgesAgree(s0) ==> EdgesAgree(p.View()))
      invariant NoEdgeLeft(s0) ==> NoEdgeLeft(p.View())
      invariant episodes == n && entityTotal == EntityTotal(records[..n])
      invariant relationTotal == RelationTotal(records[..n])
      invariant FreshRecords(p.entities.rows, records[n..])
    {
      episodes := episodes + 1;
      var ne, nr := IngestRecord(p, b, records, n, s0);
      assert records[..n + 1][..n] == records[..n];
      entityTotal := entityTotal + ne;
      relationTotal := relationTotal + nr;
    }
    assert records[..|records|] == records;
  }

  /** The body of that loop: the extraction of record n, written. */
  method IngestRecord(p: Pipeline, b: Bulk, records: seq<BulkRecord>, n: nat, ghost s0: Stores)
    returns (ne: nat, nr: nat)
    requires n < |records| && Ingesting(s0, b, records, n, p.View()) && FreshRecords(p.entities.rows, records[n..])
    modifies p, p.entities, p.relations
    ensures Ingesting(s0, b, records, n + 1, p.View()) && FreshRecords(p.entities.rows, records[n + 1..])
    ensures old(EdgesAgree(p.View())) ==> EdgesAgree(p.View())
    ensures old(NoEdgeLeft(p.View())) ==> NoEdgeLeft(p.View())
    ensures ne == |records[n].entities| && nr == |Known(records[n].entities, records[n].relations)|
  {
    var record := records[n];
    var ctx := ContextOf(b, record);
    ghost var was := p.View();
    var x := BuildExtraction(record, ctx.refTime, ctx.extractor);
    assert records[n..][0] == record && records[n..][1..] == records[n + 1..];
    FreshRecordBatch(p.entities.rows, records[n..], ctx.project, x.entities);
    ghost var uuidMap: map<string, string>;
    ne, nr, uuidMap := p.PersistStructured(ctx, x);
    FreshRecordsLater(was.entities, p.entities.rows, records[n..], ctx.project, x.entities);
    RecordIsWritten(was, p.View(), ctx, record, x, uuidMap);
    RecordsStep(s0, b, records, n, was, p.View());
    IngestingStep(s0, b, records, n, was, p.View());
  }

  // ----- the same records again -----

  /** The same names, types and triples; times, texts, episodes and drawn uuids may differ. */
  ghost predicate SameRecord(a: BulkRecord, c: BulkRecord) {
    SameEntities(a.entities, c.entities) && SameRelations(a.relations, c.relations)
  }

  ghost predicate SameEntities(es: seq<BulkEntity>, es': seq<BulkEntity>) {
    |es| == |es'| && forall i :: 0 <= i < |es| ==> es[i].name == es'[i].name && es[i].entityType == es'[i].entityType
  }

  ghost predicate SameRelations(rs: seq<BulkRelation>, rs': seq<BulkRelation>) {
    |rs| == |rs'| && forall i :: 0 <= i < |rs| ==> SameTriple(rs[i], rs'[i])
  }

  predicate SameTriple(r: BulkRelation, r': BulkRelation) {
    r.source == r'.source && r.target == r'.target && r.relationType == r'.relationType
  }

  lemma SameNamed(es: seq<BulkEntity>, es': seq<BulkEntity>, name: string)
    requires SameEntities(es, es')
    ensures Named(es, name) <==> Named(es', name)
    ensures forall i :: IsLast(es, name, i) <==> IsLast(es', name, i)
  {
  }

  lemma {:induction false} SameKnown(es: seq<BulkEntity>, es': seq<BulkEntity>, rs: seq<BulkRelation>,
                                     rs': seq<BulkRelation>)
    requires SameEntities(es, es') && SameRelations(rs, rs')
    ensures SameRelations(Known(es, rs), Known(es', rs'))
  {
    if |rs| > 0 {
      var n := |rs| - 1;
      SameKnown(es, es', rs[..n], rs'[..n]);
      assert SameTriple(rs[n], rs'[n]);
      SameNamed(es, es', rs[n].source);
      SameNamed(es, es', rs[n].target);
    }
  }

  ghost predicate SameRecords(records: seq<BulkRecord>, records': seq<BulkRecord>) {
    |records| == |records'| && forall n :: 0 <= n < |records| ==> SameRecord(records[n], records'[n])
  }

  /** Entity k of the request is entity i of record n. */
  lemma {:induction false} LocateEntity(records: seq<BulkRecord>, k: nat) returns (n: nat, i: nat)
    requires k < EntityTotal(records)
    ensures n < |records| && i < |records[n].entities| && k == EntityTotal(records[..n]) + i
  {
    var last := |records| - 1;
    if k < EntityTotal(records[..last]) {
      n, i := LocateEntity(records[..last], k);
      assert records[..last][..n] == records[..n];
    } else {
      n, i := last, k - EntityTotal(records[..last]);
    }
  }

  lemma {:induction false} LocateRelation(records: seq<BulkRecord>, k: nat) returns (n: nat, i: nat)
    requires k < RelationTotal(records)
    ensures n < |records| && i < |Known(records[n].entities, records[n].relations)|
    ensures k == RelationTotal(records[..n]) + i
  {
    var last := |records| - 1;
    if k < RelationTotal(records[..last]) {
      n, i := LocateRelation(records[..last], k);
      assert records[..last][..n] == records[..n];
    } else {
      n, i := last, k - RelationTotal(records[..last]);
    }
  }

  /** A row of an identity that has a row in the earlier table has the key of that row. */
  ghost predicate KeysStable(ents: seq<Row<EntityAttrs>>, ents': seq<Row<EntityAttrs>>) {
    forall j: nat, k: nat :: j < |ents| && k < |ents'| ==> KeepsKey(ents, ents', j, k)
  }

  predicate KeepsKey(ents: seq<Row<EntityAttrs>>, ents': seq<Row<EntityAttrs>>, j: nat, k: nat)
    requires j < |ents| && k < |ents'|
  {
    SameIdentity(ents'[k], ents[j].project, ents[j].attrs.name, ents[j].attrs.entityType) ==>
      ents[j].key == ents'[k].key
  }

  lemma IdentifiedIsStable(ents: seq<Row<EntityAttrs>>, ents': seq<Row<EntityAttrs>>)
    requires Extends(ents, ents') && Identified(ents')
    ensures KeysStable(ents, ents')
  {
    forall j: nat, k: nat | j < |ents| && k < |ents'| ensures KeepsKey(ents, ents', j, k) {
      assert ents'[j].key == ents[j].key && ents'[j].attrs == ents[j].attrs && ents'[j].project == ents[j].project;
    }
  }

  /** Writing an entity of a record again finds the same key. */
  lemma SameEntityKey(ents: seq<Row<EntityAttrs>>, rels: seq<Row<RelationAttrs>>, eb: nat, rb: nat, ctx: Context,
                      record: BulkRecord, ents': seq<Row<EntityAttrs>>, rels': seq<Row<RelationAttrs>>, eb': nat,
                      rb': nat, ctx': Context, record': BulkRecord, i: nat)
    requires RecordWritten(ents, rels, eb, rb, ctx, record) && RecordWritten(ents', rels', eb', rb', ctx', record')
    requires KeysStable(ents, ents') && ctx.project == ctx'.project
    requires SameEntities(record.entities, record'.entities) && i < |record.entities|
    ensures eb + i < |ents| && eb' + i < |ents'| && ents[eb + i].key == ents'[eb' + i].key
  {
    assert IsEntityRow(ents[eb + i], ctx, EntityOf(record.entities[i]));
    assert IsEntityRow(ents'[eb' + i], ctx', EntityOf(record'.entities[i]));
    assert KeepsKey(ents, ents', eb + i, eb' + i);
  }

  /** And so does writing one of its relations. */
  lemma SameRelationKey(ents: seq<Row<EntityAttrs>>, rels: seq<Row<RelationAttrs>>, eb: nat, rb: nat, ctx: Context,
                        record: BulkRecord, ents': seq<Row<EntityAttrs>>, rels': seq<Row<RelationAttrs>>, eb': nat,
                        rb': nat, ctx': Context, record': BulkRecord, i: nat)
    requires RecordWritten(ents, rels, eb, rb, ctx, record) && RecordWritten(ents', rels', eb', rb', ctx', record')
    requires KeysStable(ents, ents') && ctx.project == ctx'.project
    requires SameRecord(record, record') && i < |Known(record.entities, record.relations)|
    ensures |Known(record'.entities, record'.relations)| == |Known(record.entities, record.relations)|
    ensures rb + i < |rels| && rb' + i < |rels'| && rels[rb + i].key == rels'[rb' + i].key
  {
    var es, es' := record.entities, record'.entities;
    SameKnown(es, es', record.relations, record'.relations);
    var r, r' := Known(es, record.relations)[i], Known(es', record'.relations)[i];
    assert SameTriple(r, r');
    var x, y := NamedEnds(rels[rb + i], ctx, es, r, ents, eb);
    var x', y' := NamedEnds(rels'[rb' + i], ctx', es', r', ents', eb');
    LastOnce(es, es', r.source, x, x');
    LastOnce(es, es', r.target, y, y');
    SameEntityKey(ents, rels, eb, rb, ctx, record, ents', rels', eb', rb', ctx', record', x);
    SameEntityKey(ents, rels, eb, rb, ctx, record, ents', rels', eb', rb', ctx', record', y);
  }

  lemma NamedEnds(row: Row<RelationAttrs>, ctx: Context, es: seq<BulkEntity>, b: BulkRelation,
                  ents: seq<Row<EntityAttrs>>, base: nat) returns (i: nat, j: nat)
    requires JoinsNamed(row, ctx, es, b, ents, base)
    ensures IsLast(es, b.source, i) && IsLast(es, b.target, j) && base + |es| <= |ents|
    ensures row.key == RelKey(ents[base + i].key, b.relationType, ents[base + j].key)
  {
    i, j :| IsLast(es, b.source, i) && IsLast(es, b.target, j)
      && IsBulkRow(row, ctx, b, ents[base + i].key, ents[base + j].key);
  }

  /** Sizes of equal requests are equal, record by record. */
  lemma {:induction false} SameTotals(records: seq<BulkRecord>, records': seq<BulkRecord>, n: nat)
    requires SameRecords(records, records') && n <= |records|
    ensures EntityTotal(records[..n]) == EntityTotal(records'[..n])
    ensures RelationTotal(records[..n]) == RelationTotal(records'[..n])
  {
    if n > 0 {
      var r, r' := records[n - 1], records'[n - 1];
      assert records[..n][..n - 1] == records[..n - 1] && records'[..n][..n - 1] == records'[..n - 1];
      SameTotals(records, records', n - 1);
      assert SameRecord(r, r');
      SameKnown(r.entities, r'.entities, r.relations, r'.relations);
    }
  }

  /** Two requests with the same records, the second any time after the first: history has been
    * extended in between, in whatever way. */
  ghost predicate Reingested(s0: Stores, b: Bulk, records: seq<BulkRecord>, s1: Stores, m: Stores,
                             b': Bulk, records': seq<BulkRecord>, s2: Stores)
  {
    && Ingested(s0, b, records, s1) && Ingested(m, b', records', s2)
    && Extends(s1.entities, m.entities) && Extends(s1.relations, m.relations)
    && b.project == b'.project && SameRecords(records, records')
  }

  /** The second request writes the keys that the first one wrote, in the same order. */
  lemma SameKeysAgain(s0: Stores, b: Bulk, records: seq<BulkRecord>, s1: Stores, m: Stores,
                      b': Bulk, records': seq<BulkRecord>, s2: Stores)
    requires Reingested(s0, b, records, s1, m, b', records', s2)
    ensures SameKeys(s0.entities, s1.entities, m.entities, s2.entities)
    ensures SameKeys(s0.relations, s1.relations, m.relations, s2.relations)
  {
    SameSizes(s0, b, records, s1, m, b', records', s2);
    ExtendsTwice(s1.entities, m.entities, s2.entities);
    IdentifiedIsStable(s1.entities, s2.entities);
    SameEntityKeys(s0, b, records, s1, m, b', records', s2);
    SameRelationKeys(s0, b, records, s1, m, b', records', s2);
  }

  lemma {:induction false} SameEntityKeys(s0: Stores, b: Bulk, records: seq<BulkRecord>, s1: Stores, m: Stores,
                       b': Bulk, records': seq<BulkRecord>, s2: Stores)
    requires RecordsWritten(s0, b, records, |records|, s1) && RecordsWritten(m, b', records', |records'|, s2)
    requires KeysStable(s1.entities, s2.entities)
    requires b.project == b'.project && SameRecords(records, records')
    requires |s1.entities| - |s0.entities| == |s2.entities| - |m.entities| == EntityTotal(records)
    ensures SameKeys(s0.entities, s1.entities, m.entities, s2.entities)
  {
    forall j | |s0.entities| <= j < |s1.entities|
      ensures s1.entities[j].key == s2.entities[j - |s0.entities| + |m.entities|].key
    {
      EntityKeyAgain(s0, b, records, s1, m, b', records', s2, j - |s0.entities|);
    }
  }

  lemma {:induction false} SameRelationKeys(s0: Stores, b: Bulk, records: seq<BulkRecord>, s1: Stores, m: Stores,
                         b': Bulk, records': seq<BulkRecord>, s2: Stores)
    requires RecordsWritten(s0, b, records, |records|, s1) && RecordsWritten(m, b', records', |records'|, s2)
    requires KeysStable(s1.entities, s2.entities)
    requires b.project == b'.project && SameRecords(records, records')
    requires |s1.relations| - |s0.relations| == |s2.relations| - |m.relations| == RelationTotal(records)
    ensures SameKeys(s0.relations, s1.relations, m.relations, s2.relations)
  {
    forall j | |s0.relations| <= j < |s1.relations|
      ensures s1.relations[j].key == s2.relations[j - |s0.relations| + |m.relations|].key
    {
      RelationKeyAgain(s0, b, records, s1, m, b', records', s2, j - |s0.relations|);
    }
  }

  /** The rows added to two tables have the same keys, in order. */
  ghost predicate SameKeys<A>(rows: seq<Row<A>>, rows': seq<Row<A>>, others: seq<Row<A>>, others': seq<Row<A>>) {
    && |rows'| - |rows| == |others'| - |others| >= 0
    && forall j :: |rows| <= j < |rows'| ==> rows'[j].key == others'[j - |rows| + |others|].key
  }

  lemma SameSizes(s0: Stores, b: Bulk, records: seq<BulkRecord>, s1: Stores, m: Stores,
                  b': Bulk, records': seq<BulkRecord>, s2: Stores)
    requires Reingested(s0, b, records, s1, m, b', records', s2)
    ensures |s1.entities| - |s0.entities| == |s2.entities| - |m.entities| == EntityTotal(records)
    ensures |s1.relations| - |s0.relations| == |s2.relations| - |m.relations| == RelationTotal(records)
  {
    SameTotals(records, records', |records|);
    assert records[..|records|] == records && records'[..|records'|] == records';
  }

  /** Ingesting the same records again leaves the open keys as they were before the second request
    * if and only if every key that the first one wrote was still open. */
  lemma ReingestIff(s0: Stores, b: Bulk, records: seq<BulkRecord>, s1: Stores, m: Stores,
                    b': Bulk, records': seq<BulkRecord>, s2: Stores)
    requires Reingested(s0, b, records, s1, m, b', records', s2)
    ensures SameOpenKeys(m.entities, s2.entities) <==> WrittenStillOpen(s0.entities, s1.entities, m.entities, b.project)
    ensures SameOpenKeys(m.relations, s2.relations) <==>
              WrittenStillOpen(s0.relations, s1.relations, m.relations, b.project)
  {
    SameKeysAgain(s0, b, records, s1, m, b', records', s2);
    ReopenedIff(s0.entities, s1.entities, m.entities, s2.entities, b.project);
    ReopenedIff(s0.relations, s1.relations, m.relations, s2.relations, b.project);
  }

  /** The keys of the rows added between rows and rows' are open in the table now. */
  ghost predicate WrittenStillOpen<A>(rows: seq<Row<A>>, rows': seq<Row<A>>, now: seq<Row<A>>, project: string) {
    forall j :: |rows| <= j < |rows'| ==> HasOpen(now, project, rows'[j].key)
  }

  lemma ReopenedIff<A>(rows: seq<Row<A>>, rows': seq<Row<A>>, now: seq<Row<A>>, now': seq<Row<A>>, p: string)
    requires SameKeys(rows, rows', now, now') && Opens(now, now', p)
    ensures SameOpenKeys(now, now') <==> WrittenStillOpen(rows, rows', now, p)
  {
    AddedOpenIff(now, now', p);
    if WrittenStillOpen(rows, rows', now, p) {
      forall k | |now| <= k < |now'| ensures HasOpen(now, p, now'[k].key) {
        assert rows'[k - |now| + |rows|].key == now'[k].key;
      }
    }
  }

  /** m is the store some time after s: history is extended, and what was open is still open. */
  ghost predicate Later(s: Stores, m: Stores) {
    && Extends(s.entities, m.entities) && Extends(s.relations, m.relations)
    && StaysOpen(s.entities, m.entities) && StaysOpen(s.relations, m.relations)
  }

  ghost predicate StaysOpen<A>(rows: seq<Row<A>>, rows': seq<Row<A>>) {
    forall q, l :: HasOpen(rows, q, l) ==> HasOpen(rows', q, l)
  }

  /** Any number of other requests, for any projects, may come in between. */
  lemma IngestedIsLater(s: Stores, m: Stores, b: Bulk, records: seq<BulkRecord>, m': Stores)
    requires Later(s, m) && Ingested(m, b, records, m')
    ensures Later(s, m')
  {
    ExtendsTwice(s.entities, m.entities, m'.entities);
    ExtendsTwice(s.relations, m.relations, m'.relations);
  }

  /** So with nothing expired since the first request the second one only advances versions. */
  lemma ReingestKeepsOpenKeys(s0: Stores, b: Bulk, records: seq<BulkRecord>, s1: Stores, m: Stores,
                              b': Bulk, records': seq<BulkRecord>, s2: Stores)
    requires Reingested(s0, b, records, s1, m, b', records', s2) && Later(s1, m)
    ensures SameOpenKeys(m.entities, s2.entities) && SameOpenKeys(m.relations, s2.relations)
  {
    ReingestIff(s0, b, records, s1, m, b', records', s2);
    AddedAreOpen(s0.entities, s1.entities, b.project);
    AddedAreOpen(s0.relations, s1.relations, b.project);
  }

  lemma AddedAreOpen<A>(rows: seq<Row<A>>, rows': seq<Row<A>>, p: string)
    requires Opens(rows, rows', p)
    ensures WrittenStillOpen(rows, rows', rows', p)
  {
    forall j | |rows| <= j < |rows'| ensures HasOpen(rows', p, rows'[j].key) {
      assert AddedKey(rows, rows', rows'[j].key);
    }
  }

  lemma {:induction false} EntityKeyAgain(s0: Stores, b: Bulk, records: seq<BulkRecord>, s1: Stores, m: Stores,
                                          b': Bulk, records': seq<BulkRecord>, s2: Stores, d: nat)
    requires RecordsWritten(s0, b, records, |records|, s1) && RecordsWritten(m, b', records', |records'|, s2)
    requires KeysStable(s1.entities, s2.entities)
    requires b.project == b'.project && SameRecords(records, records') && d < EntityTotal(records)
    ensures |s0.entities| + d < |s1.entities| && |m.entities| + d < |s2.entities|
    ensures s2.entities[|m.entities| + d].key == s1.entities[|s0.entities| + d].key
  {
    var n, i := EntityPlace(records, records', d);
    RecordsAt(s0, b, records, s1, m, b', records', s2, n);
    EntityKeyAt(s0, b, records, s1, m, b', records', s2, n, i, d);
  }

  lemma EntityPlace(records: seq<BulkRecord>, records': seq<BulkRecord>, d: nat) returns (n: nat, i: nat)
    requires SameRecords(records, records') && d < EntityTotal(records)
    ensures n < |records| == |records'| && i < |records'[n].entities|
    ensures d == EntityTotal(records[..n]) + i == EntityTotal(records'[..n]) + i
  {
    n, i := LocateEntity(records, d);
    SameTotals(records, records', n);
    assert SameRecord(records[n], records'[n]);
  }

  lemma RelationPlace(records: seq<BulkRecord>, records': seq<BulkRecord>, d: nat) returns (n: nat, i: nat)
    requires SameRecords(records, records') && d < RelationTotal(records)
    ensures n < |records| == |records'| && i < |Known(records[n].entities, records[n].relations)|
    ensures d == RelationTotal(records[..n]) + i == RelationTotal(records'[..n]) + i
  {
    n, i := LocateRelation(records, d);
    SameTotals(records, records', n);
  }

  lemma {:induction false} RelationKeyAgain(s0: Stores, b: Bulk, records: seq<BulkRecord>, s1: Stores, m: Stores,
                                            b': Bulk, records': seq<BulkRecord>, s2: Stores, d: nat)
    requires RecordsWritten(s0, b, records, |records|, s1) && RecordsWritten(m, b', records', |records'|, s2)
    requires KeysStable(s1.entities, s2.entities)
    requires b.project == b'.project && SameRecords(records, records') && d < RelationTotal(records)
    ensures |s0.relations| + d < |s1.relations| && |m.relations| + d < |s2.relations|
    ensures s2.relations[|m.relations| + d].key == s1.relations[|s0.relations| + d].key
  {
    var n, i := RelationPlace(records, records', d);
    RecordsAt(s0, b, records, s1, m, b', records', s2, n);
    RelationKeyAt(s0, b, records, s1, m, b', records', s2, n, i, d);
  }

  lemma RecordsAt(s0: Stores, b: Bulk, records: seq<BulkRecord>, s1: Stores, m: Stores,
                  b': Bulk, records': seq<BulkRecord>, s2: Stores, n: nat)
    requires RecordsWritten(s0, b, records, |records|, s1) && RecordsWritten(m, b', records', |records'|, s2)
    requires SameRecords(records, records') && n < |records'|
    ensures SameRecord(records[n], records'[n]) && WrittenAt(s0, b, records, n, s1)
    ensures WrittenAt(m, b', records', n, s2)
  {
  }

  lemma EntityKeyAt(s0: Stores, b: Bulk, records: seq<BulkRecord>, s1: Stores, m: Stores,
                    b': Bulk, records': seq<BulkRecord>, s2: Stores, n: nat, i: nat, d: nat)
    requires n < |records| && n < |records'| && SameRecord(records[n], records'[n]) && b.project == b'.project
    requires WrittenAt(s0, b, records, n, s1) && WrittenAt(m, b', records', n, s2)
    requires KeysStable(s1.entities, s2.entities) && i < |records'[n].entities|
    requires d == EntityTotal(records[..n]) + i == EntityTotal(records'[..n]) + i
    ensures |s0.entities| + d < |s1.entities| && |m.entities| + d < |s2.entities|
    ensures s2.entities[|m.entities| + d].key == s1.entities[|s0.entities| + d].key
  {
    SameEntityKey(s1.entities, s1.relations, EntityBase(s0, records, n), RelationBase(s0, records, n),
                  ContextOf(b, records[n]), records[n],
                  s2.entities, s2.relations, EntityBase(m, records', n), RelationBase(m, records', n),
                  ContextOf(b', records'[n]), records'[n], i);
    assert EntityBase(s0, records, n) + i == |s0.entities| + d;
    assert EntityBase(m, records', n) + i == |m.entities| + d;
  }

  lemma RelationKeyAt(s0: Stores, b: Bulk, records: seq<BulkRecord>, s1: Stores, m: Stores,
                      b': Bulk, records': seq<BulkRecord>, s2: Stores, n: nat, i: nat, d: nat)
    requires n < |records| && n < |records'| && SameRecord(records[n], records'[n]) && b.project == b'.project
    requires WrittenAt(s0, b, records, n, s1) && WrittenAt(m, b', records', n, s2)
    requires KeysStable(s1.entities, s2.entities) && i < |Known(records[n].entities, records[n].relations)|
    requires d == RelationTotal(records[..n]) + i == RelationTotal(records'[..n]) + i
    ensures |s0.relations| + d < |s1.relations| && |m.relations| + d < |s2.relations|
    ensures s2.relations[|m.relations| + d].key == s1.relations[|s0.relations| + d].key
  {
    SameRelationKey(s1.entities, s1.relations, EntityBase(s0, records, n), RelationBase(s0, records, n),
                    ContextOf(b, records[n]), records[n],
                    s2.entities, s2.relations, EntityBase(m, records', n), RelationBase(m, records', n),
                    ContextOf(b', records'[n]), records'[n], i);
    assert RelationBase(s0, records, n) + i == |s0.relations| + d;
    assert RelationBase(m, records', n) + i == |m.relations| + d;
  }

  lemma LastOnce(es: seq<BulkEntity>, es': seq<BulkEntity>, name: string, i: int, j: int)
    requires SameEntities(es, es') && IsLast(es, name, i) && IsLast(es', name, j)
    ensures i == j
  {
    SameNamed(es, es', name);
    assert IsLast(es, name, j);
  }
}
