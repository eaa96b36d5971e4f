/** What core/services/bulk_ingest.py writes, record by record and column by column. */
module BulkRows {
  import opened Wrappers
  import opened Temporal
  import opened TemporalRuns
  import opened Ingest
  import opened Orchestrator
  import opened BulkIngest

  // ----- which relations of a record are persisted -----

  /** The relation's two names are both names of entities of the record. */
  predicate BothNamed(es: seq<BulkEntity>, r: BulkRelation) {
    (exists i :: 0 <= i < |es| && es[i].name == r.source) && exists i :: 0 <= i < |es| && es[i].name == r.target
  }

  function KnownIndices(es: seq<BulkEntity>, rs: seq<BulkRelation>): seq<nat> {
    if |rs| == 0 then []
    else KnownIndices(es, rs[..|rs| - 1]) + (if BothNamed(es, rs[|rs| - 1]) then [|rs| - 1] else [])
  }

  ghost predicate Rising(ks: seq<nat>) {
    forall i, j :: 0 <= i < j < |ks| ==> ks[i] < ks[j]
  }

  /** known lists the relations at the indices ks, in order. */
  ghost predicate PickedAt(rs: seq<BulkRelation>, ks: seq<nat>, known: seq<BulkRelation>) {
    |ks| == |known| && forall j :: 0 <= j < |ks| ==> ks[j] < |rs| && known[j] == rs[ks[j]]
  }

  /** The indices are those where both names are known, rising. */
  ghost predicate KnownAt(es: seq<BulkEntity>, rs: seq<BulkRelation>, ks: seq<nat>) {
    Rising(ks) && forall i: nat :: i in ks <==> i < |rs| && BothNamed(es, rs[i])
  }

  /** The known relations are those at the indices where both names are known, in order. */
  lemma {:induction false} KnownMeaning(es: seq<BulkEntity>, rs: seq<BulkRelation>)
    ensures KnownAt(es, rs, KnownIndices(es, rs)) && PickedAt(rs, KnownIndices(es, rs), Known(es, rs))
  {
    if |rs| > 0 {
      var n := |rs| - 1;
      KnownMeaning(es, rs[..n]);
      assert BothNamed(es, rs[n]) <==> Named(es, rs[n].source) && Named(es, rs[n].target);
      PickedStep(rs, KnownIndices(es, rs[..n]), Known(es, rs[..n]), BothNamed(es, rs[n]));
      KnownStep(es, rs, KnownIndices(es, rs[..n]));
    }
  }

  lemma PickedStep(rs: seq<BulkRelation>, ks: seq<nat>, known: seq<BulkRelation>, last: bool)
    requires |rs| > 0 && PickedAt(rs[..|rs| - 1], ks, known)
    ensures PickedAt(rs, ks + (if last then [|rs| - 1] else []), known + (if last then [rs[|rs| - 1]] else []))
  {
  }

  lemma KnownStep(es: seq<BulkEntity>, rs: seq<BulkRelation>, ks: seq<nat>)
    requires |rs| > 0 && KnownAt(es, rs[..|rs| - 1], ks)
    ensures KnownAt(es, rs, ks + (if BothNamed(es, rs[|rs| - 1]) then [|rs| - 1] else []))
  {
    forall j | 0 <= j < |ks| ensures ks[j] < |rs| - 1 {
      assert ks[j] in ks;
    }
  }

  /** The relation made from a bulk relation: its own fields, and the uuid and name of the last entity
    * of the record with each of the two names. */
  ghost predicate BuiltFrom(es: seq<BulkEntity>, b: BulkRelation, refTime: int, r: Relation) {
    && r.relationType == b.relationType && r.fact == b.fact && r.confidence == b.confidence && r.uuid == b.uuid
    && r.validAt == Some(if b.validFrom.Some? then b.validFrom.value else refTime)
    && r.sourceName == Some(b.source) && r.targetName == Some(b.target)
    && (exists i :: NameAt(es, b.source, i) && r.sourceUuid == es[i].uuid)
    && exists i :: NameAt(es, b.target, i) && r.targetUuid == es[i].uuid
  }

  /** Entity i has the name, and no later one has. */
  predicate NameAt(es: seq<BulkEntity>, name: string, i: int) {
    0 <= i < |es| && es[i].name == name && forall j :: i < j < |es| ==> es[j].name != name
  }

  /** The extraction's relations are made, one by one and in order, from the relations of the record
    * at exactly the indices where both names are names of its entities. */
  lemma ExtractedRelations(record: BulkRecord, refTime: int, rs: seq<Relation>) returns (ks: seq<nat>)
    requires AllBuilt(record.entities, Known(record.entities, record.relations), refTime, rs)
    ensures |ks| == |rs| && Rising(ks)
    ensures forall i: nat :: i in ks <==> i < |record.relations| && BothNamed(record.entities, record.relations[i])
    ensures forall j :: 0 <= j < |ks| ==>
              ks[j] < |record.relations| && BuiltFrom(record.entities, record.relations[ks[j]], refTime, rs[j])
  {
    var es := record.entities;
    ks := KnownIndices(es, record.relations);
    KnownMeaning(es, record.relations);
    forall j | 0 <= j < |ks| ensures BuiltFrom(es, record.relations[ks[j]], refTime, rs[j]) {
      BuiltMeaning(es, record.relations[ks[j]], refTime, rs[j]);
    }
  }

  lemma BuiltMeaning(es: seq<BulkEntity>, b: BulkRelation, refTime: int, r: Relation)
    requires IsBuilt(es, b, refTime, r)
    ensures BuiltFrom(es, b, refTime, r)
  {
    var src, tgt :| LastNamed(es, b.source, src) && LastNamed(es, b.target, tgt)
      && r == BuiltRelation(b, src, tgt, refTime);
    var i :| IsLast(es, b.source, i) && src == EntityOf(es[i]);
    var j :| IsLast(es, b.target, j) && tgt == EntityOf(es[j]);
    assert NameAt(es, b.source, i) && NameAt(es, b.target, j);
  }

  // ----- where the rows of a request are -----

  predicate Earlier(a: (nat, nat), b: (nat, nat)) {
    a.0 < b.0 || (a.0 == b.0 && a.1 < b.1)
  }

  ghost predicate InOrder(ps: seq<(nat, nat)>) {
    forall i, j :: 0 <= i < j < |ps| ==> Earlier(ps[i], ps[j])
  }

  function PairsOf(m: nat, ks: seq<nat>): seq<(nat, nat)> {
    seq(|ks|, i requires 0 <= i < |ks| => (m, ks[i]))
  }

  function UpTo(n: nat): seq<nat> {
    seq(n, i requires 0 <= i < n => i)
  }

  lemma UpToMeaning(n: nat)
    ensures Rising(UpTo(n)) && forall i: nat :: i in UpTo(n) <==> i < n
  {
    forall i: nat ensures i in UpTo(n) <==> i < n {
      assert i < n ==> UpTo(n)[i] == i;
    }
  }

  /** (m, i) for entity i of record m, in order. */
  function EntityPairs(records: seq<BulkRecord>): seq<(nat, nat)> {
    if |records| == 0 then []
    else
      var m := |records| - 1;
      EntityPairs(records[..m]) + PairsOf(m, UpTo(|records[m].entities|))
  }

  /** (m, i) for relation i of record m where it is known. */
  function RelationPairs(records: seq<BulkRecord>): seq<(nat, nat)> {
    if |records| == 0 then []
    else
      var m := |records| - 1;
      RelationPairs(records[..m]) + PairsOf(m, KnownIndices(records[m].entities, records[m].relations))
  }

  /** Appending the pairs of the next record keeps the order. */
  lemma OrderStep(ps: seq<(nat, nat)>, m: nat, ks: seq<nat>)
    requires InOrder(ps) && Rising(ks) && forall j :: 0 <= j < |ps| ==> ps[j].0 < m
    ensures InOrder(ps + PairsOf(m, ks))
    ensures forall j :: 0 <= j < |ps + PairsOf(m, ks)| ==> (ps + PairsOf(m, ks))[j].0 <= m
    ensures forall a, i :: (a, i) in ps + PairsOf(m, ks) <==> (a, i) in ps || (a == m && i in ks)
  {
    var qs := PairsOf(m, ks);
    forall a, i ensures (a, i) in ps + qs <==> (a, i) in ps || (a == m && i in ks) {
      if a == m && i in ks {
        var j :| 0 <= j < |ks| && ks[j] == i;
        assert qs[j] == (a, i);
      }
    }
  }

  lemma {:induction false} EntityPairsMeaning(records: seq<BulkRecord>)
    ensures var ps := EntityPairs(records);
      && |ps| == EntityTotal(records) && InOrder(ps) && (forall j :: 0 <= j < |ps| ==> ps[j].0 < |records|)
      && forall m: nat, i: nat :: (m, i) in ps <==> m < |records| && i < |records[m].entities|
  {
    if |records| > 0 {
      var m := |records| - 1;
      EntityPairsMeaning(records[..m]);
      OrderStep(EntityPairs(records[..m]), m, UpTo(|records[m].entities|));
      UpToMeaning(|records[m].entities|);
      assert forall a :: 0 <= a < m ==> records[..m][a] == records[a];
    }
  }

  lemma {:induction false} RelationPairsMeaning(records: seq<BulkRecord>)
    ensures var ps := RelationPairs(records);
      && |ps| == RelationTotal(records) && InOrder(ps) && (forall j :: 0 <= j < |ps| ==> ps[j].0 < |records|)
      && forall m: nat, i: nat :: (m, i) in ps <==>
           m < |records| && i < |records[m].relations| && BothNamed(records[m].entities, records[m].relations[i])
  {
    if |records| > 0 {
      var m := |records| - 1;
      RelationPairsMeaning(records[..m]);
      KnownMeaning(records[m].entities, records[m].relations);
      OrderStep(RelationPairs(records[..m]), m, KnownIndices(records[m].entities, records[m].relations));
      assert forall a :: 0 <= a < m ==> records[..m][a] == records[a];
    }
  }

  /** Pair j stands where the rows of its record begin, plus its place in the record. */
  lemma {:induction false} EntityPairAt(records: seq<BulkRecord>, j: nat)
    requires j < EntityTotal(records)
    ensures |EntityPairs(records)| == EntityTotal(records)
    ensures var (m, i) := EntityPairs(records)[j];
            m < |records| && i < |records[m].entities| && j == EntityTotal(records[..m]) + i
  {
    EntityPairsMeaning(records);
    var last := |records| - 1;
    EntityPairsMeaning(records[..last]);
    if j < EntityTotal(records[..last]) {
      EntityPairAt(records[..last], j);
      assert records[..last][..EntityPairs(records)[j].0] == records[..EntityPairs(records)[j].0];
    }
  }

  lemma {:induction false} RelationPairAt(records: seq<BulkRecord>, j: nat) returns (m: nat, i: nat)
    requires j < RelationTotal(records)
    ensures |RelationPairs(records)| == RelationTotal(records) && m < |records|
    ensures var ks := KnownIndices(records[m].entities, records[m].relations);
            i < |ks| && RelationPairs(records)[j] == (m, ks[i]) && j == RelationTotal(records[..m]) + i
  {
    RelationPairsMeaning(records);
    var last := |records| - 1;
    RelationPairsMeaning(records[..last]);
    KnownMeaning(records[last].entities, records[last].relations);
    if j < RelationTotal(records[..last]) {
      m, i := RelationPairAt(records[..last], j);
      assert records[..last][..m] == records[..m];
    } else {
      m, i := last, j - RelationTotal(records[..last]);
    }
  }

  lemma {:induction false} PairPlace(records: seq<BulkRecord>, m: nat, i: nat)
    requires m < |records| && i < |records[m].entities|
    ensures EntityTotal(records[..m]) + i < |EntityPairs(records)|
    ensures EntityPairs(records)[EntityTotal(records[..m]) + i] == (m, i)
  {
    var last := |records| - 1;
    EntityPairsMeaning(records[..last]);
    LastPairs(records);
    if m < last {
      PairPlace(records[..last], m, i);
      assert records[..last][..m] == records[..m];
    }
  }

  lemma LastPairs(records: seq<BulkRecord>)
    requires |records| > 0
    ensures var last := |records| - 1;
            EntityPairs(records) == EntityPairs(records[..last]) + PairsOf(last, UpTo(|records[last].entities|))
  {
  }

  // ----- what the rows say -----

  function RefTime(b: Bulk, record: BulkRecord): int {
    if record.validFrom.Some? then record.validFrom.value
    else if b.defaultFrom.Some? then b.defaultFrom.value
    else b.now
  }

  /** The row of an entity of a record, column by column. */
  predicate SaysEntity(r: Row<EntityAttrs>, b: Bulk, record: BulkRecord, e: BulkEntity) {
    && r.project == b.project && r.validFrom == RefTime(b, record) && r.source == "graphiti_extract:bulk:" + b.source
    && r.attrs.tenantId == b.tenantId && r.attrs.episodeId == record.episodeId && r.attrs.name == e.name
    && r.attrs.entityType == e.entityType && r.attrs.summary == e.summary && r.attrs.attributes == e.attributes
    && r.attrs.graphitiUuid == e.uuid
  }

  /** The row of a relation of a record between the keys src and tgt, column by column. */
  predicate SaysRelation(r: Row<RelationAttrs>, b: Bulk, record: BulkRecord, x: BulkRelation, src: string,
                         tgt: string)
  {
    && r.project == b.project && r.key == src + "|" + x.relationType + "|" + tgt
    && r.validFrom == (if x.validFrom.Some? then x.validFrom.value else RefTime(b, record))
    && r.source == "graphiti_extract:bulk:" + b.source && r.attrs.tenantId == b.tenantId
    && r.attrs.episodeId == record.episodeId && r.attrs.relationType == x.relationType && r.attrs.fact == x.fact
    && r.attrs.confidence == x.confidence && r.attrs.graphitiUuid == x.uuid
    && r.attrs.source == src && r.attrs.target == tgt
    && r.attrs.sourceName == Some(x.source) && r.attrs.targetName == Some(x.target)
  }

  /** es lists every entity of every record once, in order, and rs every relation whose two names its
    * record knows. Row by row, what the request added to the two tables is what they list, each
    * relation between the keys of the rows of the last entities with its names; the totals count them. */
  lemma {:induction false} RequestRows(s0: Stores, b: Bulk, records: seq<BulkRecord>, s: Stores)
    returns (es: seq<(nat, nat)>, rs: seq<(nat, nat)>)
    requires Ingested(s0, b, records, s)
    ensures |es| == EntityTotal(records) && |rs| == RelationTotal(records)
    ensures |s.entities| == |s0.entities| + |es| && |s.relations| == |s0.relations| + |rs|
    ensures InOrder(es) && forall m: nat, i: nat :: (m, i) in es <==> m < |records| && i < |records[m].entities|
    ensures InOrder(rs) && forall m: nat, i: nat :: (m, i) in rs <==>
              m < |records| && i < |records[m].relations| && BothNamed(records[m].entities, records[m].relations[i])
    ensures forall j :: 0 <= j < |es| ==> IsEntityOf(s0, b, records, s, es, j)
    ensures forall j :: 0 <= j < |rs| ==> IsRelationOf(s0, b, records, s, es, rs, j)
  {
    es, rs := EntityPairs(records), RelationPairs(records);
    EntityPairsMeaning(records);
    RelationPairsMeaning(records);
    assert records[..|records|] == records;
    forall j | 0 <= j < |es| ensures IsEntityOf(s0, b, records, s, es, j) {
      EntityRowAt(s0, b, records, s, j);
    }
    forall j | 0 <= j < |rs| ensures IsRelationOf(s0, b, records, s, es, rs, j) {
      RelationRowAt(s0, b, records, s, j);
    }
  }

  /** Added entity row j is that of pair j. */
  predicate IsEntityOf(s0: Stores, b: Bulk, records: seq<BulkRecord>, s: Stores, es: seq<(nat, nat)>, j: nat) {
    j < |es| &&
    var (m, i) := es[j];
    && m < |records| && i < |records[m].entities| && |s0.entities| + j < |s.entities|
    && SaysEntity(s.entities[|s0.entities| + j], b, records[m], records[m].entities[i])
  }

  /** Added relation row j is that of pair j, between the rows x and y of the entities its names mean. */
  ghost predicate IsRelationOf(s0: Stores, b: Bulk, records: seq<BulkRecord>, s: Stores, es: seq<(nat, nat)>,
                         rs: seq<(nat, nat)>, j: nat)
  {
    j < |rs| &&
    var (m, i) := rs[j];
    && m < |records| && i < |records[m].relations| && |s0.relations| + j < |s.relations|
    && IsJoined(s0, b, records[m], records[m].relations[i], s, es, m, s.relations[|s0.relations| + j])
  }

  ghost predicate IsJoined(s0: Stores, b: Bulk, record: BulkRecord, r: BulkRelation, s: Stores, es: seq<(nat, nat)>,
                           m: nat, row: Row<RelationAttrs>)
  {
    exists x, y :: Joins(s0, b, record, r, s, es, m, x, y, row)
  }

  predicate Joins(s0: Stores, b: Bulk, record: BulkRecord, r: BulkRelation, s: Stores, es: seq<(nat, nat)>, m: nat,
                  x: nat, y: nat, row: Row<RelationAttrs>)
  {
    && x < |es| && y < |es| && |s0.entities| + |es| <= |s.entities| && es[x].0 == m && es[y].0 == m
    && NameAt(record.entities, r.source, es[x].1) && NameAt(record.entities, r.target, es[y].1)
    && SaysRelation(row, b, record, r, s.entities[|s0.entities| + x].key, s.entities[|s0.entities| + y].key)
  }

  lemma {:induction false} EntityRowAt(s0: Stores, b: Bulk, records: seq<BulkRecord>, s: Stores, j: nat)
    requires RecordsWritten(s0, b, records, |records|, s) && j < EntityTotal(records)
    ensures IsEntityOf(s0, b, records, s, EntityPairs(records), j)
  {
    EntityPairAt(records, j);
    var (m, i) := EntityPairs(records)[j];
    assert WrittenAt(s0, b, records, m, s);
    assert IsEntityRow(s.entities[EntityBase(s0, records, m) + i], ContextOf(b, records[m]),
                       EntityOf(records[m].entities[i]));
    SourceOfBulk(b, records[m]);
  }

  lemma SourceOfBulk(b: Bulk, record: BulkRecord)
    ensures SourceLabel(ContextOf(b, record)) == "graphiti_extract:bulk:" + b.source
  {
    assert "graphiti_extract:" + ("bulk:" + b.source) == "graphiti_extract:bulk:" + b.source;
  }

  lemma {:induction false} RelationRowAt(s0: Stores, b: Bulk, records: seq<BulkRecord>, s: Stores, j: nat)
    requires RecordsWritten(s0, b, records, |records|, s) && j < RelationTotal(records)
    requires |s.entities| == |s0.entities| + |EntityPairs(records)|
    ensures IsRelationOf(s0, b, records, s, EntityPairs(records), RelationPairs(records), j)
  {
    var m, i := RelationPairAt(records, j);
    var es, rs := records[m].entities, records[m].relations;
    KnownMeaning(es, rs);
    assert KnownIndices(es, rs)[i] < |rs| && Known(es, rs)[i] == rs[KnownIndices(es, rs)[i]];
    var row := WrittenRow(s0, b, records, s, m, i);
    var x, y := JoinedRows(s0, b, records, s, m, Known(es, rs)[i], row);
  }

  /** The row of known relation i of record m. */
  lemma {:induction false} WrittenRow(s0: Stores, b: Bulk, records: seq<BulkRecord>, s: Stores, m: nat, i: nat)
    returns (row: Row<RelationAttrs>)
    requires RecordsWritten(s0, b, records, |records|, s) && m < |records|
    requires i < |Known(records[m].entities, records[m].relations)|
    ensures RelationBase(s0, records, m) + i < |s.relations| && row == s.relations[RelationBase(s0, records, m) + i]
    ensures JoinsNamed(row, ContextOf(b, records[m]), records[m].entities,
                       Known(records[m].entities, records[m].relations)[i], s.entities, EntityBase(s0, records, m))
  {
    assert WrittenAt(s0, b, records, m, s);
    KnownRow(s, EntityBase(s0, records, m), RelationBase(s0, records, m), ContextOf(b, records[m]), records[m], i);
    row := s.relations[RelationBase(s0, records, m) + i];
  }

  lemma KnownRow(s: Stores, eb: nat, rb: nat, ctx: Context, record: BulkRecord, i: nat)
    requires RecordWritten(s.entities, s.relations, eb, rb, ctx, record)
    requires i < |Known(record.entities, record.relations)|
    ensures rb + i < |s.relations|
    ensures JoinsNamed(s.relations[rb + i], ctx, record.entities, Known(record.entities, record.relations)[i],
                       s.entities, eb)
  {
  }

  lemma {:induction false} JoinedRows(s0: Stores, b: Bulk, records: seq<BulkRecord>, s: Stores, m: nat, r: BulkRelation,
                   row: Row<RelationAttrs>) returns (x: nat, y: nat)
    requires m < |records| && |s.entities| == |s0.entities| + |EntityPairs(records)|
    requires JoinsNamed(row, ContextOf(b, records[m]), records[m].entities, r, s.entities, EntityBase(s0, records, m))
    ensures Joins(s0, b, records[m], r, s, EntityPairs(records), m, x, y, row)
  {
    var es, base := records[m].entities, EntityBase(s0, records, m);
    var i, j :| IsLast(es, r.source, i) && IsLast(es, r.target, j)
      && IsBulkRow(row, ContextOf(b, records[m]), r, s.entities[base + i].key, s.entities[base + j].key);
    x, y := EntityTotal(records[..m]) + i, EntityTotal(records[..m]) + j;
    PairPlace(records, m, i);
    PairPlace(records, m, j);
    BulkRowSays(row, b, records[m], r, s.entities[base + i].key, s.entities[base + j].key);
    assert NameAt(es, r.source, i) && NameAt(es, r.target, j);
  }

  lemma BulkRowSays(row: Row<RelationAttrs>, b: Bulk, record: BulkRecord, r: BulkRelation, src: string, tgt: string)
    requires IsBulkRow(row, ContextOf(b, record), r, src, tgt)
    ensures SaysRelation(row, b, record, r, src, tgt)
  {
    SourceOfBulk(b, record);
  }
}
