/** Entity recall: the in-memory collections of core/adapters/chroma_adapter.py and
  * core/adapters/pgvector_adapter.py, and what core/services/retrieval.py makes of their hits. The
  * similarity of each stored vector to the query is given as a score. */
module Recall {
  import opened Wrappers
  import opened PathSearch
  import opened Scores

  /** A metadata value: the adapters store strings; the recall filter passes a list for the projects. */
  datatype Value = Str(s: string) | StrList(items: seq<string>)

  type Metadata = map<string, Value>

  datatype Hit = Hit(metadata: Metadata, score: real)

  // ----- ranking -----

  /** x goes behind everything that scores at least as high: a stable sort, greatest first. */
  function Insert(x: string, sorted: seq<string>, scoreOf: map<string, real>): seq<string> {
    if |sorted| == 0 || Score(scoreOf, sorted[|sorted| - 1]) >= Score(scoreOf, x) then sorted + [x]
    else Insert(x, sorted[..|sorted| - 1], scoreOf) + [sorted[|sorted| - 1]]
  }

  /** `sort(key=score, reverse=True)`. */
  function Sorted(ids: seq<string>, scoreOf: map<string, real>): seq<string> {
    if |ids| == 0 then [] else Insert(ids[|ids| - 1], Sorted(ids[..|ids| - 1], scoreOf), scoreOf)
  }

  function TopOf(ids: seq<string>, scoreOf: map<string, real>, n: nat): seq<string> {
    Prefix(Sorted(ids, scoreOf), n)
  }

  ghost predicate Descending(ids: seq<string>, scoreOf: map<string, real>) {
    forall i, j :: 0 <= i < j < |ids| ==> Score(scoreOf, ids[i]) >= Score(scoreOf, ids[j])
  }

  lemma {:induction false} InsertSorts(x: string, sorted: seq<string>, scoreOf: map<string, real>)
    requires Descending(sorted, scoreOf)
    ensures Descending(Insert(x, sorted, scoreOf), scoreOf)
    ensures multiset(Insert(x, sorted, scoreOf)) == multiset(sorted) + multiset{x}
    ensures forall y :: y in Insert(x, sorted, scoreOf) <==> y == x || y in sorted
  {
    if |sorted| > 0 {
      var init, last := sorted[..|sorted| - 1], sorted[|sorted| - 1];
      assert sorted == init + [last];
      if Score(scoreOf, last) < Score(scoreOf, x) {
        InsertSorts(x, init, scoreOf);
        LastStaysLast(Insert(x, init, scoreOf), x, init, last, scoreOf);
      }
    }
  }

  lemma LastStaysLast(all: seq<string>, x: string, init: seq<string>, last: string, scoreOf: map<string, real>)
    requires Descending(all, scoreOf) && Descending(init + [last], scoreOf) && Score(scoreOf, last) < Score(scoreOf, x)
    requires forall y :: y in all <==> y == x || y in init
    ensures Descending(all + [last], scoreOf)
  {
    forall i | 0 <= i < |all| ensures Score(scoreOf, all[i]) >= Score(scoreOf, last) {
      assert all[i] in all;
      if all[i] in init {
        var j :| 0 <= j < |init| && init[j] == all[i];
        assert (init + [last])[j] == all[i] && (init + [last])[|init|] == last;
      }
    }
  }

  lemma {:induction false} SortedMeaning(ids: seq<string>, scoreOf: map<string, real>)
    ensures Descending(Sorted(ids, scoreOf), scoreOf) && multiset(Sorted(ids, scoreOf)) == multiset(ids)
  {
    if |ids| > 0 {
      SortedMeaning(ids[..|ids| - 1], scoreOf);
      InsertSorts(ids[|ids| - 1], Sorted(ids[..|ids| - 1], scoreOf), scoreOf);
      assert ids == ids[..|ids| - 1] + [ids[|ids| - 1]];
    }
  }

  /** The ids with score v, in order. */
  function OfScore(ids: seq<string>, scoreOf: map<string, real>, v: real): seq<string> {
    if |ids| == 0 then []
    else
      var x := ids[|ids| - 1];
      OfScore(ids[..|ids| - 1], scoreOf, v) + (if Score(scoreOf, x) == v then [x] else [])
  }

  lemma OfScoreSnoc(ids: seq<string>, x: string, scoreOf: map<string, real>, v: real)
    ensures OfScore(ids + [x], scoreOf, v)
         == OfScore(ids, scoreOf, v) + (if Score(scoreOf, x) == v then [x] else [])
  {
    assert (ids + [x])[..|ids|] == ids;
  }

  lemma {:induction false} InsertStable(x: string, sorted: seq<string>, scoreOf: map<string, real>, v: real)
    ensures OfScore(Insert(x, sorted, scoreOf), scoreOf, v)
         == OfScore(sorted, scoreOf, v) + (if Score(scoreOf, x) == v then [x] else [])
  {
    if |sorted| == 0 || Score(scoreOf, sorted[|sorted| - 1]) >= Score(scoreOf, x) {
      OfScoreSnoc(sorted, x, scoreOf, v);
    } else {
      var init, last := sorted[..|sorted| - 1], sorted[|sorted| - 1];
      InsertStable(x, init, scoreOf, v);
      OfScoreSnoc(Insert(x, init, scoreOf), last, scoreOf, v);
    }
  }

  /** The sort is stable: entries of one score stay in insertion order. */
  lemma {:induction false} SortedStable(ids: seq<string>, scoreOf: map<string, real>, v: real)
    ensures OfScore(Sorted(ids, scoreOf), scoreOf, v) == OfScore(ids, scoreOf, v)
  {
    if |ids| > 0 {
      var init, x := ids[..|ids| - 1], ids[|ids| - 1];
      SortedStable(init, scoreOf, v);
      InsertStable(x, Sorted(init, scoreOf), scoreOf, v);
    }
  }

  /** The n best, greatest first: what is left out scores no higher than anything returned. */
  lemma TopIsBest(ids: seq<string>, scoreOf: map<string, real>, n: nat) returns (rest: seq<string>)
    ensures var top := TopOf(ids, scoreOf, n);
      && multiset(top) + multiset(rest) == multiset(ids) && Descending(top, scoreOf)
      && |top| == (if n < |ids| then n else |ids|)
      && forall x, y :: x in top && y in rest ==> Score(scoreOf, x) >= Score(scoreOf, y)
  {
    var sorted, top := Sorted(ids, scoreOf), TopOf(ids, scoreOf, n);
    SortedMeaning(ids, scoreOf);
    SameSize(sorted, ids);
    rest := sorted[|top|..];
    assert sorted == top + rest;
    TopOverRest(top, rest, scoreOf);
    DescendingPart(top, rest, scoreOf);
  }

  lemma DescendingPart(top: seq<string>, rest: seq<string>, scoreOf: map<string, real>)
    requires Descending(top + rest, scoreOf)
    ensures Descending(top, scoreOf)
  {
    assert forall i :: 0 <= i < |top| ==> top[i] == (top + rest)[i];
  }

  lemma TopOverRest(top: seq<string>, rest: seq<string>, scoreOf: map<string, real>)
    requires Descending(top + rest, scoreOf)
    ensures forall x, y :: x in top && y in rest ==> Score(scoreOf, x) >= Score(scoreOf, y)
  {
    forall x, y | x in top && y in rest ensures Score(scoreOf, x) >= Score(scoreOf, y) {
      BeforeIsNoLess(top, rest, scoreOf, x, y);
    }
  }

  lemma SameSize(a: seq<string>, b: seq<string>)
    requires multiset(a) == multiset(b)
    ensures |a| == |b|
  {
    assert |multiset(a)| == |a| && |multiset(b)| == |b|;
  }

  lemma BeforeIsNoLess(top: seq<string>, rest: seq<string>, scoreOf: map<string, real>, x: string, y: string)
    requires Descending(top + rest, scoreOf) && x in top && y in rest
    ensures Score(scoreOf, x) >= Score(scoreOf, y)
  {
    var i :| 0 <= i < |top| && top[i] == x;
    var j :| 0 <= j < |rest| && rest[j] == y;
    assert (top + rest)[i] == x && (top + rest)[|top| + j] == y;
  }

  // ----- the collections -----

  /** A dict of documents in insertion order, as far as recall looks at them. */
  class MemoryCollection {
    var ids: seq<string>
    var items: map<string, Metadata>

    ghost predicate Valid()
      reads this
    {
      Distinct(ids) && forall x :: x in ids <==> x in items
    }

    constructor ()
      ensures Valid() && items == map[]
    {
      ids, items := [], map[];
    }

    /** `upsert`: an existing entry keeps its place. */
    method Upsert(id: string, metadata: Metadata)
      requires Valid()
      modifies this
      ensures Valid() && items == old(items)[id := metadata]
      ensures ids == if id in old(items) then old(ids) else old(ids) + [id]
    {
      if id !in items {
        DistinctSnoc(ids, id);
        ids := ids + [id];
      }
      items := items[id := metadata];
    }

    /** `query` of either adapter: filter, sort, cut; `wanted` is its filter. */
    method Query(wanted: Wanted, scoreOf: map<string, real>, n: nat) returns (hits: seq<Hit>)
      requires Valid()
      ensures hits == HitsIn(ids, items, wanted, scoreOf, n)
    {
      var scored := [];
      for i := 0 to |ids|
        invariant scored == Filtered(ids[..i], items, wanted)
      {
        assert ids[..i + 1][..i] == ids[..i];
        if Matches(items[ids[i]], wanted) {
          scored := scored + [ids[i]];
        }
      }
      assert ids[..|ids|] == ids;
      hits := HitsOf(items, TopOf(scored, scoreOf, n), scoreOf, wanted);
    }
  }

  /** The two filters. Chroma's asks for equal values. pgvector's asks for a project of the list, if
    * that is not empty, and for the kind. */
  datatype Wanted = ChromaFilter(values: Metadata) | PgFilter(projects: seq<string>, kind: string)

  predicate Matches(metadata: Metadata, wanted: Wanted) {
    match wanted
    case ChromaFilter(values) => forall k :: k in values ==> k in metadata && metadata[k] == values[k]
    case PgFilter(projects, kind) =>
      && (projects == [] || InProjects(metadata, projects))
      && "kind" in metadata && metadata["kind"] == Str(kind)
  }

  predicate InProjects(metadata: Metadata, projects: seq<string>) {
    "project_id" in metadata && metadata["project_id"].Str? && metadata["project_id"].s in projects
  }

  function Filtered(ids: seq<string>, items: map<string, Metadata>, wanted: Wanted): seq<string> {
    if |ids| == 0 then []
    else
      var x := ids[|ids| - 1];
      Filtered(ids[..|ids| - 1], items, wanted) + (if x in items && Matches(items[x], wanted) then [x] else [])
  }

  const RESERVED: set<string> := {"kind", "ref_id", "tenant_id", "project_id", "valid_from", "valid_until"}

  /** What a hit carries: Chroma returns the stored metadata; pgvector keeps the reserved fields in
    * columns of their own and puts three of them back. */
  function HitMetadata(m: Metadata, wanted: Wanted): Metadata {
    match wanted
    case ChromaFilter(_) => m
    case PgFilter(_, _) => map k | k in m && (k !in RESERVED || k in {"kind", "ref_id", "project_id"}) :: m[k]
  }

  function HitsOf(items: map<string, Metadata>, top: seq<string>, scoreOf: map<string, real>,
                  wanted: Wanted): seq<Hit> {
    seq(|top|, i requires 0 <= i < |top| =>
      Hit(if top[i] in items then HitMetadata(items[top[i]], wanted) else map[], Score(scoreOf, top[i])))
  }

  // ----- what ingest stores and what recall asks for -----

  /** The arguments of `upsert_entity` that reach the metadata. */
  datatype EntityDoc = EntityDoc(project: string, uuid: string, name: string, tenant: string)

  function ChromaMetadata(d: EntityDoc): Metadata {
    map["kind" := Str("entity"), "kuzu_uuid" := Str(d.uuid), "name" := Str(d.name),
        "tenant_id" := Str(d.tenant), "project_id" := Str(d.project)]
  }

  function PgMetadata(d: EntityDoc): Metadata {
    map["kind" := Str("entity"), "ref_id" := Str(d.uuid), "name" := Str(d.name),
        "tenant_id" := Str(d.tenant), "project_id" := Str(d.project)]
  }

  /** Every stored document comes from an `upsert_entity`; nothing else writes to the collections. */
  ghost predicate StoredChroma(items: map<string, Metadata>) {
    forall x :: x in items ==> exists d :: items[x] == ChromaMetadata(d)
  }

  ghost predicate StoredPg(items: map<string, Metadata>) {
    forall x :: x in items ==> exists d :: items[x] == PgMetadata(d)
  }

  /** The filter `_vector_recall_entities` passes, as each adapter reads it. */
  function ChromaWanted(projects: seq<string>): Wanted {
    ChromaFilter(map["kind" := Str("entity"), "project_id" := StrList(projects)])
  }

  function PgWanted(projects: seq<string>): Wanted {
    PgFilter(projects, "entity")
  }

  // ----- recall -----

  /** Python's truth of `metadata.get("kuzu_uuid")`. */
  predicate HasUuid(h: Hit) {
    "kuzu_uuid" in h.metadata && h.metadata["kuzu_uuid"].Str? && h.metadata["kuzu_uuid"].s != ""
  }

  predicate IsHitOf(h: Hit, x: string) {
    HasUuid(h) && h.metadata["kuzu_uuid"].s == x
  }

  /** The greatest score of each entity hit, not below zero, and nothing for any other entity. */
  ghost predicate IsRecall(hits: seq<Hit>, scores: map<string, real>) {
    && (forall x :: x in scores ==> scores[x] >= 0.0 && exists v :: ScoredHit(hits, x, v))
    && (forall x, v :: ScoredHit(hits, x, v) ==> x in scores && scores[x] >= v)
    && forall x :: x in scores && scores[x] > 0.0 ==> ScoredHit(hits, x, scores[x])
  }

  /** `_vector_recall_entities` after the query; order lists the dict's keys. */
  method VectorRecall(hits: seq<Hit>) returns (scores: map<string, real>, order: seq<string>)
    ensures IsRecall(hits, scores)
    ensures forall x :: x in order <==> x in scores
  {
    scores, order := map[], [];
    for n := 0 to |hits|
      invariant IsRecall(hits[..n], scores)
      invariant forall x :: x in order <==> x in scores
    {
      assert hits[..n + 1] == hits[..n] + [hits[n]];
      RecallStep(hits[..n], hits[n], scores);
      if HasUuid(hits[n]) {
        var u := hits[n].metadata["kuzu_uuid"].s;
        if u !in scores {
          order := order + [u];
        }
        scores := scores[u := Greater(Score(scores, u), hits[n].score)];
      }
    }
    assert hits[..|hits|] == hits;
  }

  function Greater(a: real, b: real): real {
    if a >= b then a else b
  }

  /** Some hit of entity x scores v. */
  predicate ScoredHit(hits: seq<Hit>, x: string, v: real) {
    exists i :: 0 <= i < |hits| && IsHitOf(hits[i], x) && hits[i].score == v
  }

  lemma ScoredHitStep(hits: seq<Hit>, h: Hit, x: string, v: real)
    ensures ScoredHit(hits + [h], x, v) <==> ScoredHit(hits, x, v) || (IsHitOf(h, x) && h.score == v)
  {
    var hits' := hits + [h];
    assert hits'[|hits|] == h;
    if ScoredHit(hits, x, v) {
      var i :| 0 <= i < |hits| && IsHitOf(hits[i], x) && hits[i].score == v;
      assert hits'[i] == hits[i];
    }
    if ScoredHit(hits', x, v) && !(IsHitOf(h, x) && h.score == v) {
      var i :| 0 <= i < |hits'| && IsHitOf(hits'[i], x) && hits'[i].score == v;
      assert hits'[i] == hits[i];
    }
  }

  /** The dict after one more hit. */
  function AfterHit(scores: map<string, real>, h: Hit): map<string, real> {
    if HasUuid(h) then
      var u := h.metadata["kuzu_uuid"].s;
      scores[u := Greater(Score(scores, u), h.score)]
    else scores
  }

  lemma RecallStep(hits: seq<Hit>, h: Hit, scores: map<string, real>)
    requires IsRecall(hits, scores)
    ensures IsRecall(hits + [h], AfterHit(scores, h))
  {
    var scores' := AfterHit(scores, h);
    forall x, v ensures ScoredHit(hits + [h], x, v) <==> ScoredHit(hits, x, v) || (IsHitOf(h, x) && h.score == v) {
      ScoredHitStep(hits, h, x, v);
    }
    forall x | x in scores'
      ensures scores'[x] >= 0.0 && exists v :: ScoredHit(hits + [h], x, v)
      ensures scores'[x] > 0.0 ==> ScoredHit(hits + [h], x, scores'[x])
    {
      EntryStep(hits, h, scores, x);
    }
  }

  lemma EntryStep(hits: seq<Hit>, h: Hit, scores: map<string, real>, x: string)
    requires IsRecall(hits, scores) && x in AfterHit(scores, h)
    ensures var v := AfterHit(scores, h)[x];
      && v >= 0.0 && (v > 0.0 ==> ScoredHit(hits + [h], x, v)) && exists w :: ScoredHit(hits + [h], x, w)
  {
    var w: real;
    if x in scores {
      w :| ScoredHit(hits, x, w);
    } else {
      w := h.score;
    }
    ScoredHitStep(hits, h, x, w);
    ScoredHitStep(hits, h, x, AfterHit(scores, h)[x]);
  }

  /** The hits of the query over a collection. */
  function HitsIn(ids: seq<string>, items: map<string, Metadata>, wanted: Wanted, scoreOf: map<string, real>,
                  n: nat): seq<Hit> {
    HitsOf(items, TopOf(Filtered(ids, items, wanted), scoreOf, n), scoreOf, wanted)
  }

  /** What `search` makes of hits: recall, then expansion when it is asked for. */
  ghost predicate IsSearch(hits: seq<Hit>, rels: seq<Rel>, searchRelations: bool, scores: map<string, real>) {
    exists seeds :: IsRecall(hits, seeds)
      && if searchRelations then IsExpansion(rels, seeds, scores) else scores == seeds
  }

  /** The entity scores of `search`. */
  method SearchEntities(c: MemoryCollection, wanted: Wanted, scoreOf: map<string, real>, n: nat, rels: seq<Rel>,
                        searchRelations: bool) returns (scores: map<string, real>)
    requires c.Valid()
    ensures IsSearch(HitsIn(c.ids, c.items, wanted, scoreOf, n), rels, searchRelations, scores)
  {
    var hits := c.Query(wanted, scoreOf, n);
    var order: seq<string>;
    scores, order := VectorRecall(hits);
    if searchRelations && scores != map[] {
      scores := ExpandViaGraph(rels, scores, order);
    }
  }

  // ----- recall finds nothing -----

  lemma NoUuidNoRecall(hits: seq<Hit>, scores: map<string, real>)
    requires IsRecall(hits, scores) && forall i :: 0 <= i < |hits| ==> !HasUuid(hits[i])
    ensures scores == map[]
  {
    assert forall x :: x !in scores;
    assert scores.Keys == {};
  }

  /** And expanding nothing gives nothing. */
  lemma NoSeedsNoScores(rels: seq<Rel>, scores: map<string, real>)
    requires IsExpansion(rels, map[], scores)
    ensures scores == map[]
  {
    assert forall x :: x !in scores;
    assert scores.Keys == {};
  }

  lemma {:induction false} FilteredMatches(ids: seq<string>, items: map<string, Metadata>, wanted: Wanted, x: string)
    ensures x in Filtered(ids, items, wanted) <==> x in ids && x in items && Matches(items[x], wanted)
  {
    if |ids| > 0 {
      FilteredMatches(ids[..|ids| - 1], items, wanted, x);
      assert ids == ids[..|ids| - 1] + [ids[|ids| - 1]];
    }
  }

  /** A pgvector hit never carries "kuzu_uuid", which recall reads: `ref_id` has the uuid. */
  lemma PgHitHasNoUuid(m: Metadata, d: EntityDoc, wanted: Wanted, score: real)
    requires m == PgMetadata(d) && wanted.PgFilter?
    ensures !HasUuid(Hit(HitMetadata(m, wanted), score))
  {
  }

  /** The in-memory Chroma filter compares a string with the list of projects. */
  lemma ChromaNeverMatches(d: EntityDoc, projects: seq<string>)
    ensures !Matches(ChromaMetadata(d), ChromaWanted(projects))
  {
    assert "project_id" in ChromaWanted(projects).values;
  }

  /** Whatever entities are stored and however they score, the entity search over the pgvector
    * collection comes back empty. */
  lemma PgSearchFindsNothing(ids: seq<string>, items: map<string, Metadata>, projects: seq<string>,
                             scoreOf: map<string, real>, n: nat, rels: seq<Rel>, searchRelations: bool,
                             scores: map<string, real>)
    requires StoredPg(items)
    requires IsSearch(HitsIn(ids, items, PgWanted(projects), scoreOf, n), rels, searchRelations, scores)
    ensures scores == map[]
  {
    var hits := HitsIn(ids, items, PgWanted(projects), scoreOf, n);
    var top := TopOf(Filtered(ids, items, PgWanted(projects)), scoreOf, n);
    forall i | 0 <= i < |hits| ensures !HasUuid(hits[i]) {
      if top[i] in items {
        var d :| items[top[i]] == PgMetadata(d);
        PgHitHasNoUuid(items[top[i]], d, PgWanted(projects), Score(scoreOf, top[i]));
      }
    }
    EmptySearch(hits, rels, searchRelations, scores);
  }

  /** The same over the in-memory Chroma collection: its query returns no hit at all. */
  lemma ChromaSearchFindsNothing(ids: seq<string>, items: map<string, Metadata>, projects: seq<string>,
                                 scoreOf: map<string, real>, n: nat, rels: seq<Rel>, searchRelations: bool,
                                 scores: map<string, real>)
    requires StoredChroma(items)
    requires IsSearch(HitsIn(ids, items, ChromaWanted(projects), scoreOf, n), rels, searchRelations, scores)
    ensures HitsIn(ids, items, ChromaWanted(projects), scoreOf, n) == [] && scores == map[]
  {
    var found := Filtered(ids, items, ChromaWanted(projects));
    assert found == [] || found[0] in found;
    forall x ensures x !in found {
      FilteredMatches(ids, items, ChromaWanted(projects), x);
      if x in items {
        var d :| items[x] == ChromaMetadata(d);
        ChromaNeverMatches(d, projects);
      }
    }
    EmptySearch(HitsIn(ids, items, ChromaWanted(projects), scoreOf, n), rels, searchRelations, scores);
  }

  lemma EmptySearch(hits: seq<Hit>, rels: seq<Rel>, searchRelations: bool, scores: map<string, real>)
    requires IsSearch(hits, rels, searchRelations, scores) && forall i :: 0 <= i < |hits| ==> !HasUuid(hits[i])
    ensures scores == map[]
  {
    var seeds :| IsRecall(hits, seeds) && if searchRelations then IsExpansion(rels, seeds, scores) else scores == seeds;
    NoUuidNoRecall(hits, seeds);
    if searchRelations { NoSeedsNoScores(rels, scores); }
  }
}
