/** What the in-memory queries return and what recall reads (core/adapters/chroma_adapter.py,
  * core/adapters/pgvector_adapter.py, core/services/retrieval.py), field by field. */
module RecallColumns {
  import opened Wrappers
  import opened PathSearch
  import opened Scores
  import opened Recall

  /** Chroma's filter wants equal values; pgvector's wants the kind and, if it lists projects, one of them. */
  predicate Wants(wanted: Wanted, m: Metadata) {
    match wanted
    case ChromaFilter(values) => forall k :: k in values ==> k in m && m[k] == values[k]
    case PgFilter(projects, kind) =>
      && "kind" in m && m["kind"] == Str(kind)
      && (projects == [] || exists i :: 0 <= i < |projects| && "project_id" in m && m["project_id"] == Str(projects[i]))
  }

  lemma WantsIffMatches(wanted: Wanted, m: Metadata)
    ensures Wants(wanted, m) <==> Matches(m, wanted)
  {
    if wanted.PgFilter? && InProjects(m, wanted.projects) {
      var i :| 0 <= i < |wanted.projects| && wanted.projects[i] == m["project_id"].s;
    }
  }

  /** A hit shows the stored metadata; pgvector's leaves out the tenant and the validity. */
  ghost predicate ShowsItem(h: Hit, m: Metadata, wanted: Wanted, score: real) {
    && h.score == score
    && (forall k :: k in h.metadata <==>
          k in m && (wanted.ChromaFilter? || (k != "tenant_id" && k != "valid_from" && k != "valid_until")))
    && forall k :: k in h.metadata ==> h.metadata[k] == m[k]
  }

  /** The entries that the filter wants are the n best ones, which are the hits in descending order of
    * score, and the rest, which score no higher. */
  lemma QueryHits(ids: seq<string>, items: map<string, Metadata>, wanted: Wanted, scoreOf: map<string, real>, n: nat)
    returns (top: seq<string>, rest: seq<string>)
    requires Distinct(ids) && forall x :: x in ids <==> x in items
    ensures AreHits(HitsIn(ids, items, wanted, scoreOf, n), top, items, wanted, scoreOf)
    ensures |top| <= n && (rest != [] ==> |top| == n)
    ensures forall x :: multiset(top)[x] + multiset(rest)[x] == if x in items && Wants(wanted, items[x]) then 1 else 0
    ensures forall x, y :: x in top && y in rest ==> ScoreIn(scoreOf, x) >= ScoreIn(scoreOf, y)
    ensures forall i, j :: 0 <= i < j < |top| ==> ScoreIn(scoreOf, top[i]) >= ScoreIn(scoreOf, top[j])
  {
    var found := Filtered(ids, items, wanted);
    top := TopOf(found, scoreOf, n);
    rest := Ranked(found, scoreOf, n);
    forall x
      ensures multiset(top)[x] + multiset(rest)[x] == if x in items && Wants(wanted, items[x]) then 1 else 0
    {
      FoundOnce(ids, items, wanted, x);
    }
    HitsShow(ids, items, wanted, scoreOf, n);
  }

  lemma Ranked(found: seq<string>, scoreOf: map<string, real>, n: nat) returns (rest: seq<string>)
    ensures var top := TopOf(found, scoreOf, n);
            && |top| <= n && (rest != [] ==> |top| == n)
            && (forall x :: multiset(top)[x] + multiset(rest)[x] == multiset(found)[x])
            && (forall x, y :: x in top && y in rest ==> ScoreIn(scoreOf, x) >= ScoreIn(scoreOf, y))
            && forall i, j :: 0 <= i < j < |top| ==> ScoreIn(scoreOf, top[i]) >= ScoreIn(scoreOf, top[j])
  {
    rest := TopIsBest(found, scoreOf, n);
    var top := TopOf(found, scoreOf, n);
    SizesAdd(top, rest, found);
    assert forall x :: ScoreIn(scoreOf, x) == Score(scoreOf, x);
    forall x ensures multiset(top)[x] + multiset(rest)[x] == multiset(found)[x] {
      assert (multiset(top) + multiset(rest))[x] == multiset(found)[x];
    }
  }

  /** Hit i shows entry top[i]. */
  ghost predicate AreHits(hits: seq<Hit>, top: seq<string>, items: map<string, Metadata>, wanted: Wanted,
                          scoreOf: map<string, real>)
  {
    |hits| == |top| && forall i :: 0 <= i < |top| ==>
      top[i] in items && ShowsItem(hits[i], items[top[i]], wanted, ScoreIn(scoreOf, top[i]))
  }

  lemma SizesAdd(a: seq<string>, b: seq<string>, c: seq<string>)
    requires multiset(a) + multiset(b) == multiset(c)
    ensures |a| + |b| == |c|
  {
    assert |multiset(a) + multiset(b)| == |a| + |b| && |multiset(c)| == |c|;
  }

  lemma FoundOnce(ids: seq<string>, items: map<string, Metadata>, wanted: Wanted, x: string)
    requires Distinct(ids) && forall y :: y in ids <==> y in items
    ensures multiset(Filtered(ids, items, wanted))[x] == if x in items && Wants(wanted, items[x]) then 1 else 0
  {
    FilteredDistinct(ids, items, wanted);
    FilteredMatches(ids, items, wanted, x);
    CountDistinct(Filtered(ids, items, wanted), x);
    if x in items { WantsIffMatches(wanted, items[x]); }
  }

  lemma HitsShow(ids: seq<string>, items: map<string, Metadata>, wanted: Wanted, scoreOf: map<string, real>, n: nat)
    ensures AreHits(HitsIn(ids, items, wanted, scoreOf, n), TopOf(Filtered(ids, items, wanted), scoreOf, n), items,
                    wanted, scoreOf)
  {
    var found := Filtered(ids, items, wanted);
    var top := TopOf(found, scoreOf, n);
    var rest := TopIsBest(found, scoreOf, n);
    forall i | 0 <= i < |top|
      ensures top[i] in items && ShowsItem(HitsIn(ids, items, wanted, scoreOf, n)[i], items[top[i]], wanted,
                                           ScoreIn(scoreOf, top[i]))
    {
      assert top[i] in multiset(top) + multiset(rest);
      assert top[i] in found;
      FilteredMatches(ids, items, wanted, top[i]);
      HitShows(items[top[i]], wanted, ScoreIn(scoreOf, top[i]));
    }
  }

  lemma HitShows(m: Metadata, wanted: Wanted, score: real)
    ensures ShowsItem(Hit(HitMetadata(m, wanted), score), m, wanted, score)
  {
  }

  function ScoreIn(scoreOf: map<string, real>, x: string): real {
    if x in scoreOf then scoreOf[x] else 0.0
  }

  lemma {:induction false} FilteredDistinct(ids: seq<string>, items: map<string, Metadata>, wanted: Wanted)
    requires Distinct(ids)
    ensures Distinct(Filtered(ids, items, wanted))
  {
    if |ids| > 0 {
      var n := |ids| - 1;
      FilteredDistinct(ids[..n], items, wanted);
      FilteredMatches(ids[..n], items, wanted, ids[n]);
      DistinctSnoc(Filtered(ids[..n], items, wanted), ids[n]);
    }
  }

  lemma {:induction false} CountDistinct(s: seq<string>, x: string)
    requires Distinct(s)
    ensures multiset(s)[x] == if x in s then 1 else 0
  {
    if |s| > 0 {
      CountDistinct(s[..|s| - 1], x);
      assert s == s[..|s| - 1] + [s[|s| - 1]];
    }
  }

  /** Recall gives an entity a score exactly for a hit whose metadata names it, not emptily, under
    * "kuzu_uuid": the greatest score of those hits, or 0 if that is negative. */
  lemma RecalledScores(hits: seq<Hit>, scores: map<string, real>, x: string)
    requires IsRecall(hits, scores)
    ensures x in scores <==> exists i :: 0 <= i < |hits| && Names(hits[i], x)
    ensures forall i :: 0 <= i < |hits| && Names(hits[i], x) ==> scores[x] >= hits[i].score
    ensures x in scores ==> scores[x] >= 0.0
    ensures x in scores && scores[x] > 0.0 ==>
              exists i :: 0 <= i < |hits| && Names(hits[i], x) && hits[i].score == scores[x]
  {
    forall i | 0 <= i < |hits| ensures Names(hits[i], x) <==> IsHitOf(hits[i], x) {
    }
    forall i | 0 <= i < |hits| && Names(hits[i], x) ensures x in scores && scores[x] >= hits[i].score {
      assert ScoredHit(hits, x, hits[i].score);
    }
    if x in scores {
      var v :| ScoredHit(hits, x, v);
      var i :| 0 <= i < |hits| && IsHitOf(hits[i], x) && hits[i].score == v;
      if scores[x] > 0.0 {
        var j :| 0 <= j < |hits| && IsHitOf(hits[j], x) && hits[j].score == scores[x];
        assert Names(hits[j], x);
      }
    }
  }

  predicate Names(h: Hit, x: string) {
    x != "" && "kuzu_uuid" in h.metadata && h.metadata["kuzu_uuid"] == Str(x)
  }

  /** The pgvector filter of recall wants exactly the entities of its projects, so there are hits; what
    * they name the entity by is "ref_id", and nothing is under "kuzu_uuid". */
  lemma PgEntityHit(d: EntityDoc, projects: seq<string>, score: real)
    ensures Wants(PgWanted(projects), PgMetadata(d)) <==> projects == [] || d.project in projects
    ensures var m := HitMetadata(PgMetadata(d), PgWanted(projects));
            && m.Keys == {"kind", "ref_id", "name", "project_id"} && m["kind"] == Str("entity")
            && m["ref_id"] == Str(d.uuid) && m["name"] == Str(d.name) && m["project_id"] == Str(d.project)
  {
    if d.project in projects {
      var i :| 0 <= i < |projects| && projects[i] == d.project;
      assert PgMetadata(d)["project_id"] == Str(projects[i]);
    }
  }

  /** Chroma stores the project as a string, and recall asks for it as a list: a filter with the string
    * would want exactly the entities of that project, and their hits name them under "kuzu_uuid". */
  lemma ChromaEntityHit(d: EntityDoc, project: string, projects: seq<string>, score: real)
    ensures ChromaWanted(projects).ChromaFilter?
    ensures ChromaWanted(projects).values == map["kind" := Str("entity"), "project_id" := StrList(projects)]
    ensures var filter := ChromaFilter(map["kind" := Str("entity"), "project_id" := Str(project)]);
            Wants(filter, ChromaMetadata(d)) <==> d.project == project
    ensures d.uuid != "" ==> Names(Hit(HitMetadata(ChromaMetadata(d), ChromaWanted(projects)), score), d.uuid)
  {
    var values := map["kind" := Str("entity"), "project_id" := Str(project)];
    assert "project_id" in values && values["project_id"] == Str(project);
  }
}
