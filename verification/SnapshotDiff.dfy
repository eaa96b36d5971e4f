/** The snapshot diff of api/routers/temporal.py: two snapshots of one table, compared key by key. */
module SnapshotDiff {
  import opened Wrappers
  import opened Temporal
  import opened TemporalRuns
  import opened TimeOrder

  /** What `to_dict` shows of a row; A stands for the business fields it copies. */
  datatype View<A> = View(key: string, fields: A, version: nat, validFrom: int, validUntil: Option<int>)

  function ViewOf<A>(r: Row<A>): View<A> {
    View(r.key, r.attrs, r.version, r.validFrom, r.validUntil)
  }

  datatype Change<A> =
    | Added(kind: string, id: string, after: View<A>)
    | Removed(kind: string, id: string, before: View<A>)
    | Modified(kind: string, id: string, before: View<A>, after: View<A>)

  /** The dict comprehension over a snapshot: a later row of a key replaces an earlier one. */
  function DictOf<A>(rows: seq<Row<A>>): map<string, Row<A>> {
    if |rows| == 0 then map[] else DictOf(rows[..|rows| - 1])[rows[|rows| - 1].key := rows[|rows| - 1]]
  }

  /** What the diff has to report for one key. */
  function ChangeOf<A>(before: map<string, Row<A>>, after: map<string, Row<A>>, kind: string,
                       k: string): Option<Change<A>> {
    if k in after then
      if k !in before then Some(Added(kind, k, ViewOf(after[k])))
      else if before[k].version != after[k].version then Some(Modified(kind, k, ViewOf(before[k]), ViewOf(after[k])))
      else None
    else if k in before then Some(Removed(kind, k, ViewOf(before[k])))
    else None
  }

  /** The list reports exactly what is to be reported, each key once. */
  ghost predicate IsDiff<A>(before: map<string, Row<A>>, after: map<string, Row<A>>, kind: string, d: seq<Change<A>>) {
    && Reports(before, after, kind, d)
    && forall k :: Listed(before, after, kind, d, k)
  }

  /** If key k has a change, it is in the list. */
  ghost predicate Listed<A>(before: map<string, Row<A>>, after: map<string, Row<A>>, kind: string, d: seq<Change<A>>,
                            k: string) {
    ChangeOf(before, after, kind, k).Some? ==> ChangeOf(before, after, kind, k).value in d
  }

  ghost predicate Reports<A>(before: map<string, Row<A>>, after: map<string, Row<A>>, kind: string, d: seq<Change<A>>) {
    && (forall i :: 0 <= i < |d| ==> ChangeOf(before, after, kind, d[i].id) == Some(d[i]))
    && forall i, j :: 0 <= i < j < |d| ==> d[i].id != d[j].id
  }

  datatype ChangeType = AddedType | RemovedType | ModifiedType

  function TypeOf<A>(c: Change<A>): ChangeType {
    match c
    case Added(_, _, _) => AddedType
    case Removed(_, _, _) => RemovedType
    case Modified(_, _, _, _) => ModifiedType
  }

  function CountOf<A>(d: seq<Change<A>>, t: ChangeType): nat {
    if |d| == 0 then 0 else CountOf(d[..|d| - 1], t) + (if TypeOf(d[|d| - 1]) == t then 1 else 0)
  }

  /** The items for the keys ks, and no others, are in d. */
  ghost predicate Covers<A>(before: map<string, Row<A>>, after: map<string, Row<A>>, kind: string, d: seq<Change<A>>,
                            ks: seq<string>) {
    && Reports(before, after, kind, d)
    && (forall c :: c in d ==> c.id in ks)
    && forall k :: k in ks ==> Listed(before, after, kind, d, k)
  }

  /** The item for one key, if there is one. */
  function Item<A>(before: map<string, Row<A>>, after: map<string, Row<A>>, kind: string, k: string): seq<Change<A>> {
    match ChangeOf(before, after, kind, k)
    case None => []
    case Some(c) => [c]
  }

  lemma CoversStep<A>(before: map<string, Row<A>>, after: map<string, Row<A>>, kind: string, d: seq<Change<A>>,
                      ks: seq<string>, k: string)
    requires Covers(before, after, kind, d, ks) && k !in ks
    ensures Covers(before, after, kind, d + Item(before, after, kind, k), ks + [k])
  {
    var d' := d + Item(before, after, kind, k);
    forall i | 0 <= i < |d| ensures d[i].id != k { assert d[i] in d; }
    assert Reports(before, after, kind, d');
    forall j | j in ks + [k] ensures Listed(before, after, kind, d', j) {
      if j == k {
        assert ChangeOf(before, after, kind, k).Some? ==> d'[|d|] == ChangeOf(before, after, kind, k).value;
      } else {
        assert Listed(before, after, kind, d, j);
      }
    }
  }

  // ----- the comparison loops -----

  /** The variables `snapshot_diff` shares between its calls of `diff_model`. */
  class Report<A(==)> {
    var added: nat
    var removed: nat
    var modified: nat
    var changes: seq<Change<A>>

    /** The three counters are the numbers of items of each type. */
    ghost predicate Tallied()
      reads this
    {
      added == CountOf(changes, AddedType) && removed == CountOf(changes, RemovedType)
        && modified == CountOf(changes, ModifiedType)
    }

    constructor ()
      ensures Tallied() && changes == []
    {
      added, removed, modified, changes := 0, 0, 0, [];
    }

    method Append(c: Change<A>)
      requires Tallied()
      modifies this
      ensures Tallied() && changes == old(changes) + [c]
    {
      match c {
        case Added(_, _, _) => added := added + 1;
        case Removed(_, _, _) => removed := removed + 1;
        case Modified(_, _, _, _) => modified := modified + 1;
      }
      changes := changes + [c];
      assert changes[..|changes| - 1] == old(changes);
    }

    /** `diff_model`, given what its two snapshot queries return. */
    method DiffModel(from: seq<Row<A>>, to: seq<Row<A>>, kind: string)
      requires Tallied()
      modifies this
      ensures Tallied() && |old(changes)| <= |changes| && changes[..|old(changes)|] == old(changes)
      ensures IsDiff(DictOf(from), DictOf(to), kind, changes[|old(changes)|..])
    {
      var beforeKeys, before := ToDict(from);
      var afterKeys, after := ToDict(to);
      ghost var d := ReportAfter(before, after, afterKeys, kind);
      d := ReportBefore(before, after, beforeKeys, kind, d, afterKeys);
      assert changes[|old(changes)|..] == d;
    }

    /** The loop over `after`: added and modified keys. */
    method ReportAfter(before: map<string, Row<A>>, after: map<string, Row<A>>, keys: seq<string>, kind: string)
      returns (ghost d: seq<Change<A>>)
      requires Tallied()
      requires forall k :: k in keys <==> k in after
      requires forall i, j :: 0 <= i < j < |keys| ==> keys[i] != keys[j]
      modifies this
      ensures Tallied() && changes == old(changes) + d && Covers(before, after, kind, d, keys)
    {
      d := [];
      assert keys[..0] == [];
      for i := 0 to |keys|
        invariant Tallied() && changes == old(changes) + d && Covers(before, after, kind, d, keys[..i])
      {
        NextKey(keys, i);
        CoversStep(before, after, kind, d, keys[..i], keys[i]);
        ReportKept(before, after, keys[i], kind);
        d := d + Item(before, after, kind, keys[i]);
      }
      assert keys[..|keys|] == keys;
    }

    /** The body of that loop. */
    method ReportKept(before: map<string, Row<A>>, after: map<string, Row<A>>, k: string, kind: string)
      requires Tallied() && k in after
      modifies this
      ensures Tallied() && changes == old(changes) + Item(before, after, kind, k)
    {
      if k !in before {
        Append(Added(kind, k, ViewOf(after[k])));
      } else if before[k].version != after[k].version {
        Append(Modified(kind, k, ViewOf(before[k]), ViewOf(after[k])));
      }
    }

    /** The loop over `before`: removed keys. */
    method ReportBefore(before: map<string, Row<A>>, after: map<string, Row<A>>, keys: seq<string>, kind: string,
                        ghost d0: seq<Change<A>>, ghost done: seq<string>)
      returns (ghost d: seq<Change<A>>)
      requires Tallied() && |d0| <= |changes| && changes[|changes| - |d0|..] == d0
      requires forall k :: k in keys <==> k in before
      requires forall k :: k in done <==> k in after
      requires forall i, j :: 0 <= i < j < |keys| ==> keys[i] != keys[j]
      requires Covers(before, after, kind, d0, done)
      modifies this
      ensures Tallied() && changes == old(changes)[..|old(changes)| - |d0|] + d
      ensures IsDiff(before, after, kind, d)
    {
      d := d0;
      ghost var base := changes[..|changes| - |d0|];
      ghost var ks := done;
      for i := 0 to |keys|
        invariant Tallied() && changes == base + d && Reporting(before, after, kind, keys[..i], d, ks)
      {
        ReportingStep(before, after, kind, keys, i, d, ks);
        if keys[i] !in after {
          d, ks := d + Item(before, after, kind, keys[i]), ks + [keys[i]];
          Append(Removed(kind, keys[i], ViewOf(before[keys[i]])));
        }
      }
      assert keys[..|keys|] == keys;
      CoversAll(before, after, kind, d, ks);
    }
  }

  /** What the two snapshot queries on one table return. */
  datatype Snapshots<A> = Snapshots(from: seq<Row<A>>, to: seq<Row<A>>)

  /** `snapshot_diff`: both tables into one report, entities first. A stands for the business
    * fields of either table. */
  method SnapshotDiff<A(==)>(entities: Snapshots<A>, relations: Snapshots<A>, includeEntities: bool,
                        includeRelations: bool)
    returns (report: Report<A>, ghost d: seq<Change<A>>, ghost e: seq<Change<A>>)
    ensures report.Tallied() && report.changes == d + e
    ensures if includeEntities then IsDiff(DictOf(entities.from), DictOf(entities.to), "entity", d) else d == []
    ensures if includeRelations then IsDiff(DictOf(relations.from), DictOf(relations.to), "relation", e) else e == []
  {
    report := new Report();
    if includeEntities {
      report.DiffModel(entities.from, entities.to, "entity");
    }
    d := report.changes;
    if includeRelations {
      report.DiffModel(relations.from, relations.to, "relation");
    }
    e := report.changes[|d|..];
    assert report.changes[..|d|] == d;
  }

  /** ks are the keys of `after` and those of done. */
  ghost predicate Visited<A>(after: map<string, Row<A>>, done: seq<string>, ks: seq<string>) {
    forall k :: k in ks <==> k in after || k in done
  }

  lemma VisitedStep<A>(after: map<string, Row<A>>, done: seq<string>, ks: seq<string>, k: string)
    requires Visited(after, done, ks) && k !in done
    ensures k in ks <==> k in after
    ensures Visited(after, done + [k], if k in after then ks else ks + [k])
  {
  }

  /** The removed keys among done are reported, besides those of `after`. */
  ghost predicate Reporting<A>(before: map<string, Row<A>>, after: map<string, Row<A>>, kind: string,
                               done: seq<string>, d: seq<Change<A>>, ks: seq<string>)
  {
    Covers(before, after, kind, d, ks) && Visited(after, done, ks)
  }

  lemma ReportingStep<A>(before: map<string, Row<A>>, after: map<string, Row<A>>, kind: string, keys: seq<string>,
                         i: nat, d: seq<Change<A>>, ks: seq<string>)
    requires i < |keys| && forall a, b :: 0 <= a < b < |keys| ==> keys[a] != keys[b]
    requires Reporting(before, after, kind, keys[..i], d, ks)
    ensures var k := keys[i];
            if k in after then Reporting(before, after, kind, keys[..i + 1], d, ks)
            else Reporting(before, after, kind, keys[..i + 1], d + Item(before, after, kind, k), ks + [k])
  {
    NextKey(keys, i);
    VisitedStep(after, keys[..i], ks, keys[i]);
    if keys[i] !in after {
      CoversStep(before, after, kind, d, ks, keys[i]);
    }
  }

  lemma NextKey(keys: seq<string>, i: nat)
    requires i < |keys| && forall a, b :: 0 <= a < b < |keys| ==> keys[a] != keys[b]
    ensures keys[..i + 1] == keys[..i] + [keys[i]] && keys[i] !in keys[..i]
  {
  }

  lemma CoversAll<A>(before: map<string, Row<A>>, after: map<string, Row<A>>, kind: string, d: seq<Change<A>>,
                     ks: seq<string>)
    requires Covers(before, after, kind, d, ks) && forall k :: k in before || k in after ==> k in ks
    ensures IsDiff(before, after, kind, d)
  {
    forall k ensures Listed(before, after, kind, d, k) {
      assert ChangeOf(before, after, kind, k).Some? ==> k in ks;
    }
  }

  /** A dict with its keys in insertion order. */
  method ToDict<A>(rows: seq<Row<A>>) returns (keys: seq<string>, m: map<string, Row<A>>)
    ensures m == DictOf(rows)
    ensures forall k :: k in keys <==> k in m
    ensures forall i, j :: 0 <= i < j < |keys| ==> keys[i] != keys[j]
  {
    keys, m := [], map[];
    for i := 0 to |rows|
      invariant m == DictOf(rows[..i])
      invariant forall k :: k in keys <==> k in m
      invariant forall i, j :: 0 <= i < j < |keys| ==> keys[i] != keys[j]
    {
      assert rows[..i + 1][..i] == rows[..i];
      if rows[i].key !in m {
        keys := keys + [rows[i].key];
      }
      m := m[rows[i].key := rows[i]];
    }
    assert rows[..|rows|] == rows;
  }

  // ----- the diff is a patch -----

  function Views<A>(m: map<string, Row<A>>): map<string, View<A>> {
    map k | k in m :: ViewOf(m[k])
  }

  /** Applying the reported items in order. */
  function Patch<A>(m: map<string, View<A>>, d: seq<Change<A>>): map<string, View<A>> {
    if |d| == 0 then m
    else
      var p := Patch(m, d[..|d| - 1]);
      match d[|d| - 1]
      case Added(_, id, v) => p[id := v]
      case Modified(_, id, _, v) => p[id := v]
      case Removed(_, id, _) => p - {id}
  }

  /** A patch touches the ids it lists, each as its one item says. */
  ghost predicate PatchedAt<A>(m: map<string, View<A>>, d: seq<Change<A>>, k: string) {
    && ((forall i :: 0 <= i < |d| ==> d[i].id != k) ==>
      (k in Patch(m, d) <==> k in m) && (k in m ==> Patch(m, d)[k] == m[k]))
    && forall i :: 0 <= i < |d| && d[i].id == k ==>
         (k in Patch(m, d) <==> !d[i].Removed?) && (!d[i].Removed? ==> Patch(m, d)[k] == d[i].after)
  }

  lemma {:induction false} PatchAt<A>(m: map<string, View<A>>, d: seq<Change<A>>, k: string)
    requires forall i, j :: 0 <= i < j < |d| ==> d[i].id != d[j].id
    ensures PatchedAt(m, d, k)
  {
    if |d| > 0 {
      PatchAt(m, d[..|d| - 1], k);
      PatchStep(m, d, k);
    }
  }

  lemma PatchStep<A>(m: map<string, View<A>>, d: seq<Change<A>>, k: string)
    requires |d| > 0 && forall i, j :: 0 <= i < j < |d| ==> d[i].id != d[j].id
    requires PatchedAt(m, d[..|d| - 1], k)
    ensures PatchedAt(m, d, k)
  {
    var e := d[..|d| - 1];
    assert forall i :: 0 <= i < |e| ==> e[i] == d[i];
    assert Patch(m, d) == match d[|d| - 1]
                          case Added(_, id, v) => Patch(m, e)[id := v]
                          case Modified(_, id, _, v) => Patch(m, e)[id := v]
                          case Removed(_, id, _) => Patch(m, e) - {id};
  }

  /** Keys in both dicts with equal versions look the same. */
  ghost predicate VersionsTell<A>(before: map<string, Row<A>>, after: map<string, Row<A>>) {
    forall k :: k in before && k in after && before[k].version == after[k].version ==>
      ViewOf(before[k]) == ViewOf(after[k])
  }

  /** Patching the earlier dict with the diff gives the later one if and only if versions tell. */
  lemma DiffIsPatchIff<A>(before: map<string, Row<A>>, after: map<string, Row<A>>, kind: string, d: seq<Change<A>>)
    requires IsDiff(before, after, kind, d)
    ensures Patch(Views(before), d) == Views(after) <==> VersionsTell(before, after)
  {
    var p := Patch(Views(before), d);
    forall k
      ensures k in p <==> k in after
      ensures k in p && k in after ==>
                p[k] == if ChangeOf(before, after, kind, k).Some? then ViewOf(after[k]) else ViewOf(before[k])
    {
      PatchedTo(before, after, kind, d, k);
    }
    if p == Views(after) {
      forall k | k in before && k in after && before[k].version == after[k].version
        ensures ViewOf(before[k]) == ViewOf(after[k])
      {
        assert p[k] == Views(after)[k];
      }
    }
  }

  lemma PatchedTo<A>(before: map<string, Row<A>>, after: map<string, Row<A>>, kind: string, d: seq<Change<A>>,
                     k: string)
    requires IsDiff(before, after, kind, d)
    ensures var p := Patch(Views(before), d); var c := ChangeOf(before, after, kind, k);
      && (k in p <==> k in after)
      && (k in after ==> (c.None? ==> k in before) && p[k] == ViewOf(if c.Some? then after[k] else before[k]))
  {
    PatchAt(Views(before), d, k);
    var c := ChangeOf(before, after, kind, k);
    assert Listed(before, after, kind, d, k);
    if c.Some? {
      var i :| 0 <= i < |d| && d[i] == c.value;
    }
  }

  lemma {:induction false} SnapshotIn<A>(rows: seq<Row<A>>, p: string, t: int)
    ensures forall r :: r in Snapshot(rows, p, t) <==> r in rows && Counted(r, p, t)
  {
    if |rows| > 0 {
      SnapshotIn(rows[..|rows| - 1], p, t);
      assert rows == rows[..|rows| - 1] + [rows[|rows| - 1]];
    }
  }

  lemma {:induction false} DictIn<A>(rows: seq<Row<A>>)
    ensures forall k :: k in DictOf(rows) <==> exists i :: 0 <= i < |rows| && rows[i].key == k
    ensures forall k :: k in DictOf(rows) ==> DictOf(rows)[k] in rows && DictOf(rows)[k].key == k
  {
    if |rows| > 0 {
      var n := |rows| - 1;
      DictIn(rows[..n]);
      assert rows == rows[..n] + [rows[n]];
      forall k ensures k in DictOf(rows) <==> exists i :: 0 <= i < |rows| && rows[i].key == k {
        if k in DictOf(rows[..n]) {
          var i :| 0 <= i < n && rows[..n][i].key == k;
          assert rows[i].key == k;
        }
        if i :| 0 <= i < |rows| && rows[i].key == k {
          assert i < n ==> rows[..n][i].key == k;
        }
      }
    }
  }

  /** In a well-formed table a row is determined by project, key and version. */
  lemma SameVersionSameRow<A>(rows: seq<Row<A>>, a: Row<A>, b: Row<A>)
    requires WellFormed(rows) && a in rows && b in rows && SameKey(a, b) && a.version == b.version
    ensures a == b
  {
    VersionsOrdered(rows, a.project, a.key);
    var i :| 0 <= i < |rows| && rows[i] == a;
    var j :| 0 <= j < |rows| && rows[j] == b;
    assert i == j;
  }

  /** The query has no ORDER BY: it returns the rows of the snapshot, each once, in any order. */
  ghost predicate Queried<A>(rows: seq<Row<A>>, p: string, t: int, found: seq<Row<A>>) {
    multiset(found) == multiset(Snapshot(rows, p, t))
  }

  lemma QueriedIn<A>(rows: seq<Row<A>>, p: string, t: int, found: seq<Row<A>>, r: Row<A>)
    requires Queried(rows, p, t, found)
    ensures r in found <==> r in rows && Counted(r, p, t)
  {
    SnapshotIn(rows, p, t);
    assert r in found <==> r in multiset(found);
    assert r in Snapshot(rows, p, t) <==> r in multiset(Snapshot(rows, p, t));
  }

  /** On every well-formed table, in whatever order the rows are returned, the diff between two
    * times patches the first dict to the second. */
  lemma TableDiffIsPatch<A>(rows: seq<Row<A>>, p: string, t: int, u: int, from: seq<Row<A>>, to: seq<Row<A>>,
                            kind: string, d: seq<Change<A>>)
    requires WellFormed(rows) && Queried(rows, p, t, from) && Queried(rows, p, u, to)
    requires IsDiff(DictOf(from), DictOf(to), kind, d)
    ensures Patch(Views(DictOf(from)), d) == Views(DictOf(to))
  {
    var before, after := DictOf(from), DictOf(to);
    forall k | k in before && k in after && before[k].version == after[k].version
      ensures before[k] == after[k]
    {
      DictIn(from);
      DictIn(to);
      QueriedIn(rows, p, t, from, before[k]);
      QueriedIn(rows, p, u, to, after[k]);
      SameVersionSameRow(rows, before[k], after[k]);
    }
    DiffIsPatchIff(before, after, kind, d);
  }

  lemma DictKeysAreLive<A>(rows: seq<Row<A>>, p: string, t: int, found: seq<Row<A>>, k: string)
    requires Queried(rows, p, t, found)
    ensures k in DictOf(found) <==> k in LiveKeys(rows, p, t)
  {
    DictIn(found);
    if k in DictOf(found) {
      QueriedIn(rows, p, t, found, DictOf(found)[k]);
      var i :| 0 <= i < |rows| && rows[i] == DictOf(found)[k];
    }
    if k in LiveKeys(rows, p, t) {
      var i :| 0 <= i < |rows| && Counted(rows[i], p, t) && rows[i].key == k;
      QueriedIn(rows, p, t, found, rows[i]);
      var j :| 0 <= j < |found| && found[j] == rows[i];
    }
  }

  /** The dict holds the whole snapshot exactly when no key has two rows in force. */
  lemma DictIsSnapshotIff<A>(rows: seq<Row<A>>, p: string, t: int, found: seq<Row<A>>)
    requires Queried(rows, p, t, found)
    ensures |DictOf(found)| == |found| <==> SingleAt(rows, p, t)
  {
    CountIsLiveKeys(rows, p, t);
    assert |found| == |multiset(found)| == |Snapshot(rows, p, t)|;
    forall k ensures k in DictOf(found) <==> k in LiveKeys(rows, p, t) {
      DictKeysAreLive(rows, p, t, found, k);
    }
    assert DictOf(found).Keys == LiveKeys(rows, p, t);
  }

  // ----- the same time twice, and the times swapped -----

  /** With one row per key the order of the query's rows does not matter. */
  lemma OneDict<A>(rows: seq<Row<A>>, p: string, t: int, found: seq<Row<A>>, found': seq<Row<A>>)
    requires SingleAt(rows, p, t) && Queried(rows, p, t, found) && Queried(rows, p, t, found')
    ensures DictOf(found) == DictOf(found')
  {
    forall k ensures k in DictOf(found) <==> k in DictOf(found') {
      DictKeysAreLive(rows, p, t, found, k);
      DictKeysAreLive(rows, p, t, found', k);
    }
    forall k | k in DictOf(found) && k in DictOf(found') ensures DictOf(found)[k] == DictOf(found')[k] {
      DictIn(found);
      DictIn(found');
      var r, r' := DictOf(found)[k], DictOf(found')[k];
      QueriedIn(rows, p, t, found, r);
      QueriedIn(rows, p, t, found', r');
      var i :| 0 <= i < |rows| && rows[i] == r;
      var j :| 0 <= j < |rows| && rows[j] == r';
    }
  }

  /** Any row in force may be the one that the dict keeps for its key. */
  lemma AnyRowLast<A>(rows: seq<Row<A>>, p: string, t: int, r: Row<A>) returns (found: seq<Row<A>>)
    requires r in rows && Counted(r, p, t)
    ensures Queried(rows, p, t, found) && r.key in DictOf(found) && DictOf(found)[r.key] == r
  {
    var snap := Snapshot(rows, p, t);
    SnapshotIn(rows, p, t);
    var i :| 0 <= i < |snap| && snap[i] == r;
    found := snap[..i] + snap[i + 1..] + [r];
    assert snap == snap[..i] + [r] + snap[i + 1..];
    assert found[..|found| - 1] == snap[..i] + snap[i + 1..];
  }

  /** There is a diff of any two dicts. */
  lemma DiffExists<A>(before: map<string, Row<A>>, after: map<string, Row<A>>, kind: string) returns (d: seq<Change<A>>)
    ensures IsDiff(before, after, kind, d)
  {
    var ks: seq<string>;
    d, ks := DiffOver(before, after, kind, before.Keys + after.Keys);
    CoversAll(before, after, kind, d, ks);
  }

  lemma {:induction false} DiffOver<A>(before: map<string, Row<A>>, after: map<string, Row<A>>, kind: string,
                                       keys: set<string>) returns (d: seq<Change<A>>, ks: seq<string>)
    ensures Covers(before, after, kind, d, ks) && forall k :: k in ks <==> k in keys
    decreases |keys|
  {
    if keys == {} {
      d, ks := [], [];
    } else {
      var k :| k in keys;
      d, ks := DiffOver(before, after, kind, keys - {k});
      CoversStep(before, after, kind, d, ks, k);
      d, ks := d + Item(before, after, kind, k), ks + [k];
    }
  }

  lemma SameDictNoDiff<A>(m: map<string, Row<A>>, kind: string, d: seq<Change<A>>)
    ensures IsDiff(m, m, kind, d) <==> d == []
  {
    assert |d| > 0 ==> ChangeOf(m, m, kind, d[0].id).None?;
    assert d == [] ==> forall k :: Listed(m, m, kind, d, k);
  }

  /** d is what a request for the times t and u reports when its queries return from and to. */
  ghost predicate Requested<A>(rows: seq<Row<A>>, p: string, t: int, u: int, kind: string, from: seq<Row<A>>,
                               to: seq<Row<A>>, d: seq<Change<A>>)
  {
    Queried(rows, p, t, from) && Queried(rows, p, u, to) && IsDiff(DictOf(from), DictOf(to), kind, d)
  }

  /** However the two queries order their rows, comparing the time with itself reports nothing. */
  ghost predicate NoSelfDiff<A(!new)>(rows: seq<Row<A>>, p: string, t: int, kind: string) {
    forall from, to, d :: Requested(rows, p, t, t, kind, from, to, d) ==> d == []
  }

  /** Comparing a time with itself reports nothing if and only if no key has two rows in force. */
  lemma DiffOfSameIff<A(!new)>(rows: seq<Row<A>>, p: string, t: int, kind: string)
    requires WellFormed(rows)
    ensures NoSelfDiff(rows, p, t, kind) <==> SingleAt(rows, p, t)
  {
    if SingleAt(rows, p, t) {
      forall from, to, d | Requested(rows, p, t, t, kind, from, to, d)
        ensures d == []
      {
        OneDict(rows, p, t, from, to);
        SameDictNoDiff(DictOf(from), kind, d);
      }
    } else {
      var from, to, k := TwoDicts(rows, p, t);
      var d := DiffExists(DictOf(from), DictOf(to), kind);
      assert Listed(DictOf(from), DictOf(to), kind, d, k);
      assert Requested(rows, p, t, t, kind, from, to, d) && d != [];
    }
  }

  /** Where a key has two rows in force, two queries may give dicts with different versions of it. */
  lemma TwoDicts<A>(rows: seq<Row<A>>, p: string, t: int) returns (from: seq<Row<A>>, to: seq<Row<A>>, k: string)
    requires WellFormed(rows) && !SingleAt(rows, p, t)
    ensures Queried(rows, p, t, from) && Queried(rows, p, t, to)
    ensures k in DictOf(from) && k in DictOf(to) && DictOf(from)[k].version != DictOf(to)[k].version
  {
    var i, j :| 0 <= i < j < |rows| && Counted(rows[i], p, t) && Counted(rows[j], p, t) && rows[i].key == rows[j].key;
    k := rows[i].key;
    VersionsOrdered(rows, p, k);
    from := AnyRowLast(rows, p, t, rows[i]);
    to := AnyRowLast(rows, p, t, rows[j]);
  }

  /** The run of backdated writes leaves a table at which comparing time 7 with itself may report
    * a change. */
  lemma SelfDiffReports(ops: seq<Op<int>>, kind: string)
    returns (tables: seq<seq<Row<int>>>, from: seq<Row<int>>, to: seq<Row<int>>, d: seq<Change<int>>)
    requires ops == [Supersede("p", "k", 1, 0, "s"), Supersede("p", "k", 10, 0, "s"), Supersede("p", "k", 5, 0, "s")]
    ensures Run(ops, tables) && Requested(tables[3], "p", 7, 7, kind, from, to, d) && d != []
  {
    tables := BackdatedWriteOverlaps(ops);
    ReachableWellFormed(ops, tables, 3);
    DiffOfSameIff(tables[3], "p", 7, kind);
    from, to, d :| Requested(tables[3], "p", 7, 7, kind, from, to, d) && d != [];
  }

  function Flip<A>(c: Change<A>): Change<A> {
    match c
    case Added(kind, id, v) => Removed(kind, id, v)
    case Removed(kind, id, v) => Added(kind, id, v)
    case Modified(kind, id, v, w) => Modified(kind, id, w, v)
  }

  /** A diff holds exactly the changes there are. */
  lemma ItemIff<A>(before: map<string, Row<A>>, after: map<string, Row<A>>, kind: string, d: seq<Change<A>>,
                   c: Change<A>)
    requires IsDiff(before, after, kind, d)
    ensures c in d <==> ChangeOf(before, after, kind, c.id) == Some(c)
  {
    assert Listed(before, after, kind, d, c.id);
    if c in d {
      var i :| 0 <= i < |d| && d[i] == c;
    }
  }

  lemma FlippedChange<A>(before: map<string, Row<A>>, after: map<string, Row<A>>, kind: string, c: Change<A>)
    ensures Flip(c).id == c.id && Flip(Flip(c)) == c
    ensures ChangeOf(after, before, kind, c.id) == Some(Flip(c)) <==> ChangeOf(before, after, kind, c.id) == Some(c)
  {
  }

  /** e is d with before and after exchanged in each item. */
  ghost predicate Flipped<A>(d: seq<Change<A>>, e: seq<Change<A>>) {
    (forall c :: c in d ==> Flip(c) in e) && forall c :: c in e ==> Flip(c) in d
  }

  lemma FlippedItem<A>(before: map<string, Row<A>>, after: map<string, Row<A>>, kind: string, d: seq<Change<A>>,
                       e: seq<Change<A>>, c: Change<A>)
    requires IsDiff(before, after, kind, d) && IsDiff(after, before, kind, e) && c in d
    ensures Flip(c) in e
  {
    ItemIff(before, after, kind, d, c);
    ItemIff(after, before, kind, e, Flip(c));
    FlippedChange(before, after, kind, c);
  }

  lemma FlippedDiff<A>(before: map<string, Row<A>>, after: map<string, Row<A>>, kind: string, d: seq<Change<A>>,
                       e: seq<Change<A>>)
    requires IsDiff(before, after, kind, d) && IsDiff(after, before, kind, e)
    ensures Flipped(d, e)
    ensures CountOf(e, AddedType) == CountOf(d, RemovedType) && CountOf(e, RemovedType) == CountOf(d, AddedType)
    ensures CountOf(e, ModifiedType) == CountOf(d, ModifiedType)
  {
    forall c | c in d ensures Flip(c) in e { FlippedItem(before, after, kind, d, e, c); }
    forall c | c in e ensures Flip(c) in d { FlippedItem(after, before, kind, e, d, c); }
    DiffCounts(before, after, kind, d);
    DiffCounts(after, before, kind, e);
    assert (set k | k in before && k in after && before[k].version != after[k].version)
        == (set k | k in after && k in before && after[k].version != before[k].version);
  }

  /** A request for the times t and u, and one for u and t, each with its own queries. */
  ghost predicate Swapped<A(!new)>(rows: seq<Row<A>>, p: string, t: int, u: int, kind: string, d: seq<Change<A>>,
                             e: seq<Change<A>>)
  {
    && (exists from, to :: Requested(rows, p, t, u, kind, from, to, d))
    && exists from, to :: Requested(rows, p, u, t, kind, from, to, e)
  }

  /** Swapping the two times swaps added with removed, item by item and in the counters, where no
    * key has two rows in force at either time. */
  lemma SwappedDiff<A(!new)>(rows: seq<Row<A>>, p: string, t: int, u: int, kind: string, d: seq<Change<A>>,
                      e: seq<Change<A>>)
    requires SingleAt(rows, p, t) && SingleAt(rows, p, u) && Swapped(rows, p, t, u, kind, d, e)
    ensures Flipped(d, e)
    ensures CountOf(e, AddedType) == CountOf(d, RemovedType) && CountOf(e, RemovedType) == CountOf(d, AddedType)
    ensures CountOf(e, ModifiedType) == CountOf(d, ModifiedType)
  {
    var from, to :| Requested(rows, p, t, u, kind, from, to, d);
    var from', to' :| Requested(rows, p, u, t, kind, from', to', e);
    OneDict(rows, p, t, from, to');
    OneDict(rows, p, u, to, from');
    FlippedDiff(DictOf(from), DictOf(to), kind, d, e);
  }

  /** And the condition is exact: two rows of a key at either time spoil the swap. */
  lemma SwappedDiffIff<A(!new)>(rows: seq<Row<A>>, p: string, t: int, u: int, kind: string)
    requires WellFormed(rows)
    ensures (forall d, e :: Swapped(rows, p, t, u, kind, d, e) ==> Flipped(d, e)) <==>
              SingleAt(rows, p, t) && SingleAt(rows, p, u)
  {
    if SingleAt(rows, p, t) && SingleAt(rows, p, u) {
      forall d, e | Swapped(rows, p, t, u, kind, d, e) ensures Flipped(d, e) {
        SwappedDiff(rows, p, t, u, kind, d, e);
      }
    } else if !SingleAt(rows, p, t) {
      var d, e := SpoiledSwap(rows, p, t, u, kind);
      assert Swapped(rows, p, t, u, kind, d, e) && !Flipped(d, e);
    } else {
      var d, e := SpoiledSwap(rows, p, u, t, kind);
      if Flipped(e, d) { FlippedBack(e, d); }
      assert Swapped(rows, p, t, u, kind, e, d) && !Flipped(e, d);
    }
  }

  lemma FlippedBack<A>(d: seq<Change<A>>, e: seq<Change<A>>)
    requires Flipped(d, e)
    ensures Flipped(e, d)
  {
  }

  lemma SpoiledSwap<A(!new)>(rows: seq<Row<A>>, p: string, t: int, u: int, kind: string)
    returns (d: seq<Change<A>>, e: seq<Change<A>>)
    requires WellFormed(rows) && !SingleAt(rows, p, t)
    ensures Swapped(rows, p, t, u, kind, d, e) && !Flipped(d, e)
  {
    var other := Snapshot(rows, p, u);
    var a, b, k := TwoDicts(rows, p, t);
    if ChangeOf(DictOf(a), DictOf(other), kind, k).None? {
      a, b := b, a;
    }
    d := DiffExists(DictOf(a), DictOf(other), kind);
    e := DiffExists(DictOf(other), DictOf(b), kind);
    NotFlipped(DictOf(a), DictOf(b), DictOf(other), kind, k, d, e);
    assert Requested(rows, p, t, u, kind, a, other, d) && Requested(rows, p, u, t, kind, other, b, e);
  }

  lemma NotFlipped<A>(a: map<string, Row<A>>, b: map<string, Row<A>>, other: map<string, Row<A>>, kind: string,
                      k: string, d: seq<Change<A>>, e: seq<Change<A>>)
    requires k in a && k in b && a[k].version != b[k].version && ChangeOf(a, other, kind, k).Some?
    requires IsDiff(a, other, kind, d) && IsDiff(other, b, kind, e)
    ensures !Flipped(d, e)
  {
    var c := ChangeOf(a, other, kind, k).value;
    ItemIff(a, other, kind, d, c);
    ItemIff(other, b, kind, e, Flip(c));
    FlippedChange(b, other, kind, c);
  }

  /** The counters in terms of the two dicts. */
  lemma DiffCounts<A>(before: map<string, Row<A>>, after: map<string, Row<A>>, kind: string, d: seq<Change<A>>)
    requires IsDiff(before, after, kind, d)
    ensures CountOf(d, AddedType) == |after.Keys - before.Keys|
    ensures CountOf(d, RemovedType) == |before.Keys - after.Keys|
    ensures CountOf(d, ModifiedType) == |set k | k in before && k in after && before[k].version != after[k].version|
  {
    TypeCount(before, after, kind, d, AddedType);
    TypeCount(before, after, kind, d, RemovedType);
    TypeCount(before, after, kind, d, ModifiedType);
  }

  /** The keys to be reported with type t. */
  ghost function KeysOfType<A>(before: map<string, Row<A>>, after: map<string, Row<A>>, t: ChangeType): set<string> {
    match t
    case AddedType => after.Keys - before.Keys
    case RemovedType => before.Keys - after.Keys
    case ModifiedType => set k | k in before && k in after && before[k].version != after[k].version
  }

  lemma KeysOfTypeMeaning<A>(before: map<string, Row<A>>, after: map<string, Row<A>>, kind: string, t: ChangeType)
    ensures forall k :: k in KeysOfType(before, after, t) <==>
              ChangeOf(before, after, kind, k).Some? && TypeOf(ChangeOf(before, after, kind, k).value) == t
  {
  }

  lemma TypeCount<A>(before: map<string, Row<A>>, after: map<string, Row<A>>, kind: string, d: seq<Change<A>>,
                     t: ChangeType)
    requires IsDiff(before, after, kind, d)
    ensures CountOf(d, t) == |KeysOfType(before, after, t)|
  {
    CountIsIds(d, t);
    IdsOfDiff(before, after, kind, d, t);
    KeysOfTypeMeaning(before, after, kind, t);
    assert IdsOfType(d, t) == KeysOfType(before, after, t);
  }

  ghost function IdsOfType<A>(d: seq<Change<A>>, t: ChangeType): set<string> {
    if |d| == 0 then {}
    else IdsOfType(d[..|d| - 1], t) + (if TypeOf(d[|d| - 1]) == t then {d[|d| - 1].id} else {})
  }

  lemma {:induction false} IdsOfTypeIn<A>(d: seq<Change<A>>, t: ChangeType)
    ensures forall k :: k in IdsOfType(d, t) <==> exists i :: 0 <= i < |d| && d[i].id == k && TypeOf(d[i]) == t
  {
    if |d| > 0 {
      var n := |d| - 1;
      IdsOfTypeIn(d[..n], t);
      assert forall i :: 0 <= i < n ==> d[..n][i] == d[i];
      forall k ensures k in IdsOfType(d, t) <==> exists i :: 0 <= i < |d| && d[i].id == k && TypeOf(d[i]) == t {
        if k in IdsOfType(d[..n], t) {
          var i :| 0 <= i < n && d[..n][i].id == k && TypeOf(d[..n][i]) == t;
          assert d[i].id == k;
        }
      }
    }
  }

  lemma {:induction false} CountIsIds<A>(d: seq<Change<A>>, t: ChangeType)
    requires forall i, j :: 0 <= i < j < |d| ==> d[i].id != d[j].id
    ensures CountOf(d, t) == |IdsOfType(d, t)|
  {
    if |d| > 0 {
      var n := |d| - 1;
      CountIsIds(d[..n], t);
      IdsOfTypeIn(d[..n], t);
      assert d[n].id !in IdsOfType(d[..n], t);
    }
  }

  lemma IdsOfDiff<A>(before: map<string, Row<A>>, after: map<string, Row<A>>, kind: string, d: seq<Change<A>>,
                     t: ChangeType)
    requires IsDiff(before, after, kind, d)
    ensures forall k :: k in IdsOfType(d, t) <==>
              ChangeOf(before, after, kind, k).Some? && TypeOf(ChangeOf(before, after, kind, k).value) == t
  {
    forall k
      ensures k in IdsOfType(d, t) <==>
              ChangeOf(before, after, kind, k).Some? && TypeOf(ChangeOf(before, after, kind, k).value) == t
    {
      var c := ChangeOf(before, after, kind, k);
      assert Listed(before, after, kind, d, k);
      IdsOfTypeIn(d, t);
      if c.Some? {
        var i :| 0 <= i < |d| && d[i] == c.value;
        assert d[i].id == k;
      }
    }
  }

  // ----- the items in terms of the two row lists -----

  /** Row i is the last one of the key. */
  ghost predicate LastAt<A>(rows: seq<Row<A>>, k: string, i: int) {
    0 <= i < |rows| && rows[i].key == k && forall j :: i < j < |rows| ==> rows[j].key != k
  }

  ghost predicate HasKey<A>(rows: seq<Row<A>>, k: string) {
    exists i :: 0 <= i < |rows| && rows[i].key == k
  }

  /** The view shows the row, column by column. */
  predicate Shows<A(==)>(v: View<A>, r: Row<A>) {
    v.key == r.key && v.fields == r.attrs && v.version == r.version && v.validFrom == r.validFrom
      && v.validUntil == r.validUntil
  }

  /** An item is of the kind, and shows the last rows of its key in the lists that have one; it is a
    * modification where both have one and their versions differ. */
  ghost predicate ItemSays<A>(from: seq<Row<A>>, to: seq<Row<A>>, kind: string, c: Change<A>) {
    c.kind == kind &&
    match c
    case Added(_, id, after) => !HasKey(from, id) && exists j :: LastAt(to, id, j) && Shows(after, to[j])
    case Removed(_, id, before) => !HasKey(to, id) && exists i :: LastAt(from, id, i) && Shows(before, from[i])
    case Modified(_, id, before, after) =>
      exists i, j :: LastAt(from, id, i) && LastAt(to, id, j) && from[i].version != to[j].version
        && Shows(before, from[i]) && Shows(after, to[j])
  }

  /** The key calls for an item: one list lacks it, or its last rows differ in version. */
  ghost predicate Calls<A>(from: seq<Row<A>>, to: seq<Row<A>>, k: string) {
    if HasKey(from, k) && HasKey(to, k)
    then exists i, j :: LastAt(from, k, i) && LastAt(to, k, j) && from[i].version != to[j].version
    else HasKey(from, k) || HasKey(to, k)
  }

  lemma LastStep<A>(rows: seq<Row<A>>, k: string, i: int)
    requires |rows| > 0
    ensures var n := |rows| - 1;
            LastAt(rows, k, i) <==> if rows[n].key == k then i == n else LastAt(rows[..n], k, i)
  {
    var n := |rows| - 1;
    if i < n && rows[n].key != k && LastAt(rows[..n], k, i) {
      forall j | i < j < |rows| ensures rows[j].key != k {
        assert j < n ==> rows[..n][j] == rows[j];
      }
    }
    if LastAt(rows, k, i) && i < n {
      forall j | i < j < n ensures rows[..n][j].key != k { assert rows[..n][j] == rows[j]; }
    }
  }

  /** The dict has for a key its last row. */
  lemma {:induction false} DictLast<A>(rows: seq<Row<A>>, k: string)
    ensures forall i :: LastAt(rows, k, i) ==> k in DictOf(rows) && DictOf(rows)[k] == rows[i]
    ensures k in DictOf(rows) ==> exists i :: LastAt(rows, k, i)
  {
    if |rows| > 0 {
      var n := |rows| - 1;
      DictLast(rows[..n], k);
      forall i ensures LastAt(rows, k, i) <==> if rows[n].key == k then i == n else LastAt(rows[..n], k, i) {
        LastStep(rows, k, i);
      }
      if rows[n].key == k {
        assert LastAt(rows, k, n);
      } else if k in DictOf(rows) {
        var i :| LastAt(rows[..n], k, i);
        assert LastAt(rows, k, i);
      }
    }
  }

  lemma DictHas<A>(rows: seq<Row<A>>, k: string)
    ensures k in DictOf(rows) <==> HasKey(rows, k)
  {
    DictIn(rows);
  }

  /** Each item says what the last rows of its key say, no key has two, and a key has one exactly when
    * it calls for one. */
  lemma DiffItems<A>(from: seq<Row<A>>, to: seq<Row<A>>, kind: string, d: seq<Change<A>>)
    requires IsDiff(DictOf(from), DictOf(to), kind, d)
    ensures forall i :: 0 <= i < |d| ==> ItemSays(from, to, kind, d[i])
    ensures forall i, j :: 0 <= i < j < |d| ==> d[i].id != d[j].id
    ensures forall k :: Calls(from, to, k) <==> exists i :: 0 <= i < |d| && d[i].id == k
  {
    forall i | 0 <= i < |d| ensures ItemSays(from, to, kind, d[i]) {
      ItemFromRows(from, to, kind, d[i]);
    }
    forall k ensures Calls(from, to, k) <==> exists i :: 0 <= i < |d| && d[i].id == k {
      CallsIff(from, to, kind, k);
      assert Listed(DictOf(from), DictOf(to), kind, d, k);
    }
  }

  lemma ItemFromRows<A>(from: seq<Row<A>>, to: seq<Row<A>>, kind: string, c: Change<A>)
    requires ChangeOf(DictOf(from), DictOf(to), kind, c.id) == Some(c)
    ensures ItemSays(from, to, kind, c)
  {
    DictHas(from, c.id);
    DictHas(to, c.id);
    DictLast(from, c.id);
    DictLast(to, c.id);
    if c.id in DictOf(from) { var i :| LastAt(from, c.id, i); }
    if c.id in DictOf(to) { var j :| LastAt(to, c.id, j); }
  }

  lemma CallsIff<A>(from: seq<Row<A>>, to: seq<Row<A>>, kind: string, k: string)
    ensures Calls(from, to, k) <==> ChangeOf(DictOf(from), DictOf(to), kind, k).Some?
    ensures ChangeOf(DictOf(from), DictOf(to), kind, k).Some? ==>
              ChangeOf(DictOf(from), DictOf(to), kind, k).value.id == k
  {
    DictHas(from, k);
    DictHas(to, k);
    DictLast(from, k);
    DictLast(to, k);
    if k in DictOf(from) && k in DictOf(to) {
      var i :| LastAt(from, k, i);
      var j :| LastAt(to, k, j);
    }
  }
}
