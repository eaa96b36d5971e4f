/** The writes of core/temporal/engine.py row by row and column by column, and the methods as the
  * steps of runs. */
module VersionColumns {
  import opened Wrappers
  import opened Temporal
  import opened TemporalRuns
  import opened TimeOrder
  import opened AsOfLookup
  import Interleaving

  /** `supersede` appends an open row with the given columns and the version after the greatest one of
    * the key; of the key's open rows it closes one of greatest version at ts, and leaves all else. */
  lemma SupersedeColumns<A>(s: seq<Row<A>>, p: string, k: string, attrs: A, ts: int, source: string, s': seq<Row<A>>)
    requires Superseded(s, p, k, attrs, ts, source, s')
    ensures |s'| == |s| + 1
    ensures var r := s'[|s|];
            && r.project == p && r.key == k && r.attrs == attrs && r.validFrom == ts && r.validUntil == None
            && r.source == source
    ensures forall i :: 0 <= i < |s| && s[i].project == p && s[i].key == k ==> s[i].version < s'[|s|].version
    ensures s'[|s|].version == 1 ||
              exists i :: 0 <= i < |s| && s[i].project == p && s[i].key == k && s[i].version + 1 == s'[|s|].version
    ensures (forall i :: 0 <= i < |s| ==>
               s'[i] == s[i] && !(s[i].project == p && s[i].key == k && s[i].validUntil == None))
         || exists c :: 0 <= c < |s| && ClosesGreatest(s, p, k, ts, c, s')
  {
    MaxVersionIsMax(s, p, k);
    var cur: Option<nat> :| IsCurrent(s, p, k, cur)
      && s' == Written(s, cur, MaxVersion(s, p, k), p, k, attrs, ts, source);
    if cur.Some? {
      assert ClosesGreatest(s, p, k, ts, cur.value, s');
    } else {
      forall i | 0 <= i < |s|
        ensures s'[i] == s[i] && !(s[i].project == p && s[i].key == k && s[i].validUntil == None)
      {
        assert !OpenFor(s[i], p, k);
      }
    }
    if i: nat :| MaxVersion(s, p, k).Some? && i < |s| && IsVersion(s, p, k, MaxVersion(s, p, k).value, i) {
      assert s[i].version + 1 == s'[|s|].version;
    }
  }

  /** Row c is open, none of the key's open rows has a greater version, and it alone is closed, at ts. */
  ghost predicate ClosesGreatest<A>(s: seq<Row<A>>, p: string, k: string, ts: int, c: int, s': seq<Row<A>>) {
    && 0 <= c < |s| <= |s'| && s[c].project == p && s[c].key == k && s[c].validUntil == None
    && (forall i :: 0 <= i < |s| && s[i].project == p && s[i].key == k && s[i].validUntil == None ==>
          s[i].version <= s[c].version)
    && s'[c] == s[c].(validUntil := Some(ts)) && forall i :: 0 <= i < |s| && i != c ==> s'[i] == s[i]
  }

  /** `expire_logical` closes at ts every open row of the key, and `resolve_conflict_keep_latest` all
    * but the kept one; every other row stays as it is. */
  lemma ClosedColumns<A>(s: seq<Row<A>>, p: string, k: string, keep: Option<nat>, ts: int)
    ensures var s' := CloseAllBut(s, p, k, keep, ts);
            |s'| == |s| && forall i :: 0 <= i < |s| ==>
              s'[i] == if s[i].project == p && s[i].key == k && s[i].validUntil == None && keep != Some(i)
                       then s[i].(validUntil := Some(ts)) else s[i]
  {
  }

  /** The repair keeps an open row that no other open row of the key exceeds in version, or in start at
    * the same version. */
  lemma ResolvedColumns<A>(s: seq<Row<A>>, p: string, k: string, ts: int, s': seq<Row<A>>)
    requires Resolved(s, p, k, ts, s')
    ensures s' == s || exists c :: 0 <= c < |s| && KeepsGreatest(s, p, k, ts, c, s')
    ensures (exists i :: 0 <= i < |s| && s[i].project == p && s[i].key == k && s[i].validUntil == None) ==>
              exists c :: 0 <= c < |s| && KeepsGreatest(s, p, k, ts, c, s')
  {
    NoneOpen(s, p, k);
    if i :| 0 <= i < |s| && s[i].project == p && s[i].key == k && s[i].validUntil == None {
      assert OpenFor(s[i], p, k);
    }
    if OpenCount(s, p, k) != 0 || s' != s {
      var keep: nat :| IsLatestOpen(s, p, k, keep) && s' == CloseAllBut(s, p, k, Some(keep), ts);
      ClosedColumns(s, p, k, Some(keep), ts);
      forall i | 0 <= i < |s| && s[i].project == p && s[i].key == k && s[i].validUntil == None
        ensures s[i].version < s[keep].version ||
                  (s[i].version == s[keep].version && s[i].validFrom <= s[keep].validFrom)
      {
        assert OpenFor(s[i], p, k);
      }
      assert KeepsGreatest(s, p, k, ts, keep, s');
    }
  }

  ghost predicate KeepsGreatest<A>(s: seq<Row<A>>, p: string, k: string, ts: int, c: int, s': seq<Row<A>>) {
    && 0 <= c < |s| == |s'| && s[c].project == p && s[c].key == k && s[c].validUntil == None
    && (forall i :: 0 <= i < |s| && s[i].project == p && s[i].key == k && s[i].validUntil == None ==>
          s[i].version < s[c].version || (s[i].version == s[c].version && s[i].validFrom <= s[c].validFrom))
    && forall i :: 0 <= i < |s| ==>
         s'[i] == if i != c && s[i].project == p && s[i].key == k && s[i].validUntil == None
                  then s[i].(validUntil := Some(ts)) else s[i]
  }

  /** The as-of lookup finds a row of the key in force at t that no such row exceeds in version, and
    * none exactly when there is no such row. */
  lemma AsOfColumns<A>(s: seq<Row<A>>, p: string, k: string, t: int, r: Option<nat>)
    requires IsAsOf(s, p, k, t, r)
    ensures r.Some? ==> r.value < |s| && InForceAt(s[r.value], p, k, t)
    ensures forall i :: 0 <= i < |s| && InForceAt(s[i], p, k, t) ==> r.Some? && s[i].version <= s[r.value].version
  {
    forall i | 0 <= i < |s| && InForceAt(s[i], p, k, t) ensures ActiveFor(s[i], p, k, t) {
    }
  }

  predicate InForceAt<A>(r: Row<A>, p: string, k: string, t: int) {
    r.project == p && r.key == k && r.validFrom <= t && (r.validUntil.None? || t < r.validUntil.value)
  }

  /** After any run that does not expire the key, the as-of lookup finds nothing exactly where no call
    * has written the key with a time not after t, and otherwise a row with the time of the last such
    * call, and with its columns and source if it was a `supersede`. */
  lemma AsOfAnswersLastWrite<A>(ops: seq<Op<A>>, tables: seq<seq<Row<A>>>, p: string, k: string, t: int, r: Option<nat>)
    requires Run(ops, tables) && NeverExpired(ops, p, k) && IsAsOf(tables[|ops|], p, k, t, r)
    ensures r.None? <==> forall i :: 0 <= i < |ops| && WritesKey(ops, tables, i, p, k) ==> ops[i].at > t
    ensures r.Some? ==> exists i :: IsLast(ops, tables, p, k, t, i) && SaysCall(tables[|ops|], r.value, ops[i])
  {
    AsOfIsLastWrite(ops, tables, p, k, t, r);
    LastWriteMeaning(ops, tables, p, k, t);
    var w := LastWrite(ops, tables, p, k, t);
    if w.Some? {
      assert IsLast(ops, tables, p, k, t, w.value);
    }
  }

  /** Row j has the time of the call, and its columns and source if that is a `supersede`. */
  predicate SaysCall<A(==)>(rows: seq<Row<A>>, j: nat, o: Op<A>) {
    && j < |rows| && rows[j].validFrom == o.at
    && (o.Supersede? ==> rows[j].attrs == o.attrs && rows[j].source == o.source)
  }

  /** Call i writes the key with a time not after t, and no later call does. */
  ghost predicate IsLast<A>(ops: seq<Op<A>>, tables: seq<seq<Row<A>>>, p: string, k: string, t: int, i: int)
    requires |ops| <= |tables|
  {
    && 0 <= i < |ops| && WritesKey(ops, tables, i, p, k) && ops[i].at <= t
    && forall j :: i < j < |ops| && WritesKey(ops, tables, j, p, k) ==> ops[j].at > t
  }

  /** `snapshot` has each row of the project in force at t as often as the table, and no other row. */
  lemma {:induction false} SnapshotColumns<A>(rows: seq<Row<A>>, p: string, t: int, r: Row<A>)
    ensures multiset(Snapshot(rows, p, t))[r]
         == if r.project == p && r.validFrom <= t && (r.validUntil.None? || t < r.validUntil.value)
            then multiset(rows)[r] else 0
  {
    if |rows| > 0 {
      var n := |rows| - 1;
      SnapshotColumns(rows[..n], p, t, r);
      assert rows == rows[..n] + [rows[n]];
    }
  }

  // ----- the calls of a run are the calls of the engine -----

  /** Whatever call is made of the engine, its outcome is a step of the runs. */
  method Perform<A>(table: VersionTable<A>, op: Op<A>)
    requires op.Expire? ==> op.index < |table.rows| && table.rows[op.index].project == op.project
                            && table.rows[op.index].key == op.key
    modifies table
    ensures Step(old(table.rows), op, table.rows)
  {
    match op {
      case Supersede(p, k, at, attrs, source) => var added := table.Supersede(p, k, attrs, at, source);
      case Rollback(p, k, at, v) => var r := table.RollbackToVersion(p, k, v, at);
      case ExpireLogical(p, k, at) => var n := table.ExpireLogical(p, k, at);
      case Expire(_, _, at, i) => table.Expire(i, at);
      case Resolve(p, k, at) => var n := table.ResolveConflictKeepLatest(p, k, at);
    }
  }

  /** The expiry of one row closes that row, if it is open, and nothing else, in runs and schedules. */
  lemma ExpiredRowColumns<A>(s: Interleaving.State<A>, p: string, k: string, at: int, i: nat,
                             s': Interleaving.State<A>)
    requires Interleaving.Next(s, Interleaving.ExpireRow(p, k, at, i), s')
    ensures Step(s.rows, Expire(p, k, at, i), s'.rows) && i < |s.rows| == |s'.rows|
    ensures forall j :: 0 <= j < |s.rows| ==>
              s'.rows[j] == if j == i && s.rows[j].validUntil == None then s.rows[j].(validUntil := Some(at))
                            else s.rows[j]
  {
  }
}
