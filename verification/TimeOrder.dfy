/** When the rows of a key are a function of time: the exact guard for `supersede`, runs
  * whose times do not go backwards, snapshots and the refreshed project counters. */
module TimeOrder {
  import opened Wrappers
  import opened Temporal
  import opened TemporalRuns
  import opened AsOfLookup

  /** No instant has two rows of the key in force. */
  ghost predicate Disjoint<A>(rows: seq<Row<A>>, p: string, k: string) {
    forall i, j, t :: 0 <= i < j < |rows| && ActiveFor(rows[i], p, k, t) ==> !ActiveFor(rows[j], p, k, t)
  }

  /** The guard a caller can check before writing at ts: no closed, non-empty row of the key
    * ends after ts. */
  predicate NoLaterEnd<A>(rows: seq<Row<A>>, p: string, k: string, ts: int) {
    forall i :: 0 <= i < |rows| && Mine(rows[i], p, k) && ClosedNonEmpty(rows[i]) ==> rows[i].validUntil.value <= ts
  }

  predicate ClosedNonEmpty<A>(r: Row<A>) {
    r.validUntil.Some? && r.validFrom < r.validUntil.value
  }

  /** `supersede` does not compare its time with anything. It keeps the key's rows disjoint
    * exactly when the guard holds. */
  lemma SupersedeDisjointIff<A>(s: seq<Row<A>>, p: string, k: string, attrs: A, ts: int, source: string,
                                s': seq<Row<A>>)
    requires WellFormed(s) && Disjoint(s, p, k) && Superseded(s, p, k, attrs, ts, source, s')
    ensures Disjoint(s', p, k) <==> NoLaterEnd(s, p, k, ts)
  {
    var cur: Option<nat> :| IsCurrent(s, p, k, cur)
      && s' == Written(s, cur, MaxVersion(s, p, k), p, k, attrs, ts, source);
    assert Extends(s, s');
    if !NoLaterEnd(s, p, k, ts) {
      var i :| 0 <= i < |s| && Mine(s[i], p, k) && ClosedNonEmpty(s[i]) && s[i].validUntil.value > ts;
      var t := if s[i].validFrom <= ts then ts else s[i].validFrom;
      assert ActiveFor(s'[i], p, k, t) && ActiveFor(s'[|s|], p, k, t);
    } else {
      forall i, j, t | 0 <= i < j < |s'| && ActiveFor(s'[i], p, k, t)
        ensures !ActiveFor(s'[j], p, k, t)
      {
        assert ActiveFor(s[i], p, k, t) || t < ts;
        if j < |s| && ActiveFor(s'[j], p, k, t) {
          assert ActiveFor(s[i], p, k, t) && ActiveFor(s[j], p, k, t);
        }
      }
    }
  }

  /** Closing open rows never makes two rows overlap, at whatever time. */
  lemma ClosingKeepsDisjoint<A>(s: seq<Row<A>>, s': seq<Row<A>>, p: string, k: string)
    requires Disjoint(s, p, k) && |s| == |s'| && Extends(s, s')
    requires forall i :: 0 <= i < |s| ==> s'[i] == s[i] || Open(s[i])
    ensures Disjoint(s', p, k)
  {
    forall i, j, t | 0 <= i < j < |s'| && ActiveFor(s'[i], p, k, t)
      ensures !ActiveFor(s'[j], p, k, t)
    {
      assert ActiveFor(s[i], p, k, t);
      assert ActiveFor(s'[j], p, k, t) ==> ActiveFor(s[j], p, k, t);
    }
  }

  /** The call appended a version of (p, k). */
  ghost predicate Appends<A>(s: seq<Row<A>>, op: Op<A>, s': seq<Row<A>>, p: string, k: string) {
    op.project == p && op.key == k && |s'| > |s|
  }

  lemma StepDisjointIff<A>(s: seq<Row<A>>, op: Op<A>, s': seq<Row<A>>, p: string, k: string)
    requires WellFormed(s) && Disjoint(s, p, k) && Step(s, op, s')
    ensures Disjoint(s', p, k) <==> (Appends(s, op, s', p, k) ==> NoLaterEnd(s, p, k, op.at))
  {
    StepExtends(s, op, s');
    if op.project != p || op.key != k {
      OtherKeyKeepsDisjoint(s, s', p, k, op.project, op.key);
    } else {
      match op
      case Supersede(_, _, at, attrs, source) =>
        SupersedeDisjointIff(s, p, k, attrs, at, source, s');
      case Rollback(_, _, at, v) =>
        if s' != s {
          var i: nat :| IsVersion(s, p, k, v, i) && Superseded(s, p, k, s[i].attrs, at, "rollback", s');
          SupersedeDisjointIff(s, p, k, s[i].attrs, at, "rollback", s');
        }
      case _ =>
        ClosingKeepsDisjoint(s, s', p, k);
    }
  }

  lemma OtherKeyKeepsDisjoint<A>(s: seq<Row<A>>, s': seq<Row<A>>, p: string, k: string, p2: string, k2: string)
    requires Disjoint(s, p, k) && OnlyTouches(s, s', p2, k2) && Extends(s, s') && (p != p2 || k != k2)
    ensures Disjoint(s', p, k)
  {
    forall i, j, t | 0 <= i < j < |s'| && ActiveFor(s'[i], p, k, t)
      ensures !ActiveFor(s'[j], p, k, t)
    {
      assert ActiveFor(s[i], p, k, t);
      assert j < |s| && Mine(s[j], p, k) ==> s'[j] == s[j];
    }
  }

  /** The exact condition over a whole run: the key is single-valued in time at every point of
    * the run if and only if every call that appended a version of it met the guard. */
  lemma RunDisjointIff<A>(ops: seq<Op<A>>, tables: seq<seq<Row<A>>>, p: string, k: string)
    requires Run(ops, tables)
    ensures (forall n :: 0 <= n <= |ops| ==> Disjoint(tables[n], p, k)) <==>
            (forall n :: 0 <= n < |ops| && Appends(tables[n], ops[n], tables[n + 1], p, k) ==>
               NoLaterEnd(tables[n], p, k, ops[n].at))
  {
    if forall n :: 0 <= n < |ops| && Appends(tables[n], ops[n], tables[n + 1], p, k) ==>
         NoLaterEnd(tables[n], p, k, ops[n].at) {
      forall n | 0 <= n <= |ops|
        ensures Disjoint(tables[n], p, k)
      {
        GuardedRunDisjoint(ops, tables, p, k, n);
      }
    } else {
      var n :| 0 <= n < |ops| && Appends(tables[n], ops[n], tables[n + 1], p, k)
               && !NoLaterEnd(tables[n], p, k, ops[n].at);
      ReachableWellFormed(ops, tables, n);
      if Disjoint(tables[n], p, k) {
        StepDisjointIff(tables[n], ops[n], tables[n + 1], p, k);
      }
    }
  }

  lemma {:induction false} GuardedRunDisjoint<A>(ops: seq<Op<A>>, tables: seq<seq<Row<A>>>, p: string, k: string,
                                                 n: nat)
    requires Run(ops, tables) && n <= |ops|
    requires forall m :: 0 <= m < n && Appends(tables[m], ops[m], tables[m + 1], p, k) ==>
               NoLaterEnd(tables[m], p, k, ops[m].at)
    ensures Disjoint(tables[n], p, k)
  {
    if n > 0 {
      GuardedRunDisjoint(ops, tables, p, k, n - 1);
      ReachableWellFormed(ops, tables, n - 1);
      StepDisjointIff(tables[n - 1], ops[n - 1], tables[n], p, k);
    }
  }

  /** Each call on a key has a time at least that of every earlier call on it. */
  ghost predicate TimeOrdered<A>(ops: seq<Op<A>>) {
    forall i, j :: 0 <= i < j < |ops| && ops[i].project == ops[j].project && ops[i].key == ops[j].key ==>
      ops[i].at <= ops[j].at
  }

  /** Every time stored for the key is at most bound. */
  ghost predicate Bounded<A>(rows: seq<Row<A>>, p: string, k: string, bound: int) {
    forall i :: 0 <= i < |rows| && Mine(rows[i], p, k) ==>
      rows[i].validFrom <= bound && (rows[i].validUntil.Some? ==> rows[i].validUntil.value <= bound)
  }

  lemma StepKeepsBound<A>(s: seq<Row<A>>, op: Op<A>, s': seq<Row<A>>, p: string, k: string, bound: int)
    requires Step(s, op, s') && Bounded(s, p, k, bound)
    requires op.project == p && op.key == k ==> op.at <= bound
    ensures Bounded(s', p, k, bound)
  {
    StepExtends(s, op, s');
    forall i | 0 <= i < |s'| && Mine(s'[i], p, k)
      ensures s'[i].validFrom <= bound && (s'[i].validUntil.Some? ==> s'[i].validUntil.value <= bound)
    {
      assert i < |s| ==> s[i] == s'[i].(validUntil := s[i].validUntil);
    }
  }

  lemma {:induction false} RunBounded<A>(ops: seq<Op<A>>, tables: seq<seq<Row<A>>>, n: nat, p: string, k: string,
                                         bound: int)
    requires Run(ops, tables) && n <= |ops|
    requires forall m :: 0 <= m < n && ops[m].project == p && ops[m].key == k ==> ops[m].at <= bound
    ensures Bounded(tables[n], p, k, bound)
  {
    if n > 0 {
      RunBounded(ops, tables, n - 1, p, k, bound);
      StepKeepsBound(tables[n - 1], ops[n - 1], tables[n], p, k, bound);
    }
  }

  /** Time-ordered runs give a function of time: at most one row of each key at any instant. */
  lemma OrderedRunDisjoint<A>(ops: seq<Op<A>>, tables: seq<seq<Row<A>>>, p: string, k: string, n: nat)
    requires Run(ops, tables) && TimeOrdered(ops) && n <= |ops|
    ensures Disjoint(tables[n], p, k)
  {
    forall m | 0 <= m < n && Appends(tables[m], ops[m], tables[m + 1], p, k)
      ensures NoLaterEnd(tables[m], p, k, ops[m].at)
    {
      RunBounded(ops, tables, m, p, k, ops[m].at);
    }
    GuardedRunDisjoint(ops, tables, p, k, n);
  }

  /** Time order is needed: three writes to one key at times 1, 10 and 5 leave an empty
    * interval and two rows in force at time 7. */
  lemma BackdatedWriteOverlaps(ops: seq<Op<int>>) returns (tables: seq<seq<Row<int>>>)
    requires ops == [Supersede("p", "k", 1, 0, "s"), Supersede("p", "k", 10, 0, "s"), Supersede("p", "k", 5, 0, "s")]
    ensures Run(ops, tables) && !Disjoint(tables[3], "p", "k") && !SingleAt(tables[3], "p", 7)
  {
    var s1, r1 := WriteWitness([], ops[0]);
    var s2, r2 := WriteWitness(s1, ops[1]);
    var s3, r3 := WriteWitness(s2, ops[2]);
    tables := [[], s1, s2, s3];
    assert ActiveFor(s3[0], "p", "k", 7) && ActiveFor(s3[2], "p", "k", 7);
    assert Counted(s3[0], "p", 7) && Counted(s3[2], "p", 7);
  }

  /** The write a log entry makes on a well-formed table. */
  lemma WriteWitness(s: seq<Row<int>>, w: Op<int>) returns (s': seq<Row<int>>, last: nat)
    requires w.Supersede?
    requires |s| > 0 ==> OpenFor(s[|s| - 1], w.project, w.key)
    requires forall i :: 0 <= i < |s| - 1 ==> !Open(s[i])
    ensures Step(s, w, s') && last == |s| && |s'| == |s| + 1
    ensures OpenFor(s'[last], w.project, w.key) && s'[last].validFrom == w.at
    ensures |s| > 0 ==> s'[last - 1] == Close(s[last - 1], w.at)
    ensures forall i :: 0 <= i < |s| - 1 ==> s'[i] == s[i]
  {
    last := |s|;
    var cur: Option<nat> := if |s| > 0 then Some(|s| - 1) else None;
    assert IsCurrent(s, w.project, w.key, cur);
    s' := Written(s, cur, MaxVersion(s, w.project, w.key), w.project, w.key, w.attrs, w.at, w.source);
  }

  /** In a time-ordered run that does not expire the key, from its first write on there is exactly
    * one row in force. */
  lemma OrderedLogExactlyOne<A>(ops: seq<Op<A>>, tables: seq<seq<Row<A>>>, p: string, k: string, t: int, first: nat)
    requires Run(ops, tables) && NeverExpired(ops, p, k) && TimeOrdered(ops)
    requires first < |ops| && WritesKey(ops, tables, first, p, k) && ops[first].at <= t
    ensures exists i :: 0 <= i < |tables[|ops|]| && ActiveFor(tables[|ops|][i], p, k, t)
    ensures forall i, j :: 0 <= i < j < |tables[|ops|]| ==>
              !(ActiveFor(tables[|ops|][i], p, k, t) && ActiveFor(tables[|ops|][j], p, k, t))
  {
    OrderedRunDisjoint(ops, tables, p, k, |ops|);
    LastWriteMeaning(ops, tables, p, k, t);
    if IsAsOf(tables[|ops|], p, k, t, None) {
      AsOfIsLastWrite(ops, tables, p, k, t, None);
    }
  }

  // ----- snapshots and counters -----

  /** `snapshot`: the project's rows in force at t, in table order. */
  function Snapshot<A>(rows: seq<Row<A>>, p: string, t: int): seq<Row<A>> {
    if |rows| == 0 then []
    else
      var r := rows[|rows| - 1];
      Snapshot(rows[..|rows| - 1], p, t) + (if Counted(r, p, t) then [r] else [])
  }

  ghost function LiveKeys<A>(rows: seq<Row<A>>, p: string, t: int): set<string> {
    set i | 0 <= i < |rows| && Counted(rows[i], p, t) :: rows[i].key
  }

  /** No two rows of the project in force at t share a key. */
  ghost predicate SingleAt<A>(rows: seq<Row<A>>, p: string, t: int) {
    forall i, j :: 0 <= i < j < |rows| && Counted(rows[i], p, t) && Counted(rows[j], p, t) ==>
      rows[i].key != rows[j].key
  }

  predicate Counted<A>(r: Row<A>, p: string, t: int) {
    r.project == p && ActiveAt(r, t)
  }

  /** The row count that `_refresh_project_counts` stores is never below the number of
    * distinct live keys, and equals it exactly when no key has two rows in force. */
  lemma {:induction false} CountIsLiveKeys<A>(rows: seq<Row<A>>, p: string, t: int)
    ensures |Snapshot(rows, p, t)| >= |LiveKeys(rows, p, t)|
    ensures |Snapshot(rows, p, t)| == |LiveKeys(rows, p, t)| <==> SingleAt(rows, p, t)
  {
    if |rows| > 0 {
      var n := |rows| - 1;
      CountIsLiveKeys(rows[..n], p, t);
      LiveStep(rows, p, t);
      SingleStep(rows, p, t);
    }
  }

  lemma LiveStep<A>(rows: seq<Row<A>>, p: string, t: int)
    requires |rows| > 0
    ensures var r := rows[|rows| - 1]; var before := LiveKeys(rows[..|rows| - 1], p, t);
            LiveKeys(rows, p, t) == if Counted(r, p, t) then before + {r.key} else before
  {
    var n := |rows| - 1;
    assert forall i :: 0 <= i < n ==> rows[..n][i] == rows[i];
    forall k ensures k in LiveKeys(rows, p, t) <==>
      k in LiveKeys(rows[..n], p, t) || (Counted(rows[n], p, t) && k == rows[n].key) {
      if k in LiveKeys(rows[..n], p, t) {
        var i :| 0 <= i < n && Counted(rows[..n][i], p, t) && rows[..n][i].key == k;
        assert Counted(rows[i], p, t) && rows[i].key == k;
      }
    }
  }

  lemma SingleStep<A>(rows: seq<Row<A>>, p: string, t: int)
    requires |rows| > 0
    ensures var r := rows[|rows| - 1];
            SingleAt(rows, p, t) <==>
              && SingleAt(rows[..|rows| - 1], p, t)
              && (Counted(r, p, t) ==> r.key !in LiveKeys(rows[..|rows| - 1], p, t))
  {
    var n := |rows| - 1;
    assert forall i :: 0 <= i < n ==> rows[..n][i] == rows[i];
    if Counted(rows[n], p, t) && rows[n].key in LiveKeys(rows[..n], p, t) {
      var i :| 0 <= i < n && Counted(rows[..n][i], p, t) && rows[..n][i].key == rows[n].key;
      assert Counted(rows[i], p, t) && rows[i].key == rows[n].key;
    }
    if SingleAt(rows, p, t) {
      forall i, j | 0 <= i < j < n && Counted(rows[..n][i], p, t) && Counted(rows[..n][j], p, t)
        ensures rows[..n][i].key != rows[..n][j].key
      {
        assert Counted(rows[i], p, t) && Counted(rows[j], p, t);
      }
    }
  }

  /** ... hence after every time-ordered run. */
  lemma OrderedRunCounts<A>(ops: seq<Op<A>>, tables: seq<seq<Row<A>>>, p: string, now: int, n: nat)
    requires Run(ops, tables) && TimeOrdered(ops) && n <= |ops|
    ensures |Snapshot(tables[n], p, now)| == |LiveKeys(tables[n], p, now)|
  {
    var rows := tables[n];
    forall i, j | 0 <= i < j < |rows| && Counted(rows[i], p, now) && Counted(rows[j], p, now)
      ensures rows[i].key != rows[j].key
    {
      OrderedRunDisjoint(ops, tables, p, rows[i].key, n);
      assert ActiveFor(rows[i], p, rows[i].key, now);
      assert !ActiveFor(rows[j], p, rows[i].key, now);
    }
    CountIsLiveKeys(rows, p, now);
  }
}
