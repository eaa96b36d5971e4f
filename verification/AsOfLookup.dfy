/** The as-of lookup (core/adapters/graph_repo.py, `get_entity_by_uuid`) answers from the log of
  * the writes to one key, whatever the order of the business times in it and whatever happens to
  * other keys. */
module AsOfLookup {
  import opened Wrappers
  import opened Temporal
  import opened TemporalRuns

  predicate OnKey<A>(o: Op<A>, p: string, k: string) {
    o.project == p && o.key == k
  }

  /** The call writes a row: a `supersede`, or a rollback that finds its version (one that does not
    * raises an error and changes nothing). */
  predicate Writes<A>(s: seq<Row<A>>, op: Op<A>) {
    op.Supersede? || (op.Rollback? && HasVersion(s, op.project, op.key, op.target))
  }

  /** Call i of the run writes a row of the key. */
  predicate WritesKey<A>(ops: seq<Op<A>>, tables: seq<seq<Row<A>>>, i: nat, p: string, k: string)
    requires i < |ops| <= |tables|
  {
    OnKey(ops[i], p, k) && Writes(tables[i], ops[i])
  }

  /** No call expires the key. */
  ghost predicate NeverExpired<A>(ops: seq<Op<A>>, p: string, k: string) {
    forall i :: 0 <= i < |ops| && OnKey(ops[i], p, k) ==> !ops[i].ExpireLogical? && !ops[i].Expire?
  }

  /** The reference: the last call that writes the key with a business time not after t. */
  function LastWrite<A>(ops: seq<Op<A>>, tables: seq<seq<Row<A>>>, p: string, k: string, t: int): Option<nat>
    requires |ops| <= |tables|
  {
    if |ops| == 0 then None
    else
      var i := |ops| - 1;
      if WritesKey(ops, tables, i, p, k) && ops[i].at <= t then Some(i)
      else LastWrite(ops[..i], tables, p, k, t)
  }

  /** What LastWrite returns, in terms of the calls alone. */
  lemma {:induction false} LastWriteMeaning<A>(ops: seq<Op<A>>, tables: seq<seq<Row<A>>>, p: string, k: string, t: int)
    requires |ops| <= |tables|
    ensures var r := LastWrite(ops, tables, p, k, t);
      && (r.Some? ==> r.value < |ops| && WritesKey(ops, tables, r.value, p, k) && ops[r.value].at <= t)
      && forall i :: 0 <= i < |ops| && WritesKey(ops, tables, i, p, k) && ops[i].at <= t ==> r.Some? && i <= r.value
  {
    if |ops| > 0 {
      var before := ops[..|ops| - 1];
      LastWriteMeaning(before, tables, p, k, t);
      assert forall i :: 0 <= i < |before| ==>
               before[i] == ops[i] && (WritesKey(before, tables, i, p, k) <==> WritesKey(ops, tables, i, p, k));
    }
  }

  /** Row i is what the call o wrote; a rollback copies an earlier row of its target version. */
  ghost predicate IsEntry<A>(rows: seq<Row<A>>, i: nat, o: Op<A>) {
    && i < |rows| && Mine(rows[i], o.project, o.key) && rows[i].validFrom == o.at
    && match o
       case Supersede(_, _, _, attrs, source) => rows[i].attrs == attrs && rows[i].source == source
       case Rollback(p, k, _, v) =>
         && rows[i].source == "rollback"
         && exists j: nat :: j < i && IsVersion(rows, p, k, v, j) && rows[i].attrs == rows[j].attrs
       case _ => false
  }

  /** The key's rows are the entries of the first n calls' writes to it; call i writes row |tables[i]|. */
  ghost predicate Recorded<A>(ops: seq<Op<A>>, tables: seq<seq<Row<A>>>, n: nat, p: string, k: string)
    requires n <= |ops| < |tables|
  {
    && (forall i {:trigger WritesKey(ops, tables, i, p, k)} ::
          0 <= i < n && WritesKey(ops, tables, i, p, k) ==> IsEntry(tables[n], |tables[i]|, ops[i]))
    && forall j {:trigger HasWriter(ops, tables, n, p, k, j)} ::
         0 <= j < |tables[n]| && Mine(tables[n][j], p, k) ==> HasWriter(ops, tables, n, p, k, j)
  }

  ghost predicate HasWriter<A>(ops: seq<Op<A>>, tables: seq<seq<Row<A>>>, n: nat, p: string, k: string, j: nat)
    requires n <= |ops| < |tables|
  {
    exists i: nat :: i < n && WritesKey(ops, tables, i, p, k) && |tables[i]| == j
  }

  ghost predicate LastOfKey<A>(rows: seq<Row<A>>, i: nat)
    requires i < |rows|
  {
    forall m :: i < m < |rows| ==> !SameKey(rows[i], rows[m])
  }

  ghost predicate Adjacent<A>(rows: seq<Row<A>>, i: nat, j: nat) {
    && i < j < |rows| && SameKey(rows[i], rows[j])
    && forall m :: i < m < j ==> !SameKey(rows[i], rows[m])
  }

  /** Each row of the key ends where its next row begins; the last one is open. */
  ghost predicate Chained<A>(rows: seq<Row<A>>, p: string, k: string) {
    && (forall i: nat {:trigger LastOfKey(rows, i)} ::
          i < |rows| && Mine(rows[i], p, k) && LastOfKey(rows, i) ==> Open(rows[i]))
    && forall i: nat, j: nat :: Adjacent(rows, i, j) && Mine(rows[i], p, k) ==>
         rows[i].validUntil == Some(rows[j].validFrom)
  }

  // ----- what one call does to the chain -----

  lemma WriteKeepsChain<A>(s: seq<Row<A>>, p: string, k: string, attrs: A, ts: int, source: string, s': seq<Row<A>>)
    requires WellFormed(s) && Chained(s, p, k) && Superseded(s, p, k, attrs, ts, source, s')
    ensures Chained(s', p, k) && |s'| == |s| + 1 && Extends(s, s')
    ensures Mine(s'[|s|], p, k) && s'[|s|].validFrom == ts && s'[|s|].attrs == attrs && s'[|s|].source == source
  {
    var cur: Option<nat> :| IsCurrent(s, p, k, cur)
      && s' == Written(s, cur, MaxVersion(s, p, k), p, k, attrs, ts, source);
    forall i: nat | i < |s'| && Mine(s'[i], p, k) && LastOfKey(s', i)
      ensures Open(s'[i])
    {
      assert i < |s| ==> SameKey(s'[i], s'[|s|]);
    }
    forall i: nat, j: nat | Adjacent(s', i, j) && Mine(s'[i], p, k)
      ensures s'[i].validUntil == Some(s'[j].validFrom)
    {
      forall m | i < m < j ensures !SameKey(s[i], s[m]) { assert !SameKey(s'[i], s'[m]); }
      if j < |s| {
        assert Adjacent(s, i, j);
      } else {
        assert LastOfKey(s, i);
      }
    }
  }

  /** A call that changes no row of the key keeps its chain. */
  lemma UntouchedKeepsChain<A>(s: seq<Row<A>>, s': seq<Row<A>>, p: string, k: string)
    requires Chained(s, p, k) && |s| <= |s'| && Extends(s, s')
    requires forall i :: 0 <= i < |s| && Mine(s[i], p, k) ==> s'[i] == s[i]
    requires forall i :: |s| <= i < |s'| ==> !Mine(s'[i], p, k)
    ensures Chained(s', p, k)
  {
    forall i: nat | i < |s'| && Mine(s'[i], p, k) && LastOfKey(s', i)
      ensures Open(s'[i])
    {
      forall m | i < m < |s| ensures !SameKey(s[i], s[m]) { assert !SameKey(s'[i], s'[m]); }
      assert LastOfKey(s, i);
    }
    forall i: nat, j: nat | Adjacent(s', i, j) && Mine(s'[i], p, k)
      ensures s'[i].validUntil == Some(s'[j].validFrom)
    {
      forall m | i < m < j ensures !SameKey(s[i], s[m]) { assert !SameKey(s'[i], s'[m]); }
      assert Adjacent(s, i, j);
    }
  }

  /** A write adds its entry, as the last row, and keeps the chain. */
  lemma WriteAddsEntry<A>(s: seq<Row<A>>, o: Op<A>, s': seq<Row<A>>)
    requires WellFormed(s) && Chained(s, o.project, o.key) && Step(s, o, s') && Writes(s, o)
    ensures |s'| == |s| + 1 && Extends(s, s') && Chained(s', o.project, o.key) && IsEntry(s', |s|, o)
  {
    if o.Supersede? {
      WriteKeepsChain(s, o.project, o.key, o.attrs, o.at, o.source, s');
    } else {
      var target: nat :| IsVersion(s, o.project, o.key, o.target, target)
        && Superseded(s, o.project, o.key, s[target].attrs, o.at, "rollback", s');
      WriteKeepsChain(s, o.project, o.key, s[target].attrs, o.at, "rollback", s');
      assert IsVersion(s', o.project, o.key, o.target, target) && s'[target].attrs == s[target].attrs;
    }
  }

  /** Any other call, short of expiring the key, leaves the key's rows as they are: it is on another
    * key, or a rollback without its version, or a repair with nothing to repair. */
  lemma OtherLeavesKey<A>(s: seq<Row<A>>, o: Op<A>, s': seq<Row<A>>, p: string, k: string)
    requires WellFormed(s) && Step(s, o, s') && !(OnKey(o, p, k) && Writes(s, o))
    requires OnKey(o, p, k) ==> !o.ExpireLogical? && !o.Expire?
    requires OpenCount(s, p, k) <= 1
    ensures Extends(s, s') && forall i :: 0 <= i < |s| && Mine(s[i], p, k) ==> s'[i] == s[i]
    ensures forall i :: |s| <= i < |s'| ==> !Mine(s'[i], p, k)
  {
    StepExtends(s, o, s');
    if OnKey(o, p, k) && o.Resolve? {
      ResolveOneOpen(s, p, k, o.at, s');
    }
  }

  lemma EntryStays<A>(s: seq<Row<A>>, s': seq<Row<A>>, i: nat, o: Op<A>)
    requires Extends(s, s') && IsEntry(s, i, o)
    ensures IsEntry(s', i, o)
  {
    if o.Rollback? {
      var j: nat :| j < i && IsVersion(s, o.project, o.key, o.target, j) && s[i].attrs == s[j].attrs;
      assert IsVersion(s', o.project, o.key, o.target, j);
    }
  }

  // ----- over a run -----

  ghost predicate Logged<A>(ops: seq<Op<A>>, tables: seq<seq<Row<A>>>, n: nat, p: string, k: string)
    requires n <= |ops| < |tables|
  {
    Recorded(ops, tables, n, p, k) && Chained(tables[n], p, k)
  }

  lemma {:induction false} LogRun<A>(ops: seq<Op<A>>, tables: seq<seq<Row<A>>>, n: nat, p: string, k: string)
    requires Run(ops, tables) && NeverExpired(ops, p, k) && n <= |ops|
    ensures Logged(ops, tables, n, p, k)
  {
    if n == 0 {
      LogStart(ops, tables, p, k);
    } else {
      LogRun(ops, tables, n - 1, p, k);
      LogStep(ops, tables, n - 1, p, k);
    }
  }

  lemma LogStart<A>(ops: seq<Op<A>>, tables: seq<seq<Row<A>>>, p: string, k: string)
    requires Run(ops, tables)
    ensures Logged(ops, tables, 0, p, k)
  {
  }

  lemma LogStep<A>(ops: seq<Op<A>>, tables: seq<seq<Row<A>>>, n: nat, p: string, k: string)
    requires Run(ops, tables) && NeverExpired(ops, p, k) && n < |ops|
    requires Logged(ops, tables, n, p, k)
    ensures Logged(ops, tables, n + 1, p, k)
  {
    var s, o, s' := tables[n], ops[n], tables[n + 1];
    ReachableWellFormed(ops, tables, n);
    StepExtends(s, o, s');
    if WritesKey(ops, tables, n, p, k) {
      WriteAddsEntry(s, o, s');
    } else {
      ReachableOneOpen(ops, tables, n, p, k);
      OtherLeavesKey(s, o, s', p, k);
      UntouchedKeepsChain(s, s', p, k);
    }
    forall i | 0 <= i < n + 1 && WritesKey(ops, tables, i, p, k) ensures IsEntry(s', |tables[i]|, ops[i]) {
      if i < n { EntryStays(s, s', |tables[i]|, ops[i]); }
    }
    forall j | 0 <= j < |s'| && Mine(s'[j], p, k) ensures HasWriter(ops, tables, n + 1, p, k, j) {
      if j < |s| {
        assert HasWriter(ops, tables, n, p, k, j);
      } else {
        assert WritesKey(ops, tables, n, p, k) && |tables[n]| == j;
      }
    }
  }

  /** The next row of the same key, when there is one. */
  lemma {:induction false} NextOfKey<A>(rows: seq<Row<A>>, i: nat, j: nat) returns (next: nat)
    requires i < j < |rows| && SameKey(rows[i], rows[j])
    ensures Adjacent(rows, i, next)
    decreases j
  {
    next := j;
    if !Adjacent(rows, i, j) {
      var m :| i < m < j && SameKey(rows[i], rows[m]);
      next := NextOfKey(rows, i, m);
    }
  }

  /** In a chain, a row that starts by t is in force at t unless a later row of its key starts by t. */
  lemma LastStartedIsActive<A>(rows: seq<Row<A>>, p: string, k: string, i: nat, t: int)
    requires Chained(rows, p, k) && i < |rows| && Mine(rows[i], p, k) && rows[i].validFrom <= t
    ensures ActiveAt(rows[i], t) || exists j :: i < j < |rows| && SameKey(rows[i], rows[j]) && rows[j].validFrom <= t
  {
    if !LastOfKey(rows, i) {
      var j :| i < j < |rows| && SameKey(rows[i], rows[j]);
      var next := NextOfKey(rows, i, j);
    }
  }

  /** Later calls write later rows. */
  lemma WriterOrder<A>(ops: seq<Op<A>>, tables: seq<seq<Row<A>>>, i: nat, j: nat, p: string, k: string)
    requires Run(ops, tables) && i < |ops| && j < |ops|
    requires WritesKey(ops, tables, i, p, k) && WritesKey(ops, tables, j, p, k)
    ensures i < j <==> |tables[i]| < |tables[j]|
  {
    if i < j {
      WriteGrows(ops, tables, i);
      RunExtends(ops, tables, i + 1, j);
    } else {
      RunExtends(ops, tables, j, i);
    }
  }

  lemma WriteGrows<A>(ops: seq<Op<A>>, tables: seq<seq<Row<A>>>, i: nat)
    requires Run(ops, tables) && i < |ops| && Writes(tables[i], ops[i])
    ensures |tables[i + 1]| == |tables[i]| + 1
  {
    assert Step(tables[i], ops[i], tables[i + 1]);
  }

  /** The key's rows that start by t: none before the last write by t is later in the table. */
  lemma StartedBy<A>(ops: seq<Op<A>>, tables: seq<seq<Row<A>>>, p: string, k: string, t: int, j: nat) returns (i: nat)
    requires Run(ops, tables) && NeverExpired(ops, p, k)
    requires j < |tables[|ops|]| && Mine(tables[|ops|][j], p, k) && tables[|ops|][j].validFrom <= t
    ensures var w := LastWrite(ops, tables, p, k, t);
      w.Some? && w.value < |ops| && j <= |tables[w.value]|
      && i < |ops| && WritesKey(ops, tables, i, p, k) && |tables[i]| == j
  {
    LogRun(ops, tables, |ops|, p, k);
    assert HasWriter(ops, tables, |ops|, p, k, j);
    i :| i < |ops| && WritesKey(ops, tables, i, p, k) && |tables[i]| == j;
    assert IsEntry(tables[|ops|], |tables[i]|, ops[i]);
    LastWriteMeaning(ops, tables, p, k, t);
    WriterOrder(ops, tables, LastWrite(ops, tables, p, k, t).value, i, p, k);
  }

  /** The row of the last write by t is in force at t. */
  lemma LastWriteInForce<A>(ops: seq<Op<A>>, tables: seq<seq<Row<A>>>, p: string, k: string, t: int)
    requires Run(ops, tables) && NeverExpired(ops, p, k) && LastWrite(ops, tables, p, k, t).Some?
    ensures var i, rows := LastWrite(ops, tables, p, k, t).value, tables[|ops|];
      && i < |ops| && IsEntry(rows, |tables[i]|, ops[i]) && ActiveFor(rows[|tables[i]|], p, k, t)
  {
    LogRun(ops, tables, |ops|, p, k);
    LastWriteMeaning(ops, tables, p, k, t);
    var i, rows := LastWrite(ops, tables, p, k, t).value, tables[|ops|];
    assert WritesKey(ops, tables, i, p, k);
    var a := |tables[i]|;
    LastStartedIsActive(rows, p, k, a, t);
    if j :| a < j < |rows| && SameKey(rows[a], rows[j]) && rows[j].validFrom <= t {
      var i' := StartedBy(ops, tables, p, k, t, j);
    }
  }

  /** The as-of lookup is the log lookup: after any run that does not expire the key, in any time
    * order and whatever the calls on other keys, the highest-version row in force at t is the row of
    * the last call that wrote the key with a business time not after t, and there is none exactly
    * when there is no such call. */
  lemma AsOfIsLastWrite<A>(ops: seq<Op<A>>, tables: seq<seq<Row<A>>>, p: string, k: string, t: int, r: Option<nat>)
    requires Run(ops, tables) && NeverExpired(ops, p, k)
    requires IsAsOf(tables[|ops|], p, k, t, r)
    ensures match LastWrite(ops, tables, p, k, t)
            case None => r == None
            case Some(i) => i < |ops| && r == Some(|tables[i]|) && IsEntry(tables[|ops|], |tables[i]|, ops[i])
  {
    if LastWrite(ops, tables, p, k, t).Some? {
      LastWriteInForce(ops, tables, p, k, t);
    }
    if r.Some? {
      FoundIsLastWrite(ops, tables, p, k, t, r.value);
    }
  }

  lemma FoundIsLastWrite<A>(ops: seq<Op<A>>, tables: seq<seq<Row<A>>>, p: string, k: string, t: int, a: nat)
    requires Run(ops, tables) && NeverExpired(ops, p, k)
    requires IsAsOf(tables[|ops|], p, k, t, Some(a))
    ensures var w := LastWrite(ops, tables, p, k, t);
            w.Some? && w.value < |ops| && a == |tables[w.value]|
  {
    ReachableWellFormed(ops, tables, |ops|);
    var i := StartedBy(ops, tables, p, k, t, a);
    LastWriteInForce(ops, tables, p, k, t);
    GreatestIsLast(tables[|ops|], p, k, t, a, |tables[LastWrite(ops, tables, p, k, t).value]|);
  }

  /** Of two rows in force, the one of the greatest version is the later one. */
  lemma GreatestIsLast<A>(rows: seq<Row<A>>, p: string, k: string, t: int, r: nat, a: nat)
    requires WellFormed(rows) && IsAsOf(rows, p, k, t, Some(r)) && a < |rows| && ActiveFor(rows[a], p, k, t)
    ensures a <= r
  {
    VersionsOrdered(rows, p, k);
  }
}
