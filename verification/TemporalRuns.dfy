/** What every sequential run of the temporal engine keeps (core/temporal/engine.py). */
module TemporalRuns {
  import opened Wrappers
  import opened Temporal

  datatype Op<A> =
    | Supersede(project: string, key: string, at: int, attrs: A, source: string)
    | Rollback(project: string, key: string, at: int, target: nat)
    | ExpireLogical(project: string, key: string, at: int)
    | Expire(project: string, key: string, at: int, index: nat)
    | Resolve(project: string, key: string, at: int)

  /** One call, from the table s to the table s'. */
  ghost predicate Step<A>(s: seq<Row<A>>, op: Op<A>, s': seq<Row<A>>) {
    match op
    case Supersede(p, k, at, attrs, source) => Superseded(s, p, k, attrs, at, source, s')
    case Rollback(p, k, at, v) => RolledBack(s, p, k, v, at, s')
    case ExpireLogical(p, k, at) => s' == CloseAllBut(s, p, k, None, at)
    case Expire(p, k, at, i) =>
      && i < |s| && Mine(s[i], p, k)
      && s' == if Open(s[i]) then s[i := Close(s[i], at)] else s
    case Resolve(p, k, at) => Resolved(s, p, k, at, s')
  }

  /** A run: tables[i] becomes tables[i + 1] by ops[i], from the empty table. */
  ghost predicate Run<A>(ops: seq<Op<A>>, tables: seq<seq<Row<A>>>) {
    && |tables| == |ops| + 1 && tables[0] == []
    && forall i :: 0 <= i < |ops| ==> Step(tables[i], ops[i], tables[i + 1])
  }

  predicate SameKey<A>(a: Row<A>, b: Row<A>) {
    a.project == b.project && a.key == b.key
  }

  /** s' keeps every row of s, in place, with everything but `valid_until` as it was. */
  ghost predicate Extends<A>(s: seq<Row<A>>, s': seq<Row<A>>) {
    |s| <= |s'| && forall i :: 0 <= i < |s| ==> s[i] == s'[i].(validUntil := s[i].validUntil)
  }

  /** Only rows of (p, k) differ or are new. */
  ghost predicate OnlyTouches<A>(s: seq<Row<A>>, s': seq<Row<A>>, p: string, k: string) {
    && |s| <= |s'|
    && (forall i :: 0 <= i < |s| && !Mine(s[i], p, k) ==> s'[i] == s[i])
    && forall i :: |s| <= i < |s'| ==> Mine(s'[i], p, k)
  }

  /** The invariant: in table order a key's versions count 1, 2, 3, ... and only its last row is open. */
  ghost predicate WellFormed<A>(rows: seq<Row<A>>) {
    && (forall i: nat :: i < |rows| ==> Numbered(rows, i))
    && forall i, j :: 0 <= i < j < |rows| && SameKey(rows[i], rows[j]) ==> !Open(rows[i])
  }

  /** Row i's version is one more than the number of earlier rows of its key. */
  ghost predicate Numbered<A>(rows: seq<Row<A>>, i: nat)
    requires i < |rows|
  {
    rows[i].version == KeyCount(rows[..i], rows[i].project, rows[i].key) + 1
  }

  // ----- every step only closes and appends, and only on its own key -----

  lemma StepExtends<A>(s: seq<Row<A>>, op: Op<A>, s': seq<Row<A>>)
    requires Step(s, op, s')
    ensures Extends(s, s') && OnlyTouches(s, s', op.project, op.key)
  {
  }

  lemma {:induction false} RunExtends<A>(ops: seq<Op<A>>, tables: seq<seq<Row<A>>>, i: nat, j: nat)
    requires Run(ops, tables) && i <= j <= |ops|
    ensures Extends(tables[i], tables[j])
    decreases j - i
  {
    if i < j {
      StepExtends(tables[j - 1], ops[j - 1], tables[j]);
      RunExtends(ops, tables, i, j - 1);
    }
  }

  // ----- well-formedness is kept -----

  lemma {:induction false} CountSkeleton<A>(s: seq<Row<A>>, s': seq<Row<A>>, p: string, k: string)
    requires |s| == |s'| && Extends(s, s')
    ensures KeyCount(s, p, k) == KeyCount(s', p, k)
  {
    if |s| > 0 {
      var n := |s| - 1;
      CountSkeleton(s[..n], s'[..n], p, k);
    }
  }

  lemma ClosingKeepsWellFormed<A>(s: seq<Row<A>>, s': seq<Row<A>>)
    requires WellFormed(s) && Extends(s, s') && |s| == |s'|
    requires forall i :: 0 <= i < |s| && Open(s'[i]) ==> Open(s[i])
    ensures WellFormed(s')
  {
    forall i: nat | i < |s'|
      ensures Numbered(s', i)
    {
      assert Numbered(s, i);
      CountSkeleton(s[..i], s'[..i], s[i].project, s[i].key);
    }
  }

  lemma AppendKeepsWellFormed<A>(s: seq<Row<A>>, r: Row<A>)
    requires WellFormed(s) && r.version == KeyCount(s, r.project, r.key) + 1
    requires forall i :: 0 <= i < |s| ==> !OpenFor(s[i], r.project, r.key)
    ensures WellFormed(s + [r])
  {
    var s' := s + [r];
    forall i: nat | i < |s'|
      ensures Numbered(s', i)
    {
      assert s'[..i] == s[..i];
      assert s[..|s|] == s;
      assert i < |s| ==> Numbered(s, i);
    }
  }

  lemma PrefixWellFormed<A>(s: seq<Row<A>>, n: nat)
    requires WellFormed(s) && n <= |s|
    ensures WellFormed(s[..n])
  {
    forall i: nat | i < n
      ensures Numbered(s[..n], i)
    {
      assert Numbered(s, i);
      assert s[..n][..i] == s[..i];
    }
  }

  lemma {:induction false} MaxIsCount<A>(s: seq<Row<A>>, p: string, k: string)
    requires WellFormed(s)
    ensures MaxVersion(s, p, k) == if KeyCount(s, p, k) == 0 then None else Some(KeyCount(s, p, k))
  {
    if |s| > 0 {
      assert Numbered(s, |s| - 1);
      PrefixWellFormed(s, |s| - 1);
      MaxIsCount(s[..|s| - 1], p, k);
    }
  }

  lemma WriteKeepsWellFormed<A>(s: seq<Row<A>>, cur: Option<nat>, p: string, k: string, attrs: A, ts: int,
                                source: string)
    requires WellFormed(s) && IsCurrent(s, p, k, cur)
    ensures WellFormed(Written(s, cur, MaxVersion(s, p, k), p, k, attrs, ts, source))
  {
    var closed := if cur.Some? then s[cur.value := Close(s[cur.value], ts)] else s;
    ClosingKeepsWellFormed(s, closed);
    CountSkeleton(s, closed, p, k);
    MaxIsCount(s, p, k);
    AppendKeepsWellFormed(closed, Row(p, k, attrs, ts, None, MaxVersion(s, p, k).GetOr(0) + 1, source));
  }

  lemma StepKeepsWellFormed<A>(s: seq<Row<A>>, op: Op<A>, s': seq<Row<A>>)
    requires WellFormed(s) && Step(s, op, s')
    ensures WellFormed(s')
  {
    match op
    case Supersede(p, k, at, attrs, source) =>
      SupersedeKeepsWellFormed(s, p, k, attrs, at, source, s');
    case Rollback(p, k, at, v) =>
      if s' != s {
        var i: nat :| IsVersion(s, p, k, v, i) && Superseded(s, p, k, s[i].attrs, at, "rollback", s');
        SupersedeKeepsWellFormed(s, p, k, s[i].attrs, at, "rollback", s');
      }
    case _ =>
      StepExtends(s, op, s');
      ClosingKeepsWellFormed(s, s');
  }

  lemma SupersedeKeepsWellFormed<A>(s: seq<Row<A>>, p: string, k: string, attrs: A, ts: int, source: string,
                                    s': seq<Row<A>>)
    requires WellFormed(s) && Superseded(s, p, k, attrs, ts, source, s')
    ensures WellFormed(s')
  {
    var cur: Option<nat> :| IsCurrent(s, p, k, cur)
      && s' == Written(s, cur, MaxVersion(s, p, k), p, k, attrs, ts, source);
    WriteKeepsWellFormed(s, cur, p, k, attrs, ts, source);
  }

  /** In a well-formed table a `supersede` closes exactly the key's open row, if any, and adds
    * the next version, open. */
  lemma SupersedeEffect<A>(s: seq<Row<A>>, p: string, k: string, attrs: A, ts: int, source: string, s': seq<Row<A>>)
    requires WellFormed(s) && Superseded(s, p, k, attrs, ts, source, s')
    ensures |s'| == |s| + 1 && WellFormed(s')
    ensures s'[|s|] == Row(p, k, attrs, ts, None, KeyCount(s, p, k) + 1, source)
    ensures forall i :: 0 <= i < |s| ==> s'[i] == if OpenFor(s[i], p, k) then Close(s[i], ts) else s[i]
  {
    MaxIsCount(s, p, k);
    SupersedeKeepsWellFormed(s, p, k, attrs, ts, source, s');
  }

  /** Every reachable table is well formed, whatever the times passed to the calls. */
  lemma {:induction false} ReachableWellFormed<A>(ops: seq<Op<A>>, tables: seq<seq<Row<A>>>, n: nat)
    requires Run(ops, tables) && n <= |ops|
    ensures WellFormed(tables[n])
  {
    if n > 0 {
      ReachableWellFormed(ops, tables, n - 1);
      StepKeepsWellFormed(tables[n - 1], ops[n - 1], tables[n]);
    }
  }

  /** What well-formedness means for a key with n rows: its versions are exactly 1..n, each
    * once, in the order of writing, and an open row is version n. */
  lemma VersionsExact<A>(s: seq<Row<A>>, p: string, k: string)
    requires WellFormed(s)
    ensures forall v: nat :: HasVersion(s, p, k, v) <==> 1 <= v <= KeyCount(s, p, k)
    ensures forall i, j :: 0 <= i < j < |s| && Mine(s[i], p, k) && Mine(s[j], p, k) ==> s[i].version < s[j].version
    ensures forall i :: 0 <= i < |s| && OpenFor(s[i], p, k) ==> s[i].version == KeyCount(s, p, k)
  {
    VersionsOrdered(s, p, k);
    forall v: nat
      ensures HasVersion(s, p, k, v) <==> 1 <= v <= KeyCount(s, p, k)
    {
      if 1 <= v <= KeyCount(s, p, k) {
        VersionPresent(s, p, k, v);
      }
    }
  }

  lemma VersionsOrdered<A>(s: seq<Row<A>>, p: string, k: string)
    requires WellFormed(s)
    ensures forall i :: 0 <= i < |s| && Mine(s[i], p, k) ==> 1 <= s[i].version <= KeyCount(s, p, k)
    ensures forall i, j :: 0 <= i < j < |s| && Mine(s[i], p, k) && Mine(s[j], p, k) ==> s[i].version < s[j].version
    ensures forall i :: 0 <= i < |s| && OpenFor(s[i], p, k) ==> s[i].version == KeyCount(s, p, k)
  {
    assert s[..|s|] == s;
    forall i | 0 <= i < |s| && Mine(s[i], p, k)
      ensures 1 <= s[i].version <= KeyCount(s, p, k)
      ensures Open(s[i]) ==> s[i].version == KeyCount(s, p, k)
    {
      assert Numbered(s, i);
      CountMonotone(s, p, k, i + 1, |s|);
      if Open(s[i]) {
        CountUnchanged(s, p, k, i + 1, |s|);
      }
      CountStep(s, p, k, i);
    }
    forall i, j | 0 <= i < j < |s| && Mine(s[i], p, k) && Mine(s[j], p, k)
      ensures s[i].version < s[j].version
    {
      assert Numbered(s, i) && Numbered(s, j);
      CountStep(s, p, k, i);
      CountMonotone(s, p, k, i + 1, j);
    }
  }

  lemma CountStep<A>(s: seq<Row<A>>, p: string, k: string, i: nat)
    requires i < |s|
    ensures KeyCount(s[..i + 1], p, k) == KeyCount(s[..i], p, k) + (if Mine(s[i], p, k) then 1 else 0)
  {
    assert s[..i + 1][..i] == s[..i];
  }

  lemma {:induction false} CountMonotone<A>(s: seq<Row<A>>, p: string, k: string, i: nat, j: nat)
    requires i <= j <= |s|
    ensures KeyCount(s[..i], p, k) <= KeyCount(s[..j], p, k)
    decreases j
  {
    if i < j {
      CountMonotone(s, p, k, i, j - 1);
      CountStep(s, p, k, j - 1);
    }
  }

  lemma {:induction false} CountUnchanged<A>(s: seq<Row<A>>, p: string, k: string, i: nat, j: nat)
    requires i <= j <= |s|
    requires forall m :: i <= m < j ==> !Mine(s[m], p, k)
    ensures KeyCount(s[..i], p, k) == KeyCount(s[..j], p, k)
    decreases j
  {
    if i < j {
      CountUnchanged(s, p, k, i, j - 1);
      CountStep(s, p, k, j - 1);
    }
  }

  lemma {:induction false} VersionPresent<A>(s: seq<Row<A>>, p: string, k: string, v: nat)
    requires WellFormed(s) && 1 <= v <= KeyCount(s, p, k)
    ensures HasVersion(s, p, k, v)
  {
    var n := |s| - 1;
    assert Numbered(s, n);
    if Mine(s[n], p, k) && v == KeyCount(s, p, k) {
      assert IsVersion(s, p, k, v, n);
    } else {
      PrefixWellFormed(s, n);
      VersionPresent(s[..n], p, k, v);
      var i: nat :| i < n && IsVersion(s[..n], p, k, v, i);
      assert IsVersion(s, p, k, v, i);
    }
  }

  /** At most one open row per key, stated on runs. */
  lemma ReachableOneOpen<A>(ops: seq<Op<A>>, tables: seq<seq<Row<A>>>, n: nat, p: string, k: string)
    requires Run(ops, tables) && n <= |ops|
    ensures OpenCount(tables[n], p, k) <= 1
  {
    ReachableWellFormed(ops, tables, n);
    AtMostOneOpen(tables[n], p, k);
  }

  // ----- temporal rollback -----

  /** Rolling back to v adds version n + 1 with the attributes of v and the source "rollback",
    * and rolling back again to n restores the attributes of n. */
  lemma RollbackReversible<A>(s: seq<Row<A>>, p: string, k: string, v: nat, now: int, s': seq<Row<A>>,
                              now2: int, s'': seq<Row<A>>, target: nat, last: nat)
    requires WellFormed(s)
    requires IsVersion(s, p, k, v, target) && IsVersion(s, p, k, KeyCount(s, p, k), last)
    requires RolledBack(s, p, k, v, now, s') && RolledBack(s', p, k, KeyCount(s, p, k), now2, s'')
    ensures |s'| == |s| + 1 && |s''| == |s| + 2
    ensures s'[|s|] == Row(p, k, s[target].attrs, now, None, KeyCount(s, p, k) + 1, "rollback")
    ensures s''[|s| + 1] == Row(p, k, s[last].attrs, now2, None, KeyCount(s, p, k) + 2, "rollback")
    ensures forall i :: 0 <= i < |s| && !OpenFor(s[i], p, k) ==> s'[i] == s[i]
    ensures forall i :: 0 <= i < |s| && OpenFor(s[i], p, k) ==> s'[i] == Close(s[i], now)
  {
    RollbackWrites(s, p, k, v, now, s', target);
    RollbackCounts(s, p, k, v, now, s');
    RollbackWrites(s', p, k, KeyCount(s, p, k), now2, s'', last);
  }

  lemma RollbackCounts<A>(s: seq<Row<A>>, p: string, k: string, v: nat, now: int, s': seq<Row<A>>)
    requires WellFormed(s) && HasVersion(s, p, k, v) && RolledBack(s, p, k, v, now, s')
    ensures WellFormed(s') && KeyCount(s', p, k) == KeyCount(s, p, k) + 1
  {
    StepExtends(s, Rollback(p, k, now, v), s');
    StepKeepsWellFormed(s, Rollback(p, k, now, v), s');
    CountSkeleton(s, s'[..|s|], p, k);
  }

  lemma RollbackWrites<A>(s: seq<Row<A>>, p: string, k: string, v: nat, now: int, s': seq<Row<A>>, target: nat)
    requires WellFormed(s) && IsVersion(s, p, k, v, target) && RolledBack(s, p, k, v, now, s')
    ensures |s'| == |s| + 1
    ensures s'[|s|] == Row(p, k, s[target].attrs, now, None, KeyCount(s, p, k) + 1, "rollback")
    ensures forall i :: 0 <= i < |s| && !OpenFor(s[i], p, k) ==> s'[i] == s[i]
    ensures forall i :: 0 <= i < |s| && OpenFor(s[i], p, k) ==> s'[i] == Close(s[i], now)
  {
    VersionsExact(s, p, k);
    var i: nat :| IsVersion(s, p, k, v, i) && Superseded(s, p, k, s[i].attrs, now, "rollback", s');
    assert i == target;
    SupersedeEffect(s, p, k, s[i].attrs, now, "rollback", s');
  }
}
