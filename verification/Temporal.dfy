/** The bitemporal version store: core/temporal/engine.py.
  *
  * A table is a sequence of rows in insertion order. No operation removes a row, so a
  * row's position identifies it. Where the original leaves a choice to the database
  * (ORDER BY version DESC LIMIT 1 among equal versions), the choice is a relation here.
  */
module Temporal {
  import opened Wrappers

  datatype Row<A> = Row(
    project: string, key: string, attrs: A,
    validFrom: int, validUntil: Option<int>, version: nat, source: string)

  predicate Mine<A>(r: Row<A>, p: string, k: string) {
    r.project == p && r.key == k
  }

  predicate Open<A>(r: Row<A>) {
    r.validUntil.None?
  }

  predicate OpenFor<A>(r: Row<A>, p: string, k: string) {
    Mine(r, p, k) && Open(r)
  }

  /** The filter of `active_conditions`. */
  predicate InForce(validFrom: int, validUntil: Option<int>, t: int) {
    validFrom <= t && (validUntil.None? || validUntil.value > t)
  }

  predicate ActiveAt<A>(r: Row<A>, t: int) {
    InForce(r.validFrom, r.validUntil, t)
  }

  predicate ActiveFor<A>(r: Row<A>, p: string, k: string, t: int) {
    Mine(r, p, k) && ActiveAt(r, t)
  }

  /** `get_current`: some open row of the key with the greatest version, or None. */
  ghost predicate IsCurrent<A>(rows: seq<Row<A>>, p: string, k: string, cur: Option<nat>) {
    match cur
    case None => forall i :: 0 <= i < |rows| ==> !OpenFor(rows[i], p, k)
    case Some(c) =>
      && c < |rows| && OpenFor(rows[c], p, k)
      && forall i :: 0 <= i < |rows| && OpenFor(rows[i], p, k) ==> rows[i].version <= rows[c].version
  }

  /** `get_entity_by_uuid(as_of)`: some row of the key in force at t with the greatest version. */
  ghost predicate IsAsOf<A>(rows: seq<Row<A>>, p: string, k: string, t: int, r: Option<nat>) {
    match r
    case None => forall i :: 0 <= i < |rows| ==> !ActiveFor(rows[i], p, k, t)
    case Some(c) =>
      && c < |rows| && ActiveFor(rows[c], p, k, t)
      && forall i :: 0 <= i < |rows| && ActiveFor(rows[i], p, k, t) ==> rows[i].version <= rows[c].version
  }

  /** `_max_version`: SQL max(version) over the key's rows, open or not. */
  function MaxVersion<A>(rows: seq<Row<A>>, p: string, k: string): Option<nat> {
    if |rows| == 0 then None
    else
      var r := rows[|rows| - 1];
      var m := MaxVersion(rows[..|rows| - 1], p, k);
      if Mine(r, p, k) && (m.None? || m.value < r.version) then Some(r.version) else m
  }

  function Close<A>(r: Row<A>, ts: int): Row<A> {
    r.(validUntil := Some(ts))
  }

  /** The write half of `supersede`: close the row that was read as current (whatever its
    * state by now) and append a version one above the maximum that was read. */
  function Written<A>(rows: seq<Row<A>>, cur: Option<nat>, maxv: Option<nat>, p: string, k: string,
                      attrs: A, ts: int, source: string): seq<Row<A>>
    requires cur.Some? ==> cur.value < |rows|
  {
    (if cur.Some? then rows[cur.value := Close(rows[cur.value], ts)] else rows)
    + [Row(p, k, attrs, ts, None, maxv.GetOr(0) + 1, source)]
  }

  /** Every open row of the key is closed at ts, except the kept one. */
  function CloseAllBut<A>(rows: seq<Row<A>>, p: string, k: string, keep: Option<nat>, ts: int): seq<Row<A>> {
    seq(|rows|, i requires 0 <= i < |rows| =>
      if OpenFor(rows[i], p, k) && keep != Some(i) then Close(rows[i], ts) else rows[i])
  }

  /** The row `resolve_conflict_keep_latest` keeps: open, greatest by (version, valid_from). */
  ghost predicate IsLatestOpen<A>(rows: seq<Row<A>>, p: string, k: string, keep: nat) {
    && keep < |rows| && OpenFor(rows[keep], p, k)
    && forall i :: 0 <= i < |rows| && OpenFor(rows[i], p, k) ==> AtMost(rows[i], rows[keep])
  }

  /** Python's tuple order on (version, valid_from). */
  predicate AtMost<A>(a: Row<A>, b: Row<A>) {
    a.version < b.version || (a.version == b.version && a.validFrom <= b.validFrom)
  }

  function KeyCount<A>(rows: seq<Row<A>>, p: string, k: string): nat {
    if |rows| == 0 then 0
    else KeyCount(rows[..|rows| - 1], p, k) + (if Mine(rows[|rows| - 1], p, k) then 1 else 0)
  }

  function OpenCount<A>(rows: seq<Row<A>>, p: string, k: string): nat {
    if |rows| == 0 then 0
    else OpenCount(rows[..|rows| - 1], p, k) + (if OpenFor(rows[|rows| - 1], p, k) then 1 else 0)
  }

  // ----- the steps of the state machine -----

  ghost predicate Superseded<A>(s: seq<Row<A>>, p: string, k: string, attrs: A, ts: int, source: string,
                                s': seq<Row<A>>)
  {
    exists cur: Option<nat> :: IsCurrent(s, p, k, cur)
      && s' == Written(s, cur, MaxVersion(s, p, k), p, k, attrs, ts, source)
  }

  ghost predicate Resolved<A>(s: seq<Row<A>>, p: string, k: string, ts: int, s': seq<Row<A>>) {
    || (OpenCount(s, p, k) == 0 && s' == s)
    || exists keep: nat :: IsLatestOpen(s, p, k, keep) && s' == CloseAllBut(s, p, k, Some(keep), ts)
  }

  /** Row i holds version v of the key. */
  predicate IsVersion<A>(rows: seq<Row<A>>, p: string, k: string, v: nat, i: nat) {
    i < |rows| && Mine(rows[i], p, k) && rows[i].version == v
  }

  predicate HasVersion<A>(rows: seq<Row<A>>, p: string, k: string, v: nat) {
    exists i: nat :: i < |rows| && IsVersion(rows, p, k, v, i)
  }

  /** `rollback_to_version`: raises NotFoundError and changes nothing when the version is missing. */
  ghost predicate RolledBack<A>(s: seq<Row<A>>, p: string, k: string, v: nat, now: int, s': seq<Row<A>>) {
    || (!HasVersion(s, p, k, v) && s' == s)
    || exists i: nat :: IsVersion(s, p, k, v, i) && Superseded(s, p, k, s[i].attrs, now, "rollback", s')
  }

  // ----- the table, with the operations as the original runs them -----

  class VersionTable<A> {
    var rows: seq<Row<A>>

    constructor ()
      ensures rows == []
    {
      rows := [];
    }

    method GetCurrent(p: string, k: string) returns (current: Option<nat>)
      ensures IsCurrent(rows, p, k, current)
    {
      current := None;
      for i := 0 to |rows|
        invariant IsCurrent(rows[..i], p, k, current)
      {
        if OpenFor(rows[i], p, k) && (current.None? || rows[current.value].version < rows[i].version) {
          current := Some(i);
        }
      }
      assert rows[..|rows|] == rows;
    }

    /** `expire`: in place, only when the row is still open. */
    method Expire(i: nat, at: int)
      requires i < |rows|
      modifies this
      ensures rows == if Open(old(rows)[i]) then old(rows)[i := Close(old(rows)[i], at)] else old(rows)
    {
      if Open(rows[i]) {
        rows := rows[i := Close(rows[i], at)];
      }
    }

    /** `expire_logical`: closes every open row of the key and counts them. */
    method ExpireLogical(p: string, k: string, at: int) returns (n: nat)
      modifies this
      ensures rows == CloseAllBut(old(rows), p, k, None, at)
      ensures n == OpenCount(old(rows), p, k)
    {
      n := CloseOpenRows(p, k, None, at);
    }

    /** `supersede`. */
    method Supersede(p: string, k: string, attrs: A, ts: int, source: string) returns (added: nat)
      modifies this
      ensures Superseded(old(rows), p, k, attrs, ts, source, rows)
      ensures added == |old(rows)| && |rows| == added + 1
    {
      var current := GetCurrent(p, k);
      var maxVersion := MaxVersion(rows, p, k);
      added := |rows|;
      if current.Some? {
        rows := rows[current.value := Close(rows[current.value], ts)];
      }
      rows := rows + [Row(p, k, attrs, ts, None, maxVersion.GetOr(0) + 1, source)];
      assert rows == Written(old(rows), current, maxVersion, p, k, attrs, ts, source);
    }

    /** `resolve_conflict_keep_latest`: how many rows it closed. */
    method ResolveConflictKeepLatest(p: string, k: string, now: int) returns (expired: nat)
      modifies this
      ensures Resolved(old(rows), p, k, now, rows)
      ensures expired == if OpenCount(old(rows), p, k) <= 1 then 0 else OpenCount(old(rows), p, k) - 1
    {
      var keep: Option<nat> := None;
      for i := 0 to |rows|
        invariant rows == old(rows)
        invariant keep.None? ==> OpenCount(rows[..i], p, k) == 0
        invariant keep.Some? ==> OpenCount(rows[..i], p, k) >= 1 && IsLatestOpen(rows[..i], p, k, keep.value)
      {
        assert rows[..i + 1][..i] == rows[..i];
        if keep.None? { NoneOpen(rows[..i], p, k); }
        if OpenFor(rows[i], p, k) && (keep.None? || !AtMost(rows[i], rows[keep.value])) {
          keep := Some(i);
        }
      }
      assert rows[..|rows|] == rows;
      expired := 0;
      if keep.Some? {
        expired := CloseOpenRows(p, k, keep, now);
      }
    }

    /** The two loops above that assign `valid_until` row by row. */
    method CloseOpenRows(p: string, k: string, keep: Option<nat>, ts: int) returns (n: nat)
      requires keep.Some? ==> keep.value < |rows| && OpenFor(rows[keep.value], p, k)
      modifies this
      ensures rows == CloseAllBut(old(rows), p, k, keep, ts)
      ensures n == OpenCount(old(rows), p, k) - (if keep.Some? then 1 else 0)
    {
      n := 0;
      ghost var was := rows;
      for i := 0 to |rows|
        invariant |rows| == |was|
        invariant forall j :: 0 <= j < i ==> rows[j] == CloseAllBut(was, p, k, keep, ts)[j]
        invariant forall j :: i <= j < |rows| ==> rows[j] == was[j]
        invariant n + (if keep.Some? && keep.value < i then 1 else 0) == OpenCount(was[..i], p, k)
      {
        assert was[..i + 1][..i] == was[..i];
        if OpenFor(rows[i], p, k) && keep != Some(i) {
          rows := rows[i := Close(rows[i], ts)];
          n := n + 1;
        }
      }
      assert was[..|was|] == was;
    }

    /** `rollback_to_version`. */
    method RollbackToVersion(p: string, k: string, target: nat, now: int) returns (r: Result<nat>)
      modifies this
      ensures r.Ok? <==> HasVersion(old(rows), p, k, target)
      ensures r.Err? ==> r.error == NotFoundError && rows == old(rows)
      ensures r.Ok? ==> r.value == |old(rows)| && |rows| == r.value + 1
      ensures RolledBack(old(rows), p, k, target, now, rows)
    {
      for i := 0 to |rows|
        invariant rows == old(rows)
        invariant forall j :: 0 <= j < i ==> !IsVersion(rows, p, k, target, j)
      {
        if IsVersion(rows, p, k, target, i) {
          var added := Supersede(p, k, rows[i].attrs, now, "rollback");
          return Ok(added);
        }
      }
      return Err(NotFoundError);
    }
  }

  /** The maximum is attained and bounds every version of the key. */
  lemma {:induction false} MaxVersionIsMax<A>(rows: seq<Row<A>>, p: string, k: string)
    ensures MaxVersion(rows, p, k).None? ==> forall i :: 0 <= i < |rows| ==> !Mine(rows[i], p, k)
    ensures MaxVersion(rows, p, k).Some? ==> HasVersion(rows, p, k, MaxVersion(rows, p, k).value)
    ensures forall i :: 0 <= i < |rows| && Mine(rows[i], p, k) ==>
              MaxVersion(rows, p, k).Some? && rows[i].version <= MaxVersion(rows, p, k).value
  {
    if |rows| > 0 {
      var n := |rows| - 1;
      var m := MaxVersion(rows[..n], p, k);
      MaxVersionIsMax(rows[..n], p, k);
      assert forall i :: 0 <= i < n ==> rows[..n][i] == rows[i];
      if m.Some? {
        var i: nat :| i < n && IsVersion(rows[..n], p, k, m.value, i);
        assert IsVersion(rows, p, k, m.value, i);
      }
      assert Mine(rows[n], p, k) ==> IsVersion(rows, p, k, rows[n].version, n);
    }
  }

  // ----- counting open rows -----

  lemma {:induction false} NoneOpen<A>(rows: seq<Row<A>>, p: string, k: string)
    ensures OpenCount(rows, p, k) == 0 <==> forall i :: 0 <= i < |rows| ==> !OpenFor(rows[i], p, k)
  {
    if |rows| > 0 {
      var n := |rows| - 1;
      NoneOpen(rows[..n], p, k);
      assert forall i :: 0 <= i < n ==> rows[..n][i] == rows[i];
    }
  }

  /** At most one open row means: two open rows are the same row. */
  lemma {:induction false} AtMostOneOpen<A>(rows: seq<Row<A>>, p: string, k: string)
    ensures OpenCount(rows, p, k) <= 1 <==>
            forall i, j :: 0 <= i < j < |rows| ==> !(OpenFor(rows[i], p, k) && OpenFor(rows[j], p, k))
  {
    if |rows| > 0 {
      var n := |rows| - 1;
      AtMostOneOpen(rows[..n], p, k);
      NoneOpen(rows[..n], p, k);
      assert forall i :: 0 <= i < n ==> rows[..n][i] == rows[i];
    }
  }

  /** Changing one row changes the count by what that row contributes. */
  lemma {:induction false} OpenCountUpdate<A>(rows: seq<Row<A>>, p: string, k: string, c: nat, r: Row<A>)
    requires c < |rows|
    ensures OpenCount(rows[c := r], p, k)
         == OpenCount(rows, p, k) - (if OpenFor(rows[c], p, k) then 1 else 0) + (if OpenFor(r, p, k) then 1 else 0)
  {
    var n := |rows| - 1;
    if c == n {
      assert rows[c := r][..n] == rows[..n];
    } else {
      assert rows[c := r][..n] == rows[..n][c := r];
      OpenCountUpdate(rows[..n], p, k, c, r);
    }
  }

  /** An atomic `supersede` turns k open rows into max(k, 1): it never repairs a conflict by itself. */
  lemma SupersedeOpenCount<A>(s: seq<Row<A>>, p: string, k: string, attrs: A, ts: int, source: string, s': seq<Row<A>>)
    requires Superseded(s, p, k, attrs, ts, source, s')
    ensures OpenCount(s', p, k) == if OpenCount(s, p, k) == 0 then 1 else OpenCount(s, p, k)
  {
    var cur: Option<nat> :| IsCurrent(s, p, k, cur)
      && s' == Written(s, cur, MaxVersion(s, p, k), p, k, attrs, ts, source);
    NoneOpen(s, p, k);
    assert s'[..|s|] == if cur.Some? then s[cur.value := Close(s[cur.value], ts)] else s;
    if cur.Some? {
      OpenCountUpdate(s, p, k, cur.value, Close(s[cur.value], ts));
    }
  }

  /** From any store, the repair leaves at most one open row of the key: one of maximal
    * (version, valid_from) among the open ones. */
  lemma ResolveKeepsLatest<A>(s: seq<Row<A>>, p: string, k: string, ts: int, s': seq<Row<A>>)
    requires Resolved(s, p, k, ts, s')
    ensures OpenCount(s', p, k) == if OpenCount(s, p, k) == 0 then 0 else 1
    ensures forall i: nat :: i < |s'| && OpenFor(s'[i], p, k) ==> IsLatestOpen(s, p, k, i) && s'[i] == s[i]
  {
    NoneOpen(s, p, k);
    if OpenCount(s, p, k) != 0 {
      var keep: nat :| IsLatestOpen(s, p, k, keep) && s' == CloseAllBut(s, p, k, Some(keep), ts);
      OnlyKeptOpen(s, p, k, keep, ts);
    }
  }

  lemma OnlyKeptOpen<A>(s: seq<Row<A>>, p: string, k: string, keep: nat, ts: int)
    requires keep < |s| && OpenFor(s[keep], p, k)
    ensures var s' := CloseAllBut(s, p, k, Some(keep), ts);
            s'[keep] == s[keep] && (forall i :: 0 <= i < |s| && i != keep ==> !OpenFor(s'[i], p, k))
    ensures OpenCount(CloseAllBut(s, p, k, Some(keep), ts), p, k) == 1
  {
    var s' := CloseAllBut(s, p, k, Some(keep), ts);
    NoneOpen(s', p, k);
    AtMostOneOpen(s', p, k);
    assert OpenFor(s'[keep], p, k);
  }

  /** Repairing twice is repairing once, at whatever later time. */
  lemma ResolveIdempotent<A>(s: seq<Row<A>>, p: string, k: string, ts: int, s': seq<Row<A>>, ts2: int, s'': seq<Row<A>>)
    requires Resolved(s, p, k, ts, s') && Resolved(s', p, k, ts2, s'')
    ensures s'' == s'
  {
    ResolveKeepsLatest(s, p, k, ts, s');
    ResolveOneOpen(s', p, k, ts2, s'');
  }

  /** Where at most one row of the key is open, the repair changes nothing. */
  lemma ResolveOneOpen<A>(s: seq<Row<A>>, p: string, k: string, ts: int, s': seq<Row<A>>)
    requires OpenCount(s, p, k) <= 1
    requires Resolved(s, p, k, ts, s')
    ensures s' == s
  {
    AtMostOneOpen(s, p, k);
    if OpenCount(s, p, k) != 0 || s' != s {
      var keep: nat :| IsLatestOpen(s, p, k, keep) && s' == CloseAllBut(s, p, k, Some(keep), ts);
      OnlyKeepOpen(s, p, k, keep, ts);
    }
  }

  lemma OnlyKeepOpen<A>(s: seq<Row<A>>, p: string, k: string, keep: nat, ts: int)
    requires forall i :: 0 <= i < |s| && OpenFor(s[i], p, k) ==> i == keep
    ensures CloseAllBut(s, p, k, Some(keep), ts) == s
  {
  }
}
