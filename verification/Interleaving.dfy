/** Concurrent writers: `supersede` split into the two reads it makes (current row, then greatest
  * version) and its write, the repair (`resolve_conflict_keep_latest`) and the expiry of a key
  * split into the select and the assignments, and the expiry of one row, with anything in between
  * (core/temporal/engine.py). */
module Interleaving {
  import opened Wrappers
  import opened Temporal
  import opened TemporalRuns

  /** What a writer has read first. */
  datatype Reading<A> = Reading(project: string, key: string, cur: Option<nat>, attrs: A, at: int, source: string)

  /** What a writer has read and is about to write. */
  datatype Pending<A> = Pending(project: string, key: string, cur: Option<nat>, maxv: Option<nat>,
                                attrs: A, at: int, source: string)

  /** The rows a repair or an expiry has selected and is about to close, by position; a repair keeps
    * one of those it selected. */
  datatype Closing = Closing(project: string, key: string, rows: set<nat>, keep: Option<nat>, at: int)

  datatype State<A> = State(rows: seq<Row<A>>, reading: map<nat, Reading<A>>, pending: map<nat, Pending<A>>,
                            closing: map<nat, Closing>)

  datatype Event<A> =
    | ReadCurrent(writer: nat, project: string, key: string, attrs: A, at: int, source: string)
    | ReadMax(writer: nat)
    | Write(writer: nat)
    | SelectRepair(writer: nat, project: string, key: string, at: int)
    | SelectExpiry(writer: nat, project: string, key: string, at: int)
    | Assign(writer: nat)
    | ExpireRow(project: string, key: string, at: int, index: nat)

  ghost predicate Next<A>(s: State<A>, e: Event<A>, s': State<A>) {
    match e
    case ReadCurrent(w, p, k, attrs, at, source) =>
      && w !in s.reading && w !in s.pending && s'.rows == s.rows && s'.pending == s.pending && s'.closing == s.closing
      && exists cur: Option<nat> ::
           && IsCurrent(s.rows, p, k, cur)
           && s'.reading == s.reading[w := Reading(p, k, cur, attrs, at, source)]
    case ReadMax(w) =>
      && w in s.reading && s'.rows == s.rows && s'.reading == s.reading - {w} && s'.closing == s.closing
      && s'.pending == s.pending[w := WithMax(s.rows, s.reading[w])]
    case Write(w) =>
      && w in s.pending && s'.reading == s.reading && s'.pending == s.pending - {w} && s'.closing == s.closing
      && var q := s.pending[w];
         && (q.cur.Some? ==> q.cur.value < |s.rows|)
         && s'.rows == Written(s.rows, q.cur, q.maxv, q.project, q.key, q.attrs, q.at, q.source)
    case SelectRepair(w, p, k, at) =>
      && w !in s.closing && s'.rows == s.rows && SameWriters(s, s')
      && exists keep: Option<nat> ::
           && IsKept(s.rows, p, k, keep)
           && s'.closing == s.closing[w := Closing(p, k, OpenRows(s.rows, p, k) - Just(keep), keep, at)]
    case SelectExpiry(w, p, k, at) =>
      && w !in s.closing && s'.rows == s.rows && SameWriters(s, s')
      && s'.closing == s.closing[w := Closing(p, k, OpenRows(s.rows, p, k), None, at)]
    case Assign(w) =>
      && w in s.closing && SameWriters(s, s') && s'.closing == s.closing - {w}
      && s'.rows == CloseRows(s.rows, s.closing[w].rows, s.closing[w].at)
    case ExpireRow(p, k, at, i) =>
      && SameWriters(s, s') && s'.closing == s.closing && i < |s.rows| && Mine(s.rows[i], p, k)
      && s'.rows == if Open(s.rows[i]) then s.rows[i := Close(s.rows[i], at)] else s.rows
  }

  ghost predicate SameWriters<A>(s: State<A>, s': State<A>) {
    s'.reading == s.reading && s'.pending == s.pending
  }

  /** The row a repair keeps of those it selected: the greatest, or none where none is open. */
  ghost predicate IsKept<A>(rows: seq<Row<A>>, p: string, k: string, keep: Option<nat>) {
    match keep
    case None => OpenRows(rows, p, k) == {}
    case Some(i) => IsLatestOpen(rows, p, k, i)
  }

  ghost function OpenRows<A>(rows: seq<Row<A>>, p: string, k: string): set<nat> {
    set i: nat | i < |rows| && OpenFor(rows[i], p, k) :: i
  }

  ghost function Just(keep: Option<nat>): set<nat> {
    if keep.Some? then {keep.value} else {}
  }

  /** The assignments close the selected rows, whatever their state by now. */
  ghost function CloseRows<A>(rows: seq<Row<A>>, selected: set<nat>, at: int): seq<Row<A>> {
    seq(|rows|, i requires 0 <= i < |rows| => if i in selected then Close(rows[i], at) else rows[i])
  }

  /** The second read. */
  ghost function WithMax<A>(rows: seq<Row<A>>, h: Reading<A>): Pending<A> {
    Pending(h.project, h.key, h.cur, MaxVersion(rows, h.project, h.key), h.attrs, h.at, h.source)
  }

  ghost function Empty<A>(): State<A> {
    State([], map[], map[], map[])
  }

  /** A schedule of events from the empty store. */
  ghost predicate Schedule<A>(events: seq<Event<A>>, states: seq<State<A>>) {
    && |states| == |events| + 1 && states[0] == Empty()
    && forall i :: 0 <= i < |events| ==> Next(states[i], events[i], states[i + 1])
  }

  /** No schedule removes a row or changes anything in it but `valid_until`. */
  lemma {:induction false} NothingIsLost<A>(events: seq<Event<A>>, states: seq<State<A>>, i: nat, j: nat)
    requires Schedule(events, states) && i <= j <= |events|
    ensures Extends(states[i].rows, states[j].rows)
    decreases j - i
  {
    if i < j {
      NothingIsLost(events, states, i, j - 1);
      NextExtends(states[j - 1], events[j - 1], states[j]);
    }
  }

  lemma NextExtends<A>(s: State<A>, e: Event<A>, s': State<A>)
    requires Next(s, e, s')
    ensures Extends(s.rows, s'.rows)
  {
  }

  /** The greatest version of the key, 0 when it has no row. */
  ghost function Top<A>(rows: seq<Row<A>>, p: string, k: string): nat {
    MaxVersion(rows, p, k).GetOr(0)
  }

  /** The versions of the key are 1..Top without a gap (a version may occur more than once). */
  ghost predicate NoGap<A>(rows: seq<Row<A>>, p: string, k: string) {
    && (forall i :: 0 <= i < |rows| && Mine(rows[i], p, k) ==> rows[i].version >= 1)
    && forall v: nat :: 1 <= v <= Top(rows, p, k) ==> HasVersion(rows, p, k, v)
  }

  /** Some row of the greatest version is open. */
  ghost predicate TopIsOpen<A>(rows: seq<Row<A>>, p: string, k: string) {
    TopStaysOpen(rows, p, k, {})
  }

  /** Some row of the greatest version is open, and not among those about to be closed. */
  ghost predicate TopStaysOpen<A>(rows: seq<Row<A>>, p: string, k: string, doomed: set<nat>) {
    Top(rows, p, k) > 0 ==>
      exists i: nat :: i < |rows| && IsVersion(rows, p, k, Top(rows, p, k), i) && Open(rows[i]) && i !in doomed
  }

  /** The rows that some repair or expiry is about to close. */
  ghost function Doomed<A>(s: State<A>): set<nat> {
    set w, i | w in s.closing && i in s.closing[w].rows :: i
  }

  /** A pending writer's reads may be stale, but never ahead of the store. */
  ghost predicate Behind<A>(rows: seq<Row<A>>, q: Pending<A>) {
    && q.maxv.GetOr(0) <= Top(rows, q.project, q.key)
    && (q.cur.Some? ==> q.cur.value < |rows| && Mine(rows[q.cur.value], q.project, q.key)
                        && rows[q.cur.value].version <= q.maxv.GetOr(0))
  }

  /** The row a writer has read as current stays a row of its key. */
  ghost predicate Known<A>(rows: seq<Row<A>>, h: Reading<A>) {
    h.cur.Some? ==> h.cur.value < |rows| && Mine(rows[h.cur.value], h.project, h.key)
  }

  /** What a repair or an expiry has selected stays rows of its key, none above the one it keeps. */
  ghost predicate ClosesOwn<A>(rows: seq<Row<A>>, c: Closing) {
    && (forall i :: i in c.rows ==> i < |rows| && Mine(rows[i], c.project, c.key))
    && (c.keep.Some? ==>
          && c.keep.value < |rows| && Mine(rows[c.keep.value], c.project, c.key)
          && c.keep.value !in c.rows && forall i :: i in c.rows ==> AtMost(rows[i], rows[c.keep.value]))
  }

  ghost predicate Safe<A>(s: State<A>) {
    && (forall p, k :: NoGap(s.rows, p, k))
    && (forall w :: w in s.reading ==> Known(s.rows, s.reading[w]))
    && (forall w :: w in s.pending ==> Behind(s.rows, s.pending[w]))
    && forall w :: w in s.closing ==> ClosesOwn(s.rows, s.closing[w])
  }

  // ----- how the greatest version moves -----

  lemma {:induction false} TopSkeleton<A>(s: seq<Row<A>>, s': seq<Row<A>>, p: string, k: string)
    requires |s| == |s'| && Extends(s, s')
    ensures MaxVersion(s, p, k) == MaxVersion(s', p, k)
  {
    if |s| > 0 {
      TopSkeleton(s[..|s| - 1], s'[..|s| - 1], p, k);
    }
  }

  lemma TopWritten<A>(s: seq<Row<A>>, q: Pending<A>, p: string, k: string)
    requires Behind(s, q)
    ensures Top(WrittenBy(s, q), p, k)
         == if p == q.project && k == q.key && q.maxv.GetOr(0) + 1 > Top(s, p, k) then q.maxv.GetOr(0) + 1
            else Top(s, p, k)
  {
    var closed := if q.cur.Some? then s[q.cur.value := Close(s[q.cur.value], q.at)] else s;
    TopSkeleton(s, closed, p, k);
    TopAppended(closed, Row(q.project, q.key, q.attrs, q.at, None, q.maxv.GetOr(0) + 1, q.source), p, k);
  }

  lemma TopAppended<A>(s: seq<Row<A>>, r: Row<A>, p: string, k: string)
    ensures Top(s + [r], p, k) == if Mine(r, p, k) && r.version > Top(s, p, k) then r.version else Top(s, p, k)
  {
    assert (s + [r])[..|s|] == s;
  }

  ghost function WrittenBy<A>(s: seq<Row<A>>, q: Pending<A>): seq<Row<A>>
    requires q.cur.Some? ==> q.cur.value < |s|
  {
    Written(s, q.cur, q.maxv, q.project, q.key, q.attrs, q.at, q.source)
  }

  // ----- each event keeps the store safe -----

  lemma ExtendsKeepsVersion<A>(s: seq<Row<A>>, s': seq<Row<A>>, p: string, k: string, v: nat)
    requires Extends(s, s') && HasVersion(s, p, k, v)
    ensures HasVersion(s', p, k, v)
  {
    var i: nat :| i < |s| && IsVersion(s, p, k, v, i);
    assert IsVersion(s', p, k, v, i);
  }

  lemma WriteNoGap<A>(s: seq<Row<A>>, q: Pending<A>, p: string, k: string)
    requires Behind(s, q) && NoGap(s, p, k)
    ensures NoGap(WrittenBy(s, q), p, k)
  {
    forall v: nat | 1 <= v <= Top(WrittenBy(s, q), p, k) ensures HasVersion(WrittenBy(s, q), p, k, v) {
      WriteHasVersion(s, q, p, k, v);
    }
  }

  lemma WriteHasVersion<A>(s: seq<Row<A>>, q: Pending<A>, p: string, k: string, v: nat)
    requires Behind(s, q) && NoGap(s, p, k) && 1 <= v <= Top(WrittenBy(s, q), p, k)
    ensures HasVersion(WrittenBy(s, q), p, k, v)
  {
    TopWritten(s, q, p, k);
    if v <= Top(s, p, k) {
      assert Extends(s, WrittenBy(s, q));
      assert HasVersion(s, p, k, v);
      ExtendsKeepsVersion(s, WrittenBy(s, q), p, k, v);
    } else {
      assert IsVersion(WrittenBy(s, q), p, k, v, |s|);
    }
  }

  /** A stale write closes only a row below the greatest version, or becomes the greatest itself. */
  lemma WriteTopIsOpen<A>(s: seq<Row<A>>, q: Pending<A>, p: string, k: string, doomed: set<nat>)
    requires Behind(s, q) && TopStaysOpen(s, p, k, doomed) && forall i :: i in doomed ==> i < |s|
    ensures TopStaysOpen(WrittenBy(s, q), p, k, doomed)
  {
    var s' := WrittenBy(s, q);
    TopWritten(s, q, p, k);
    var mine := p == q.project && k == q.key;
    if mine && q.maxv.GetOr(0) + 1 > Top(s, p, k) {
      assert IsVersion(s', p, k, Top(s', p, k), |s|);
    } else if Top(s, p, k) > 0 {
      var i: nat :| i < |s| && IsVersion(s, p, k, Top(s, p, k), i) && Open(s[i]) && i !in doomed;
      assert q.cur != Some(i);
      assert IsVersion(s', p, k, Top(s', p, k), i) && Open(s'[i]);
    }
  }

  lemma WriteKeepsBehind<A>(s: seq<Row<A>>, q: Pending<A>, other: Pending<A>)
    requires Behind(s, q) && Behind(s, other)
    ensures Behind(WrittenBy(s, q), other)
  {
    TopWritten(s, q, other.project, other.key);
    assert Extends(s, WrittenBy(s, q));
  }

  /** The second read is never older than the first. */
  lemma ReadIsBehind<A>(rows: seq<Row<A>>, h: Reading<A>)
    requires Known(rows, h)
    ensures Behind(rows, WithMax(rows, h))
  {
    MaxVersionIsMax(rows, h.project, h.key);
  }

  lemma RepairNoGap<A>(s: seq<Row<A>>, s': seq<Row<A>>, p: string, k: string)
    requires |s| == |s'| && Extends(s, s') && NoGap(s, p, k)
    ensures NoGap(s', p, k)
  {
    TopSkeleton(s, s', p, k);
    forall v: nat | 1 <= v <= Top(s', p, k)
      ensures HasVersion(s', p, k, v)
    {
      assert HasVersion(s, p, k, v);
      ExtendsKeepsVersion(s, s', p, k, v);
    }
  }

  lemma TopIsKept<A>(s: seq<Row<A>>, rp: string, rk: string, i: nat, keep: nat, p: string, k: string)
    requires i < |s| && IsVersion(s, p, k, Top(s, p, k), i) && OpenFor(s[i], rp, rk) && IsLatestOpen(s, rp, rk, keep)
    ensures IsVersion(s, p, k, Top(s, p, k), keep)
  {
    MaxVersionIsMax(s, p, k);
    assert s[keep].version >= s[i].version;
  }

  lemma NextKeepsSafe<A>(s: State<A>, e: Event<A>, s': State<A>)
    requires Safe(s) && Next(s, e, s')
    ensures Safe(s')
  {
    match e
    case ReadCurrent(w, p, k, attrs, at, source) =>
    case ReadMax(w) => ReadIsBehind(s.rows, s.reading[w]);
    case Write(w) => WriteKeepsSafe(s, w, s');
    case SelectRepair(_, _, _, _) =>
    case SelectExpiry(_, _, _, _) =>
    case Assign(_) => ClosingKeepsSafe(s, s');
    case ExpireRow(_, _, _, _) => ClosingKeepsSafe(s, s');
  }

  lemma WriteKeepsSafe<A>(s: State<A>, w: nat, s': State<A>)
    requires Safe(s) && Next(s, Write(w), s')
    ensures Safe(s')
  {
    var q := s.pending[w];
    forall p, k ensures NoGap(s'.rows, p, k) {
      assert NoGap(s.rows, p, k);
      WriteNoGap(s.rows, q, p, k);
    }
    assert Extends(s.rows, s'.rows);
    OwnersStay(s, s');
    forall v | v in s'.pending ensures Behind(s'.rows, s'.pending[v]) {
      WriteKeepsBehind(s.rows, q, s.pending[v]);
    }
  }

  lemma OwnersStay<A>(s: State<A>, s': State<A>)
    requires Safe(s) && Extends(s.rows, s'.rows) && s'.reading == s.reading && s'.closing.Items <= s.closing.Items
    ensures forall w :: w in s'.reading ==> Known(s'.rows, s'.reading[w])
    ensures forall w :: w in s'.closing ==> ClosesOwn(s'.rows, s'.closing[w])
  {
    forall v | v in s'.reading ensures Known(s'.rows, s'.reading[v]) {
      assert Known(s.rows, s.reading[v]);
    }
    forall v | v in s'.closing ensures ClosesOwn(s'.rows, s'.closing[v]) {
      assert (v, s'.closing[v]) in s'.closing.Items;
      assert ClosesOwn(s.rows, s.closing[v]);
    }
  }

  lemma ClosingKeepsSafe<A>(s: State<A>, s': State<A>)
    requires Safe(s) && SameWriters(s, s') && |s.rows| == |s'.rows| && Extends(s.rows, s'.rows)
    requires s'.closing.Items <= s.closing.Items
    ensures Safe(s')
  {
    forall p, k ensures NoGap(s'.rows, p, k) {
      assert NoGap(s.rows, p, k);
      RepairNoGap(s.rows, s'.rows, p, k);
    }
    OwnersStay(s, s');
    forall v | v in s'.pending ensures Behind(s'.rows, s'.pending[v]) {
      TopSkeleton(s.rows, s'.rows, s.pending[v].project, s.pending[v].key);
    }
  }

  /** Under every schedule of reads, writes, repairs and expiries, a key's versions have no gap,
    * and what pending writers have read is never ahead of the store. */
  lemma {:induction false} ScheduleSafe<A>(events: seq<Event<A>>, states: seq<State<A>>, n: nat)
    requires Schedule(events, states) && n <= |events|
    ensures Safe(states[n])
  {
    if n > 0 {
      ScheduleSafe(events, states, n - 1);
      NextKeepsSafe(states[n - 1], events[n - 1], states[n]);
    }
  }

  /** The event expires the key, or a row of it. */
  predicate Expires<A>(e: Event<A>, p: string, k: string) {
    (e.SelectExpiry? || e.ExpireRow?) && e.project == p && e.key == k
  }

  /** None of the first n events expires the key or a row of it. */
  ghost predicate NeverExpired<A>(events: seq<Event<A>>, n: nat, p: string, k: string) {
    forall i :: 0 <= i < n && i < |events| ==> !Expires(events[i], p, k)
  }

  predicate Repairs<A>(e: Event<A>, p: string, k: string) {
    e.SelectRepair? && e.project == p && e.key == k
  }

  /** The row that the repair has decided to keep is not one that is about to be closed. */
  ghost predicate KeepsFree<A>(s: State<A>, e: Event<A>, s': State<A>) {
    e.SelectRepair? && e.writer in s'.closing && s'.closing[e.writer].keep.Some? ==>
      s'.closing[e.writer].keep.value !in Doomed(s)
  }

  /** This holds of the first n events on the key; in particular where its repairs do not overlap. */
  ghost predicate NoCrossing<A>(events: seq<Event<A>>, states: seq<State<A>>, n: nat, p: string, k: string) {
    forall i :: 0 <= i < n && i < |events| && i + 1 < |states| && Repairs(events[i], p, k) ==>
      KeepsFree(states[i], events[i], states[i + 1])
  }

  lemma NextKeepsTopOpen<A>(s: State<A>, e: Event<A>, s': State<A>, p: string, k: string)
    requires Safe(s) && Next(s, e, s') && TopStaysOpen(s.rows, p, k, Doomed(s)) && !Expires(e, p, k)
    requires Repairs(e, p, k) ==> KeepsFree(s, e, s')
    ensures TopStaysOpen(s'.rows, p, k, Doomed(s'))
  {
    match e
    case ReadCurrent(_, _, _, _, _, _) => assert Doomed(s') == Doomed(s);
    case ReadMax(_) => assert Doomed(s') == Doomed(s);
    case Write(w) =>
      assert Doomed(s') == Doomed(s);
      WriteTopIsOpen(s.rows, s.pending[w], p, k, Doomed(s));
    case SelectRepair(w, _, _, _) => SelectTopIsOpen(s, w, s', p, k);
    case SelectExpiry(w, _, _, _) => SelectTopIsOpen(s, w, s', p, k);
    case Assign(_) => ClosingTopIsOpen(s, s', p, k);
    case ExpireRow(_, _, _, _) => ClosingTopIsOpen(s, s', p, k);
  }

  /** A selection takes the rows of another key, or keeps a row of the greatest version. */
  lemma SelectTopIsOpen<A>(s: State<A>, w: nat, s': State<A>, p: string, k: string)
    requires TopStaysOpen(s.rows, p, k, Doomed(s)) && s'.rows == s.rows
    requires w !in s.closing && s'.closing.Keys == s.closing.Keys + {w} && s.closing.Items <= s'.closing.Items
    requires var c := s'.closing[w];
             && c.rows == OpenRows(s.rows, c.project, c.key) - Just(c.keep)
             && (c.project == p && c.key == k ==>
                   && IsKept(s.rows, p, k, c.keep) && (c.keep.Some? ==> c.keep.value !in Doomed(s)))
    ensures TopStaysOpen(s'.rows, p, k, Doomed(s'))
  {
    var c := s'.closing[w];
    assert Doomed(s') == Doomed(s) + c.rows by { DoomedGrows(s, w, s'); }
    if Top(s.rows, p, k) > 0 {
      var i: nat :| i < |s.rows| && IsVersion(s.rows, p, k, Top(s.rows, p, k), i) && Open(s.rows[i]) && i !in Doomed(s);
      if c.project == p && c.key == k {
        assert i in OpenRows(s.rows, p, k);
        TopIsKept(s.rows, p, k, i, c.keep.value, p, k);
      } else {
        assert i !in c.rows;
      }
    }
  }

  lemma DoomedGrows<A>(s: State<A>, w: nat, s': State<A>)
    requires w !in s.closing && s'.closing.Keys == s.closing.Keys + {w} && s.closing.Items <= s'.closing.Items
    ensures Doomed(s') == Doomed(s) + s'.closing[w].rows
  {
    forall v | v in s.closing ensures s'.closing[v] == s.closing[v] {
      assert (v, s.closing[v]) in s.closing.Items;
    }
  }

  /** Closing doomed rows, or rows of other keys, leaves the one that stays open. */
  lemma ClosingTopIsOpen<A>(s: State<A>, s': State<A>, p: string, k: string)
    requires TopStaysOpen(s.rows, p, k, Doomed(s)) && |s.rows| == |s'.rows| && Extends(s.rows, s'.rows)
    requires forall i: nat :: i < |s.rows| && Mine(s.rows[i], p, k) && i !in Doomed(s) ==> s'.rows[i] == s.rows[i]
    requires s'.closing.Items <= s.closing.Items
    ensures TopStaysOpen(s'.rows, p, k, Doomed(s'))
  {
    TopSkeleton(s.rows, s'.rows, p, k);
    forall v | v in s'.closing ensures v in s.closing && s'.closing[v] == s.closing[v] {
      assert (v, s'.closing[v]) in s'.closing.Items;
    }
    if Top(s.rows, p, k) > 0 {
      var i: nat :| i < |s.rows| && IsVersion(s.rows, p, k, Top(s.rows, p, k), i) && Open(s.rows[i]) && i !in Doomed(s);
      assert IsVersion(s'.rows, p, k, Top(s'.rows, p, k), i) && i !in Doomed(s');
    }
  }

  /** Unless the key is expired, or two repairs of it cross, some row of its greatest version is
    * open throughout: no stale write and no repair loses it. */
  lemma {:induction false} ScheduleTopOpen<A>(events: seq<Event<A>>, states: seq<State<A>>, n: nat, p: string,
                                              k: string)
    requires Schedule(events, states) && n <= |events| && NeverExpired(events, n, p, k)
    requires NoCrossing(events, states, n, p, k)
    ensures TopStaysOpen(states[n].rows, p, k, Doomed(states[n])) && TopIsOpen(states[n].rows, p, k)
  {
    if n > 0 {
      ScheduleTopOpen(events, states, n - 1, p, k);
      ScheduleSafe(events, states, n - 1);
      NextKeepsTopOpen(states[n - 1], events[n - 1], states[n], p, k);
    }
  }

  /** Exactly one row of the key is open, and it carries the greatest version. */
  ghost predicate Restored<A>(rows: seq<Row<A>>, p: string, k: string) {
    && OpenCount(rows, p, k) == 1
    && forall i :: 0 <= i < |rows| && OpenFor(rows[i], p, k) ==> rows[i].version == Top(rows, p, k)
  }

  /** A selection with its own assignments right behind it is the atomic repair. */
  lemma UninterruptedIsRepair<A>(s: State<A>, e: Event<A>, s1: State<A>, s2: State<A>)
    requires e.SelectRepair? && Next(s, e, s1) && Next(s1, Assign(e.writer), s2)
    ensures Resolved(s.rows, e.project, e.key, e.at, s2.rows)
    ensures SameWriters(s, s2) && s2.closing == s.closing
  {
    var p, k := e.project, e.key;
    var c := s1.closing[e.writer];
    assert s2.closing == s.closing;
    if c.keep.None? {
      assert s2.rows == s.rows;
      NoneOpen(s.rows, p, k);
      forall i: nat | i < |s.rows| ensures !OpenFor(s.rows[i], p, k) {
        assert i !in OpenRows(s.rows, p, k);
      }
    } else {
      assert s2.rows == CloseAllBut(s.rows, p, k, c.keep, e.at);
    }
  }

  lemma UninterruptedIsExpiry<A>(s: State<A>, e: Event<A>, s1: State<A>, s2: State<A>)
    requires e.SelectExpiry? && Next(s, e, s1) && Next(s1, Assign(e.writer), s2)
    ensures s2.rows == CloseAllBut(s.rows, e.project, e.key, None, e.at)
    ensures SameWriters(s, s2) && s2.closing == s.closing
  {
    assert s2.closing == s.closing;
  }

  /** A repair leaves a key that was ever written with one open row of the greatest version if and
    * only if such a row was open before it. */
  lemma RepairRestoresIff<A>(events: seq<Event<A>>, states: seq<State<A>>, n: nat)
    requires Schedule(events, states) && n + 1 < |events|
    requires events[n].SelectRepair? && events[n + 1] == Assign(events[n].writer)
    ensures var p, k := events[n].project, events[n].key;
            MaxVersion(states[n].rows, p, k).Some? ==>
              (Restored(states[n + 2].rows, p, k) <==> TopIsOpen(states[n].rows, p, k))
  {
    var s, rows, p, k := states[n].rows, states[n + 2].rows, events[n].project, events[n].key;
    assert Next(states[n], events[n], states[n + 1]) && Next(states[n + 1], events[n + 1], states[n + 2]);
    UninterruptedIsRepair(states[n], events[n], states[n + 1], states[n + 2]);
    ScheduleSafe(events, states, n);
    TopSkeleton(s, rows, p, k);
    if MaxVersion(s, p, k).Some? {
      assert NoGap(s, p, k);
      MaxVersionIsMax(s, p, k);
      if TopIsOpen(s, p, k) { OpenTopIsRestored(s, p, k, events[n].at, rows); }
      if Restored(rows, p, k) { RestoredWasOpen(s, p, k, events[n].at, rows); }
    }
  }

  lemma OpenTopIsRestored<A>(s: seq<Row<A>>, p: string, k: string, at: int, s': seq<Row<A>>)
    requires Resolved(s, p, k, at, s') && TopIsOpen(s, p, k) && Top(s, p, k) > 0
    ensures Restored(s', p, k)
  {
    TopSkeleton(s, s', p, k);
    ResolveKeepsLatest(s, p, k, at, s');
    NoneOpen(s, p, k);
    NoneOpen(s', p, k);
    AtMostOneOpen(s', p, k);
    var i: nat :| i < |s| && IsVersion(s, p, k, Top(s, p, k), i) && Open(s[i]);
    assert OpenFor(s[i], p, k);
    forall j: nat | j < |s'| && OpenFor(s'[j], p, k) ensures s'[j].version == Top(s', p, k) {
      TopIsKept(s, p, k, i, j, p, k);
    }
  }

  lemma RestoredWasOpen<A>(s: seq<Row<A>>, p: string, k: string, at: int, s': seq<Row<A>>)
    requires Resolved(s, p, k, at, s') && Restored(s', p, k)
    ensures TopIsOpen(s, p, k)
  {
    TopSkeleton(s, s', p, k);
    NoneOpen(s', p, k);
    var i: nat :| i < |s'| && OpenFor(s'[i], p, k);
    ResolveKeepsLatest(s, p, k, at, s');
    assert IsVersion(s, p, k, Top(s, p, k), i) && Open(s[i]);
  }

  /** So a repair is complete for every key that was never expired and whose repairs did not cross. */
  lemma RepairRestores<A>(events: seq<Event<A>>, states: seq<State<A>>, n: nat)
    requires Schedule(events, states) && n + 1 < |events|
    requires events[n].SelectRepair? && events[n + 1] == Assign(events[n].writer)
    requires NeverExpired(events, n, events[n].project, events[n].key)
    requires NoCrossing(events, states, n, events[n].project, events[n].key)
    ensures var p, k := events[n].project, events[n].key;
            MaxVersion(states[n].rows, p, k).Some? ==> Restored(states[n + 2].rows, p, k)
  {
    ScheduleTopOpen(events, states, n, events[n].project, events[n].key);
    RepairRestoresIff(events, states, n);
  }

  /** Two reads with their own write right behind them are the atomic `supersede`. */
  lemma UninterruptedIsSupersede<A>(s: State<A>, r: Event<A>, s1: State<A>, s2: State<A>, s3: State<A>)
    requires r.ReadCurrent? && Next(s, r, s1) && Next(s1, ReadMax(r.writer), s2) && Next(s2, Write(r.writer), s3)
    ensures Superseded(s.rows, r.project, r.key, r.attrs, r.at, r.source, s3.rows)
    ensures SameWriters(s, s3) && s3.closing == s.closing
  {
    assert s3.reading == s.reading && s3.pending == s.pending;
  }

  /** The conflict is real: two writers that both read before either writes leave two open rows
    * with the same version. */
  lemma TwoWritersConflict(events: seq<Event<int>>, at: int, at': int) returns (states: seq<State<int>>)
    requires events == TwoWriters(at, at')
    ensures Schedule(events, states)
    ensures states[6] == State([Row("p", "k", 0, at, None, 1, "a"), Row("p", "k", 0, at', None, 1, "b")],
                               map[], map[], map[])
  {
    var q1, q2 := Pending("p", "k", None, None, 0, at, "a"), Pending("p", "k", None, None, 0, at', "b");
    var s1, s2, s3, s4 := BothRead(q1, q2);
    var a, b := Row("p", "k", 0, at, None, 1, "a"), Row("p", "k", 0, at', None, 1, "b");
    var s5, s6 := State([a], map[], map[2 := q2], map[]), State([a, b], map[], map[], map[]);
    assert Next(s4, events[4], s5) && Next(s5, events[5], s6);
    states := [Empty(), s1, s2, s3, s4, s5, s6];
  }

  function TwoWriters(at: int, at': int): seq<Event<int>> {
    [ReadCurrent(1, "p", "k", 0, at, "a"), ReadCurrent(2, "p", "k", 0, at', "b"),
     ReadMax(1), ReadMax(2), Write(1), Write(2)]
  }

  /** Two writers read from the empty store. */
  lemma BothRead(q1: Pending<int>, q2: Pending<int>)
    returns (s1: State<int>, s2: State<int>, s3: State<int>, s4: State<int>)
    requires q1.cur == None && q1.maxv == None && q2.cur == None && q2.maxv == None
    ensures Next(Empty(), ReadCurrent(1, q1.project, q1.key, q1.attrs, q1.at, q1.source), s1)
    ensures Next(s1, ReadCurrent(2, q2.project, q2.key, q2.attrs, q2.at, q2.source), s2)
    ensures Next(s2, ReadMax(1), s3) && Next(s3, ReadMax(2), s4)
    ensures s4 == State([], map[], map[1 := q1, 2 := q2], map[])
  {
    var h1 := Reading(q1.project, q1.key, None, q1.attrs, q1.at, q1.source);
    var h2 := Reading(q2.project, q2.key, None, q2.attrs, q2.at, q2.source);
    var none: seq<Row<int>> := [];
    assert IsCurrent(none, q1.project, q1.key, None) && IsCurrent(none, q2.project, q2.key, None);
    s1, s2 := State([], map[1 := h1], map[], map[]), State([], map[1 := h1, 2 := h2], map[], map[]);
    s3, s4 := State([], map[2 := h2], map[1 := q1], map[]), State([], map[], map[1 := q1, 2 := q2], map[]);
    assert WithMax([], h1) == q1 && WithMax([], h2) == q2;
  }

  // ----- repairs that cross -----

  /** No two rows of the key have the same version and start. */
  ghost predicate NoTies<A>(rows: seq<Row<A>>, p: string, k: string) {
    forall i, j :: 0 <= i < j < |rows| && Mine(rows[i], p, k) && Mine(rows[j], p, k) ==>
      !(AtMost(rows[i], rows[j]) && AtMost(rows[j], rows[i]))
  }

  /** Every pending repair of the key that closes anything is outdone by a row that stays open: the
    * one it keeps, or a greater one. */
  ghost predicate Outdone<A>(s: State<A>, p: string, k: string) {
    forall w :: w in s.closing && s.closing[w].project == p && s.closing[w].key == k && s.closing[w].rows != {} ==>
      s.closing[w].keep.Some? && StaysAbove(s, p, k, s.closing[w].keep.value)
  }

  ghost predicate StaysAbove<A>(s: State<A>, p: string, k: string, i: nat) {
    i < |s.rows| && exists j: nat ::
      j < |s.rows| && OpenFor(s.rows[j], p, k) && j !in Doomed(s) && AtMost(s.rows[i], s.rows[j])
  }

  /** A repair only keeps a row that another one is about to close where rows tie. */
  lemma CrossingIsTie<A>(s: State<A>, e: Event<A>, s': State<A>, p: string, k: string)
    requires Safe(s) && Outdone(s, p, k) && Repairs(e, p, k) && Next(s, e, s')
    ensures !KeepsFree(s, e, s') ==> !NoTies(s.rows, p, k)
  {
    if !KeepsFree(s, e, s') {
      var b := s'.closing[e.writer].keep.value;
      var v :| v in s.closing && b in s.closing[v].rows;
      KeptTies(s, p, k, v, b);
    }
  }

  lemma KeptTies<A>(s: State<A>, p: string, k: string, v: nat, b: nat)
    requires v in s.closing && b in s.closing[v].rows && IsLatestOpen(s.rows, p, k, b)
    requires ClosesOwn(s.rows, s.closing[v]) && Outdone(s, p, k)
    ensures !NoTies(s.rows, p, k)
  {
    var a := s.closing[v].keep.value;
    var j: nat :| j < |s.rows| && OpenFor(s.rows[j], p, k) && j !in Doomed(s) && AtMost(s.rows[a], s.rows[j]);
    assert AtMost(s.rows[j], s.rows[b]) && AtMost(s.rows[b], s.rows[a]);
    assert a < b || b < a;
  }

  lemma NextKeepsOutdone<A>(s: State<A>, e: Event<A>, s': State<A>, p: string, k: string)
    requires Safe(s) && Next(s, e, s') && Outdone(s, p, k) && !Expires(e, p, k)
    requires Repairs(e, p, k) ==> KeepsFree(s, e, s')
    ensures Outdone(s', p, k)
  {
    NextKeepsSafe(s, e, s');
    forall w | w in s'.closing && s'.closing[w].project == p && s'.closing[w].key == k && s'.closing[w].rows != {}
      ensures s'.closing[w].keep.Some? && StaysAbove(s', p, k, s'.closing[w].keep.value)
    {
      assert ClosesOwn(s'.rows, s'.closing[w]);
      if Repairs(e, p, k) {
        RepairOutdoes(s, e, s', w);
      } else {
        assert w in s.closing && s'.closing[w] == s.closing[w];
        var i := s.closing[w].keep.value;
        var j: nat :| j < |s.rows| && OpenFor(s.rows[j], p, k) && j !in Doomed(s) && AtMost(s.rows[i], s.rows[j]);
        AboveStays(s, e, s', p, k, i, j);
      }
    }
  }

  /** The row that a repair keeps is at least any open one, hence any that another repair keeps. */
  lemma RepairOutdoes<A>(s: State<A>, e: Event<A>, s': State<A>, w: nat)
    requires e.SelectRepair? && Next(s, e, s') && KeepsFree(s, e, s') && Outdone(s, e.project, e.key)
    requires w in s'.closing && s'.closing[w].project == e.project && s'.closing[w].key == e.key
    requires s'.closing[w].rows != {}
    ensures s'.closing[w].keep.Some? && StaysAbove(s', e.project, e.key, s'.closing[w].keep.value)
  {
    var p, k := e.project, e.key;
    DoomedGrows(s, e.writer, s');
    var c := s'.closing[e.writer];
    if w != e.writer {
      assert s'.closing[w] == s.closing[w];
      var i := s.closing[w].keep.value;
      var j: nat :| j < |s.rows| && OpenFor(s.rows[j], p, k) && j !in Doomed(s) && AtMost(s.rows[i], s.rows[j]);
      assert j in OpenRows(s.rows, p, k);
      assert AtMost(s.rows[i], s.rows[c.keep.value]);
    }
    assert c.keep.value !in Doomed(s');
  }

  /** An open row that is not doomed stays so, or a greater one is appended. */
  lemma AboveStays<A>(s: State<A>, e: Event<A>, s': State<A>, p: string, k: string, i: nat, j: nat)
    requires Safe(s) && Next(s, e, s') && !Expires(e, p, k) && !Repairs(e, p, k)
    requires i < |s.rows| && j < |s.rows| && OpenFor(s.rows[j], p, k) && j !in Doomed(s) && AtMost(s.rows[i], s.rows[j])
    ensures StaysAbove(s', p, k, i)
  {
    match e
    case Write(w) =>
      assert Doomed(s') == Doomed(s);
      if s.pending[w].cur == Some(j) {
        assert Behind(s.rows, s.pending[w]);
        assert OpenFor(s'.rows[|s.rows|], p, k) && |s.rows| !in Doomed(s) by { DoomedInside(s); }
        assert AtMost(s'.rows[i], s'.rows[|s.rows|]);
      } else {
        assert s'.rows[j] == s.rows[j] && AtMost(s'.rows[i], s'.rows[j]);
      }
    case ReadCurrent(_, _, _, _, _, _) => assert Doomed(s') == Doomed(s);
    case ReadMax(_) => assert Doomed(s') == Doomed(s);
    case SelectRepair(w, _, _, _) => DoomedGrows(s, w, s');
    case SelectExpiry(w, _, _, _) => DoomedGrows(s, w, s');
    case Assign(_) => assert s'.rows[j] == s.rows[j] && AtMost(s'.rows[i], s'.rows[j]) && j !in Doomed(s');
    case ExpireRow(_, _, _, _) => assert s'.rows[j] == s.rows[j] && AtMost(s'.rows[i], s'.rows[j]) && j !in Doomed(s');
  }

  lemma DoomedInside<A>(s: State<A>)
    requires Safe(s)
    ensures forall i :: i in Doomed(s) ==> i < |s.rows|
  {
    forall i | i in Doomed(s) ensures i < |s.rows| {
      var w :| w in s.closing && i in s.closing[w].rows;
      assert ClosesOwn(s.rows, s.closing[w]);
    }
  }

  /** So repairs of a key can only cross where two of its rows have the same version and start. */
  lemma {:induction false} UntiedNoCrossing<A>(events: seq<Event<A>>, states: seq<State<A>>, n: nat, p: string,
                                               k: string)
    requires Schedule(events, states) && n <= |events| && NeverExpired(events, n, p, k)
    requires NoTies(states[n].rows, p, k)
    ensures NoCrossing(events, states, n, p, k) && Outdone(states[n], p, k)
  {
    if n > 0 {
      var s, e, s' := states[n - 1], events[n - 1], states[n];
      NextExtends(s, e, s');
      UntiedBefore(s.rows, s'.rows, p, k);
      UntiedNoCrossing(events, states, n - 1, p, k);
      ScheduleSafe(events, states, n - 1);
      if Repairs(e, p, k) { CrossingIsTie(s, e, s', p, k); }
      NextKeepsOutdone(s, e, s', p, k);
    }
  }

  lemma UntiedBefore<A>(s: seq<Row<A>>, s': seq<Row<A>>, p: string, k: string)
    requires Extends(s, s') && NoTies(s', p, k)
    ensures NoTies(s, p, k)
  {
    forall i, j | 0 <= i < j < |s| && Mine(s[i], p, k) && Mine(s[j], p, k)
      ensures !(AtMost(s[i], s[j]) && AtMost(s[j], s[i]))
    {
      assert Mine(s'[i], p, k) && Mine(s'[j], p, k);
    }
  }

  /** Of two repairs of a key, the second selects while the first is pending, and both then assign,
    * in either order: a row of the greatest version stays open exactly when the second did not keep
    * a row that the first closes. */
  lemma CrossingIff<A>(s: State<A>, v: nat, e: Event<A>, s1: State<A>, first: nat, s2: State<A>, second: nat,
                       s3: State<A>)
    requires Safe(s) && v in s.closing && e.SelectRepair? && TopIsOpen(s.rows, e.project, e.key)
    requires Top(s.rows, e.project, e.key) > 0 && Next(s, e, s1)
    requires (first, second) == (v, e.writer) || (first, second) == (e.writer, v)
    requires Next(s1, Assign(first), s2) && Next(s2, Assign(second), s3)
    ensures s1.closing[e.writer].keep.Some?
    ensures TopIsOpen(s3.rows, e.project, e.key) <==> s1.closing[e.writer].keep.value !in s.closing[v].rows
  {
    var p, k := e.project, e.key;
    var c := s1.closing[e.writer];
    KeptIsTop(s, e, s1);
    BothAssigned(s1, first, s2, second, s3);
    CrossedRows(s.rows, p, k, c.keep.value, s.closing[v].rows, c.rows, s3.rows);
  }

  lemma KeptIsTop<A>(s: State<A>, e: Event<A>, s': State<A>)
    requires e.SelectRepair? && Next(s, e, s') && TopIsOpen(s.rows, e.project, e.key)
    requires Top(s.rows, e.project, e.key) > 0
    ensures var keep, p, k := s'.closing[e.writer].keep, e.project, e.key;
            keep.Some? && keep.value < |s.rows| && Open(s.rows[keep.value])
              && IsVersion(s.rows, p, k, Top(s.rows, p, k), keep.value)
  {
    var p, k := e.project, e.key;
    var i: nat :| i < |s.rows| && IsVersion(s.rows, p, k, Top(s.rows, p, k), i) && Open(s.rows[i]);
    assert i in OpenRows(s.rows, p, k);
    TopIsKept(s.rows, p, k, i, s'.closing[e.writer].keep.value, p, k);
  }

  lemma BothAssigned<A>(s: State<A>, v: nat, s1: State<A>, w: nat, s2: State<A>)
    requires v != w && Next(s, Assign(v), s1) && Next(s1, Assign(w), s2)
    ensures v in s.closing && w in s.closing && |s2.rows| == |s.rows| && Extends(s.rows, s2.rows)
    ensures forall i: nat :: i < |s.rows| ==>
              (Open(s2.rows[i]) <==> Open(s.rows[i]) && i !in s.closing[v].rows && i !in s.closing[w].rows)
  {
  }

  /** The same of the rows: those in a and b are closed. */
  lemma CrossedRows<A>(s: seq<Row<A>>, p: string, k: string, keep: nat, a: set<nat>, b: set<nat>, s': seq<Row<A>>)
    requires |s'| == |s| && Extends(s, s') && Top(s, p, k) > 0
    requires keep < |s| && IsVersion(s, p, k, Top(s, p, k), keep) && Open(s[keep]) && b == OpenRows(s, p, k) - {keep}
    requires forall i: nat :: i < |s| ==> (Open(s'[i]) <==> Open(s[i]) && i !in a && i !in b)
    ensures TopIsOpen(s', p, k) <==> keep !in a
  {
    TopSkeleton(s, s', p, k);
    if keep !in a {
      assert IsVersion(s', p, k, Top(s', p, k), keep) && Open(s'[keep]);
    } else {
      forall j: nat | j < |s'| && Mine(s'[j], p, k) ensures !Open(s'[j]) {
        assert j in OpenRows(s, p, k) ==> j in b || j == keep;
      }
    }
  }

  /** And it happens: two repairs of two rows that tie close both. */
  lemma TwoRepairsLose(events: seq<Event<int>>) returns (states: seq<State<int>>)
    requires events == TwoWriters(5, 5) + [SelectRepair(1, "p", "k", 7), SelectRepair(2, "p", "k", 8),
                                           Assign(1), Assign(2)]
    ensures Schedule(events, states)
    ensures forall i :: 0 <= i < |states[10].rows| ==> !OpenFor(states[10].rows[i], "p", "k")
    ensures MaxVersion(states[10].rows, "p", "k") == Some(1)
  {
    states := TwoWritersConflict(events[..6], 5, 5);
    var a, b := Row("p", "k", 0, 5, None, 1, "a"), Row("p", "k", 0, 5, None, 1, "b");
    var s7, s8, s9, s10 := CrossedRepairs(states[6], a, b);
    var after := [states[6], s7, s8, s9, s10];
    ScheduleThen(events[..6], states, events[6..], after);
    assert events == events[..6] + events[6..];
    states := states + after[1..];
    MaxVersionIsMax(s10.rows, "p", "k");
  }

  lemma ScheduleThen<A>(events: seq<Event<A>>, states: seq<State<A>>, more: seq<Event<A>>, after: seq<State<A>>)
    requires Schedule(events, states) && |after| == |more| + 1 && after[0] == states[|events|]
    requires forall i :: 0 <= i < |more| ==> Next(after[i], more[i], after[i + 1])
    ensures Schedule(events + more, states + after[1..])
  {
    var all := states + after[1..];
    forall i | 0 <= i < |events + more| ensures Next(all[i], (events + more)[i], all[i + 1]) {
      if i < |events| {
        assert Next(states[i], events[i], states[i + 1]);
      } else {
        var d := i - |events|;
        assert all[i] == after[d] && all[i + 1] == after[d + 1];
      }
    }
  }

  /** Each repair keeps the row that the other one closes. */
  lemma CrossedRepairs(s: State<int>, a: Row<int>, b: Row<int>)
    returns (s1: State<int>, s2: State<int>, s3: State<int>, s4: State<int>)
    requires OpenFor(a, "p", "k") && OpenFor(b, "p", "k") && AtMost(a, b) && AtMost(b, a)
    requires s == State([a, b], map[], map[], map[])
    ensures Next(s, SelectRepair(1, "p", "k", 7), s1) && Next(s1, SelectRepair(2, "p", "k", 8), s2)
    ensures Next(s2, Assign(1), s3) && Next(s3, Assign(2), s4) && s4.rows == [Close(a, 8), Close(b, 7)]
  {
    var keepA, keepB := Closing("p", "k", {1}, Some(0), 7), Closing("p", "k", {0}, Some(1), 8);
    TwoTie([a, b]);
    s1, s2 := s.(closing := map[1 := keepA]), s.(closing := map[1 := keepA, 2 := keepB]);
    s3 := State([a, Close(b, 7)], map[], map[], map[2 := keepB]);
    s4 := State([Close(a, 8), Close(b, 7)], map[], map[], map[]);
  }

  lemma TwoTie(rows: seq<Row<int>>)
    requires |rows| == 2 && OpenFor(rows[0], "p", "k") && OpenFor(rows[1], "p", "k")
    requires AtMost(rows[0], rows[1]) && AtMost(rows[1], rows[0])
    ensures IsKept(rows, "p", "k", Some(0)) && OpenRows(rows, "p", "k") - Just(Some(0)) == {1}
    ensures IsKept(rows, "p", "k", Some(1)) && OpenRows(rows, "p", "k") - Just(Some(1)) == {0}
  {
    assert forall i: nat :: i in OpenRows(rows, "p", "k") <==> i == 0 || i == 1;
  }
}
