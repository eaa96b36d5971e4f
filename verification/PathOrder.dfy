/** In which order `find_paths` returns its paths and `neighbors` its pairs (core/adapters/graph_repo.py). */
module PathOrder {
  import opened Wrappers
  import opened PathSearch

  /** One relation comes before another one in the table. */
  ghost predicate Before(rels: seq<Rel>, r: Rel, s: Rel) {
    exists a, b :: 0 <= a < b < |rels| && rels[a] == r && rels[b] == s
  }

  /** Where the two paths part, p goes on with the relation that comes first. */
  ghost predicate LexBefore(rels: seq<Rel>, p: Path, q: Path) {
    exists h :: PartsAt(rels, p, q, h)
  }

  ghost predicate PartsAt(rels: seq<Rel>, p: Path, q: Path, h: int) {
    0 <= h < |p| && h < |q| && p[..h] == q[..h] && Before(rels, p[h], q[h])
  }

  ghost predicate LexSorted(rels: seq<Rel>, ps: seq<Path>) {
    forall i, j :: 0 <= i < j < |ps| ==> LexBefore(rels, ps[i], ps[j])
  }

  lemma BeforeLater(rels: seq<Rel>, n: nat, r: Rel, s: Rel)
    requires n <= |rels| && Before(rels[..n], r, s)
    ensures Before(rels, r, s)
  {
    var a, b :| 0 <= a < b < n && rels[..n][a] == r && rels[..n][b] == s;
    assert rels[a] == r && rels[b] == s;
  }

  lemma {:induction false} OutOfOrdered(rels: seq<Rel>, node: string, i: nat, j: nat)
    requires i < j < |OutOf(rels, node)|
    ensures Before(rels, OutOf(rels, node)[i], OutOf(rels, node)[j])
  {
    var n := |rels| - 1;
    var out := OutOf(rels[..n], node);
    if j < |out| {
      OutOfOrdered(rels[..n], node, i, j);
      BeforeLater(rels, n, out[i], out[j]);
    } else {
      OutOfAt(rels[..n], node, out[i]);
      var a :| 0 <= a < n && rels[..n][a] == out[i];
      assert rels[a] == out[i] && rels[n] == OutOf(rels, node)[j];
    }
  }

  lemma {:induction false} ExtensionsOrdered(rels: seq<Rel>, start: string, p: Path, out: seq<Rel>)
    requires forall i, j :: 0 <= i < j < |out| ==> Before(rels, out[i], out[j])
    ensures LexSorted(rels, Extensions(start, p, out))
  {
    if |out| > 0 {
      var n := |out| - 1;
      ExtensionsOrdered(rels, start, p, out[..n]);
      var qs := Extensions(start, p, out[..n]);
      forall i | 0 <= i < |qs| ensures LexBefore(rels, qs[i], p + [out[n]]) {
        SiblingBefore(rels, start, p, out, qs[i]);
      }
      ConcatSorted(rels, qs, [p + [out[n]]]);
      assert qs + [] == qs;
    }
  }

  lemma SiblingBefore(rels: seq<Rel>, start: string, p: Path, out: seq<Rel>, q: Path)
    requires |out| > 0 && forall i, j :: 0 <= i < j < |out| ==> Before(rels, out[i], out[j])
    requires q in Extensions(start, p, out[..|out| - 1])
    ensures LexBefore(rels, q, p + [out[|out| - 1]])
  {
    var n := |out| - 1;
    ExtensionsAt(start, p, out[..n], q);
    var a :| 0 <= a < n && out[..n][a] == q[|p|];
    assert Before(rels, out[a], out[n]);
    assert PartsAt(rels, q, p + [out[n]], |p|);
  }

  /** Extending sorted paths of one length, in order, gives sorted paths. */
  lemma {:induction false} ExtendAllOrdered(rels: seq<Rel>, start: string, ps: seq<Path>)
    requires LexSorted(rels, ps)
    ensures LexSorted(rels, ExtendAll(rels, start, ps))
  {
    if |ps| > 0 {
      var n := |ps| - 1;
      ExtendAllOrdered(rels, start, ps[..n]);
      OutOfSorted(rels, start, ps[n]);
      var xs, ys := ExtendAll(rels, start, ps[..n]), Extensions(start, ps[n], OutOf(rels, EndOf(start, ps[n])));
      forall i, j | 0 <= i < |xs| && 0 <= j < |ys| ensures LexBefore(rels, xs[i], ys[j]) {
        CousinBefore(rels, start, ps, xs[i], ys[j]);
      }
      ConcatSorted(rels, xs, ys);
    }
  }

  lemma OutOfSorted(rels: seq<Rel>, start: string, p: Path)
    ensures LexSorted(rels, Extensions(start, p, OutOf(rels, EndOf(start, p))))
  {
    var out := OutOf(rels, EndOf(start, p));
    forall i, j | 0 <= i < j < |out| ensures Before(rels, out[i], out[j]) {
      OutOfOrdered(rels, EndOf(start, p), i, j);
    }
    ExtensionsOrdered(rels, start, p, out);
  }

  lemma CousinBefore(rels: seq<Rel>, start: string, ps: seq<Path>, x: Path, y: Path)
    requires |ps| > 0 && LexSorted(rels, ps)
    requires x in ExtendAll(rels, start, ps[..|ps| - 1])
    requires y in Extensions(start, ps[|ps| - 1], OutOf(rels, EndOf(start, ps[|ps| - 1])))
    ensures LexBefore(rels, x, y)
  {
    var n := |ps| - 1;
    var a := ParentOf(rels, start, ps[..n], x);
    ExtensionsAt(start, ps[n], OutOf(rels, EndOf(start, ps[n])), y);
    assert LexBefore(rels, ps[a], ps[n]);
    var h :| PartsAt(rels, ps[a], ps[n], h);
    LongerParts(rels, ps[a], ps[n], x, y, h);
  }

  lemma ParentOf(rels: seq<Rel>, start: string, ps: seq<Path>, x: Path) returns (a: nat)
    requires x in ExtendAll(rels, start, ps)
    ensures a < |ps| && ps[a] <= x
  {
    ExtendAllAt(rels, start, ps, x);
    a :| 0 <= a < |ps| && ps[a] == x[..|x| - 1];
  }

  lemma LongerParts(rels: seq<Rel>, p: Path, q: Path, x: Path, y: Path, h: int)
    requires PartsAt(rels, p, q, h) && p <= x && q <= y
    ensures LexBefore(rels, x, y)
  {
    assert x[..h] == p[..h] && y[..h] == q[..h];
    assert PartsAt(rels, x, y, h);
  }

  lemma ConcatSorted(rels: seq<Rel>, xs: seq<Path>, ys: seq<Path>)
    requires LexSorted(rels, xs) && LexSorted(rels, ys)
    requires forall i, j :: 0 <= i < |xs| && 0 <= j < |ys| ==> LexBefore(rels, xs[i], ys[j])
    ensures LexSorted(rels, xs + ys)
  {
  }

  lemma {:induction false} LevelOrdered(rels: seq<Rel>, start: string, n: nat)
    ensures LexSorted(rels, Level(rels, start, n))
  {
    if n > 0 {
      LevelOrdered(rels, start, n - 1);
      ExtendAllOrdered(rels, start, Level(rels, start, n - 1));
    }
  }

  /** Shorter paths first, and among paths of one length the one whose relation comes first in the
    * table where they part. */
  ghost predicate ShortLex(rels: seq<Rel>, p: Path, q: Path) {
    |p| < |q| || (|p| == |q| && LexBefore(rels, p, q))
  }

  lemma {:induction false} UpToOrdered(rels: seq<Rel>, start: string, n: nat)
    ensures forall i, j :: 0 <= i < j < |UpTo(rels, start, n)| ==>
              ShortLex(rels, UpTo(rels, start, n)[i], UpTo(rels, start, n)[j])
  {
    if n > 0 {
      UpToOrdered(rels, start, n - 1);
      UpToLength(rels, start, n - 1);
      LevelLength(rels, start, n);
      LevelOrdered(rels, start, n);
    }
  }

  /** The order of `find_paths` is fixed: with FindPathsExact it determines the result. */
  lemma FindPathsOrder(rels: seq<Rel>, start: string, maxHops: int, maxPaths: int)
    ensures var found := Found(rels, start, maxHops, maxPaths);
            forall i, j :: 0 <= i < j < |found| ==> ShortLex(rels, found[i], found[j])
  {
    UpToOrdered(rels, start, Hops(maxHops));
    assert Found(rels, start, maxHops, maxPaths) <= UpTo(rels, start, Hops(maxHops));
  }

  /** What is left out by the cap comes after everything returned. */
  lemma OmittedComeLater(rels: seq<Rel>, start: string, maxHops: int, maxPaths: int, p: Path, i: nat)
    requires 1 <= |p| <= maxHops && IsSimple(rels, start, p) && p !in Found(rels, start, maxHops, maxPaths)
    requires i < |Found(rels, start, maxHops, maxPaths)|
    ensures ShortLex(rels, Found(rels, start, maxHops, maxPaths)[i], p)
  {
    var all, found := UpTo(rels, start, Hops(maxHops)), Found(rels, start, maxHops, maxPaths);
    UpToAt(rels, start, Hops(maxHops), p);
    UpToOrdered(rels, start, Hops(maxHops));
    assert found <= all;
    var j :| 0 <= j < |all| && all[j] == p;
    assert forall m :: 0 <= m < |found| ==> all[m] == found[m];
    assert j >= |found|;
  }

  // ----- neighbors, in each direction -----

  predicate LeadsOut(r: Rel, u: string, direction: string, v: string) {
    (direction == "out" || direction == "both") && r.source == u && r.target == v
  }

  predicate LeadsIn(r: Rel, u: string, direction: string, v: string) {
    (direction == "in" || direction == "both") && r.target == u && r.source == v
  }

  /** A pair of a relation and an entity is returned, for each row with that relation, once for each
    * direction asked for in which it leads to the entity. */
  lemma {:induction false} NeighborsByDirection(rels: seq<Rel>, u: string, direction: string, r: Rel, v: string)
    ensures multiset(NeighborsOf(rels, u, direction))[(r, v)]
         == (if LeadsOut(r, u, direction, v) then multiset(rels)[r] else 0)
            + (if LeadsIn(r, u, direction, v) then multiset(rels)[r] else 0)
  {
    if |rels| > 0 {
      var n, x := |rels| - 1, rels[|rels| - 1];
      NeighborsByDirection(rels[..n], u, direction, r, v);
      assert rels == rels[..n] + [x];
      LastNeighbors(rels, u, direction);
      CountThree(NeighborsOf(rels[..n], u, direction), OutPair(x, u, direction), InPair(x, u, direction), (r, v));
      PairCount(x, u, direction, r, v);
      CountOneMore(rels[..n], x, r);
    }
  }

  lemma CountOneMore<T>(s: seq<T>, x: T, y: T)
    ensures multiset(s + [x])[y] == multiset(s)[y] + (if x == y then 1 else 0)
  {
  }

  function OutPair(x: Rel, u: string, direction: string): seq<(Rel, string)> {
    if (direction == "out" || direction == "both") && x.source == u then [(x, x.target)] else []
  }

  function InPair(x: Rel, u: string, direction: string): seq<(Rel, string)> {
    if (direction == "in" || direction == "both") && x.target == u then [(x, x.source)] else []
  }

  lemma LastNeighbors(rels: seq<Rel>, u: string, direction: string)
    requires |rels| > 0
    ensures NeighborsOf(rels, u, direction)
         == NeighborsOf(rels[..|rels| - 1], u, direction) + OutPair(rels[|rels| - 1], u, direction)
            + InPair(rels[|rels| - 1], u, direction)
  {
  }

  lemma CountThree<T>(a: seq<T>, b: seq<T>, c: seq<T>, x: T)
    ensures multiset(a + b + c)[x] == multiset(a)[x] + multiset(b)[x] + multiset(c)[x]
  {
  }

  lemma PairCount(x: Rel, u: string, direction: string, r: Rel, v: string)
    ensures multiset(OutPair(x, u, direction))[(r, v)] == if x == r && LeadsOut(r, u, direction, v) then 1 else 0
    ensures multiset(InPair(x, u, direction))[(r, v)] == if x == r && LeadsIn(r, u, direction, v) then 1 else 0
  {
  }

  /** The pairs come in table order. */
  lemma {:induction false} NeighborsInOrder(rels: seq<Rel>, u: string, direction: string, i: nat, j: nat)
    returns (a: nat, b: nat)
    requires i <= j < |NeighborsOf(rels, u, direction)|
    ensures a <= b < |rels|
    ensures rels[a] == NeighborsOf(rels, u, direction)[i].0 && rels[b] == NeighborsOf(rels, u, direction)[j].0
  {
    var n := |rels| - 1;
    if j < |NeighborsOf(rels[..n], u, direction)| {
      a, b := NeighborsInOrder(rels[..n], u, direction, i, j);
    } else if i < |NeighborsOf(rels[..n], u, direction)| {
      a, b := NeighborsInOrder(rels[..n], u, direction, i, i);
      b := n;
    } else {
      a, b := n, n;
    }
  }
}
