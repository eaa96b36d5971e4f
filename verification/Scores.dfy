/** The one-hop expansion of entity scores along the graph (core/services/retrieval.py), over
  * mathematical reals. */
module Scores {
  import opened Wrappers
  import opened PathSearch

  const DECAY := 0.4

  // ----- expansion -----

  /** What seed s offers to each of its neighbors. */
  function Offer(scores: map<string, real>, s: string): real
    requires s in scores
  {
    scores[s] * DECAY
  }

  /** x gets an offer v from some seed it adjoins. */
  ghost predicate Offered(rels: seq<Rel>, seeds: map<string, real>, x: string, v: real) {
    exists s :: s in seeds && Adjoins(rels, s, x) && v == Offer(seeds, s)
  }

  /** The closed form: each entity ends with the greatest of its own score and the offers to it;
    * an entity without a score of its own enters only through a positive offer. */
  ghost predicate IsExpansion(rels: seq<Rel>, seeds: map<string, real>, scores: map<string, real>) {
    && (forall x :: x in scores <==> x in seeds || exists v :: v > 0.0 && Offered(rels, seeds, x, v))
    && (forall x :: x in scores && x in seeds ==> scores[x] >= seeds[x])
    && (forall x, v :: x in scores && Offered(rels, seeds, x, v) ==> scores[x] >= v)
    && forall x :: x in scores ==> (x in seeds && scores[x] == seeds[x]) || Offered(rels, seeds, x, scores[x])
  }

  /** The closed form has one solution: the result depends neither on the order of the seeds nor
    * on the order of the relations. */
  lemma ExpansionUnique(rels: seq<Rel>, rels': seq<Rel>, seeds: map<string, real>, a: map<string, real>,
                        b: map<string, real>)
    requires forall r :: r in rels <==> r in rels'
    requires IsExpansion(rels, seeds, a) && IsExpansion(rels', seeds, b)
    ensures a == b
  {
    OrderIrrelevant(rels', rels, seeds, b);
    OneExpansion(rels, seeds, a, b);
  }

  lemma OrderIrrelevant(rels: seq<Rel>, rels': seq<Rel>, seeds: map<string, real>, a: map<string, real>)
    requires forall r :: r in rels <==> r in rels'
    requires IsExpansion(rels, seeds, a)
    ensures IsExpansion(rels', seeds, a)
  {
    forall x, v ensures Offered(rels, seeds, x, v) <==> Offered(rels', seeds, x, v) {
      SameOffers(rels, rels', seeds, x, v);
      SameOffers(rels', rels, seeds, x, v);
    }
  }

  lemma OneExpansion(rels: seq<Rel>, seeds: map<string, real>, a: map<string, real>, b: map<string, real>)
    requires IsExpansion(rels, seeds, a) && IsExpansion(rels, seeds, b)
    ensures a == b
  {
    forall x | x in a && x in b ensures a[x] == b[x] {
      assert a[x] >= b[x] && b[x] >= a[x];
    }
  }

  lemma SameOffers(rels: seq<Rel>, rels': seq<Rel>, seeds: map<string, real>, x: string, v: real)
    requires forall r :: r in rels ==> r in rels'
    ensures Offered(rels, seeds, x, v) ==> Offered(rels', seeds, x, v)
  {
    if Offered(rels, seeds, x, v) {
      var s :| s in seeds && Adjoins(rels, s, x) && v == Offer(seeds, s);
      assert Adjoins(rels', s, x);
    }
  }

  /** scores is the best of the seeds and of the offers listed so far. */
  ghost predicate Best(seeds: map<string, real>, offers: seq<(string, real)>, scores: map<string, real>) {
    && (forall x :: x in scores <==> x in seeds || exists v :: v > 0.0 && (x, v) in offers)
    && (forall x :: x in scores && x in seeds ==> scores[x] >= seeds[x])
    && (forall x, v :: x in scores && (x, v) in offers ==> scores[x] >= v)
    && forall x :: x in scores ==> (x in seeds && scores[x] == seeds[x]) || (x, scores[x]) in offers
  }

  function Score(scores: map<string, real>, x: string): real {
    if x in scores then scores[x] else 0.0
  }

  lemma BestStep(seeds: map<string, real>, offers: seq<(string, real)>, scores: map<string, real>, x: string, v: real)
    requires Best(seeds, offers, scores)
    ensures Best(seeds, offers + [(x, v)], if v > Score(scores, x) then scores[x := v] else scores)
  {
    var offers' := offers + [(x, v)];
    var scores' := if v > Score(scores, x) then scores[x := v] else scores;
    assert forall o :: o in offers' <==> o in offers || o == (x, v);
    forall y ensures y in scores' <==> y in seeds || exists w :: w > 0.0 && (y, w) in offers' {
      if y in scores && y !in seeds {
        var w :| w > 0.0 && (y, w) in offers;
        assert (y, w) in offers';
      }
      if y in scores' && y !in scores {
        assert v > 0.0 && (y, v) in offers';
      }
      if w :| w > 0.0 && (y, w) in offers' {
        assert (y, w) in offers || (y == x && w == v);
      }
    }
  }

  /** What one seed offers along its neighbor list. */
  function OffersOf(nbrs: seq<(Rel, string)>, v: real): seq<(string, real)> {
    seq(|nbrs|, i requires 0 <= i < |nbrs| => (nbrs[i].1, v))
  }

  function AllOffers(rels: seq<Rel>, seeds: map<string, real>, order: seq<string>): seq<(string, real)>
    requires forall s :: s in order ==> s in seeds
  {
    if |order| == 0 then []
    else AllOffers(rels, seeds, order[..|order| - 1])
         + OffersOf(NeighborsOf(rels, order[|order| - 1], "both"), Offer(seeds, order[|order| - 1]))
  }

  lemma {:induction false} AllOffersMeaning(rels: seq<Rel>, seeds: map<string, real>, order: seq<string>)
    requires forall s :: s in order ==> s in seeds
    ensures forall x, v :: (x, v) in AllOffers(rels, seeds, order) <==>
              exists s :: s in order && Adjoins(rels, s, x) && v == Offer(seeds, s)
  {
    if |order| > 0 {
      var s, rest := order[|order| - 1], order[..|order| - 1];
      AllOffersMeaning(rels, seeds, rest);
      assert order == rest + [s];
      forall x, v
        ensures (x, v) in OffersOf(NeighborsOf(rels, s, "both"), Offer(seeds, s)) <==>
                  Adjoins(rels, s, x) && v == Offer(seeds, s)
      {
        OneSeed(rels, s, x, v, Offer(seeds, s));
      }
    }
  }

  lemma OneSeed(rels: seq<Rel>, s: string, x: string, v: real, w: real)
    ensures (x, v) in OffersOf(NeighborsOf(rels, s, "both"), w) <==> Adjoins(rels, s, x) && v == w
  {
    var nbrs := NeighborsOf(rels, s, "both");
    NeighborsMeaning(rels, s);
    if Adjoins(rels, s, x) && v == w {
      var r :| r in rels && ((r.source == s && r.target == x) || (r.target == s && r.source == x));
      assert (r, x) in nbrs;
      var i :| 0 <= i < |nbrs| && nbrs[i] == (r, x);
      assert OffersOf(nbrs, w)[i] == (x, v);
    }
    if (x, v) in OffersOf(nbrs, w) {
      var i :| 0 <= i < |nbrs| && OffersOf(nbrs, w)[i] == (x, v);
      assert (nbrs[i].0, nbrs[i].1) in nbrs;
    }
  }

  /** `_expand_via_graph`: seeds in any order of the dict, each with the score it had at the start. */
  method ExpandViaGraph(rels: seq<Rel>, seeds: map<string, real>, order: seq<string>)
    returns (scores: map<string, real>)
    requires forall s :: s in order <==> s in seeds
    ensures IsExpansion(rels, seeds, scores)
  {
    scores := seeds;
    for i := 0 to |order|
      invariant Best(seeds, AllOffers(rels, seeds, order[..i]), scores)
    {
      var s := order[i];
      AllOffersStep(rels, seeds, order, i);
      var nbrs := Neighbors(rels, s, "both");
      scores := OfferAll(nbrs, seeds[s] * DECAY, scores, seeds, AllOffers(rels, seeds, order[..i]));
    }
    assert order[..|order|] == order;
    BestIsExpansion(rels, seeds, order, scores);
  }

  lemma AllOffersStep(rels: seq<Rel>, seeds: map<string, real>, order: seq<string>, i: nat)
    requires i < |order| && forall s :: s in order ==> s in seeds
    ensures order[i] in seeds && (forall s :: s in order[..i] ==> s in seeds)
    ensures (forall s :: s in order[..i + 1] ==> s in seeds)
    ensures AllOffers(rels, seeds, order[..i + 1])
         == AllOffers(rels, seeds, order[..i]) + OffersOf(NeighborsOf(rels, order[i], "both"), Offer(seeds, order[i]))
  {
    assert order[..i + 1][..i] == order[..i];
  }

  lemma BestIsExpansion(rels: seq<Rel>, seeds: map<string, real>, order: seq<string>, scores: map<string, real>)
    requires forall s :: s in order <==> s in seeds
    requires Best(seeds, AllOffers(rels, seeds, order), scores)
    ensures IsExpansion(rels, seeds, scores)
  {
    AllOffersMeaning(rels, seeds, order);
    assert forall x, v :: (x, v) in AllOffers(rels, seeds, order) <==> Offered(rels, seeds, x, v);
  }

  /** The inner loop: one seed's offer to each of its neighbors. */
  method OfferAll(nbrs: seq<(Rel, string)>, propagated: real, scores: map<string, real>,
                  ghost seeds: map<string, real>, ghost offers: seq<(string, real)>)
    returns (scores': map<string, real>)
    requires Best(seeds, offers, scores)
    ensures Best(seeds, offers + OffersOf(nbrs, propagated), scores')
  {
    scores' := scores;
    assert offers + OffersOf(nbrs[..0], propagated) == offers;
    for j := 0 to |nbrs|
      invariant Best(seeds, offers + OffersOf(nbrs[..j], propagated), scores')
    {
      var nbr := nbrs[j].1;
      BestStep(seeds, offers + OffersOf(nbrs[..j], propagated), scores', nbr, propagated);
      assert offers + OffersOf(nbrs[..j + 1], propagated)
          == offers + OffersOf(nbrs[..j], propagated) + [(nbr, propagated)];
      if propagated > (if nbr in scores' then scores'[nbr] else 0.0) {
        scores' := scores'[nbr := propagated];
      }
    }
    assert nbrs[..|nbrs|] == nbrs;
  }

  /** With the non-negative seeds that recall produces, every score stays non-negative, and the
    * seeds of greatest score stay on top. */
  lemma ExpansionRanges(rels: seq<Rel>, seeds: map<string, real>, scores: map<string, real>, top: real)
    requires IsExpansion(rels, seeds, scores)
    requires forall s :: s in seeds ==> 0.0 <= seeds[s] <= top
    ensures forall x :: x in scores ==> 0.0 <= scores[x] <= top
    ensures forall x :: x in scores && x !in seeds ==> 0.0 < scores[x] <= 0.4 * top
  {
    forall x | x in scores
      ensures 0.0 <= scores[x] <= top
      ensures x !in seeds ==> 0.0 < scores[x] <= 0.4 * top
    {
      if Offered(rels, seeds, x, scores[x]) {
        var s :| s in seeds && Adjoins(rels, s, x) && scores[x] == Offer(seeds, s);
      }
    }
  }

  /** One relation joins the two entities, in either direction. */
  predicate Joined(r: Rel, s: string, x: string) {
    (r.source == s && r.target == x) || (r.source == x && r.target == s)
  }

  /** Each relation carries 0.4 of a seed's score to the entity at its other end, which ends no lower;
    * an entity that ends above its own score, or had none, has what one of the relations carried to it. */
  lemma ExpansionScores(rels: seq<Rel>, seeds: map<string, real>, scores: map<string, real>)
    requires IsExpansion(rels, seeds, scores)
    ensures forall s :: s in seeds ==> s in scores && scores[s] >= seeds[s]
    ensures forall r, s, x :: r in rels && s in seeds && Joined(r, s, x) && seeds[s] > 0.0 ==>
              x in scores && scores[x] >= seeds[s] * 0.4
    ensures forall x :: x in scores && (x !in seeds || scores[x] != seeds[x]) ==>
              exists r, s :: r in rels && s in seeds && Joined(r, s, x) && scores[x] == seeds[s] * 0.4
  {
    forall r, s, x | r in rels && s in seeds && Joined(r, s, x) && seeds[s] > 0.0
      ensures x in scores && scores[x] >= seeds[s] * 0.4
    {
      assert Adjoins(rels, s, x);
      assert Offered(rels, seeds, x, Offer(seeds, s));
    }
    forall x | x in scores && (x !in seeds || scores[x] != seeds[x])
      ensures exists r, s :: r in rels && s in seeds && Joined(r, s, x) && scores[x] == seeds[s] * 0.4
    {
      var s :| s in seeds && Adjoins(rels, s, x) && scores[x] == Offer(seeds, s);
      var r :| r in rels && ((r.source == s && r.target == x) || (r.target == s && r.source == x));
      assert Joined(r, s, x);
    }
  }
}
