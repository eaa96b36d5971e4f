/** Vector similarity over mathematical reals: `_cosine` of core/adapters/chroma_adapter.py and
  * `_hash_embed` of core/adapters/embedding.py. `math.sqrt` is a parameter: the non-negative
  * number whose square is the argument. */
module Similarity {

  /** The sum of products; for vectors of one length. */
  function Dot(a: seq<real>, b: seq<real>): real
    requires |a| == |b|
  {
    if |a| == 0 then 0.0 else Dot(a[..|a| - 1], b[..|b| - 1]) + a[|a| - 1] * b[|b| - 1]
  }

  predicate IsRoot(root: real, x: real) {
    root >= 0.0 && root * root == x
  }

  /** Python's `math.sqrt(...) or 1.0`. */
  function NormOf(root: real): real {
    if root == 0.0 then 1.0 else root
  }

  /** `_cosine`, given the roots of the two squared norms. */
  function Cosine(a: seq<real>, b: seq<real>, ra: real, rb: real): real
    requires ra >= 0.0 && rb >= 0.0
  {
    if |a| == 0 || |b| == 0 || |a| != |b| then 0.0
    else
      var d := NormOf(ra) * NormOf(rb);
      assert d > 0.0;
      Dot(a, b) / d
  }

  // ----- Cauchy-Schwarz -----

  lemma SquareNonNegative(x: real)
    ensures x * x >= 0.0
  {
  }

  lemma {:induction false} DotSelf(a: seq<real>)
    ensures Dot(a, a) >= 0.0
  {
    if |a| > 0 {
      DotSelf(a[..|a| - 1]);
      SquareNonNegative(a[|a| - 1]);
    }
  }

  lemma ProductPositive(x: real, y: real)
    requires x > 0.0 && y > 0.0
    ensures x * y > 0.0
  {
  }

  lemma ProductLess(x: real, y: real, d: real)
    requires x < y && d > 0.0
    ensures x * d < y * d
  {
    ProductPositive(y - x, d);
  }

  lemma SquareLess(q: real, p: real)
    requires 0.0 <= q < p
    ensures q * q < p * p
  {
    assert (p - q) * (p + q) == p * p - q * q;
    ProductPositive(p - q, p + q);
  }

  /** From squares back to the numbers. */
  lemma SquareOrder(p: real, q: real)
    requires q >= 0.0 && p * p <= q * q
    ensures -q <= p <= q
  {
    if p > q { SquareLess(q, p); }
    if -p > q { SquareLess(q, -p); }
  }

  lemma SquareZero(x: real)
    ensures x == 0.0 ==> x * x == 0.0
    ensures x != 0.0 ==> x * x > 0.0
  {
    if x > 0.0 { ProductPositive(x, x); }
    if x < 0.0 {
      ProductPositive(-x, -x);
      assert (-x) * (-x) == x * x;
    }
  }

  /** The cross term of the induction step is bounded. */
  lemma CrossTerm(d: real, a: real, b: real, x: real, y: real)
    requires a >= 0.0 && b >= 0.0 && d * d <= a * b
    ensures 2.0 * (d * (x * y)) <= a * (y * y) + b * (x * x)
  {
    var u, v := a * (y * y), b * (x * x);
    SquareNonNegative(x);
    SquareNonNegative(y);
    assert u >= 0.0 && v >= 0.0;
    var p := 2.0 * (d * (x * y));
    var s := (x * y) * (x * y);
    SquareNonNegative(x * y);
    assert p * p == 4.0 * ((d * d) * s) by { ProductSquare(d, x * y); }
    assert (d * d) * s <= (a * b) * s;
    assert (a * b) * s == u * v by { Regroup(a, b, x, y); }
    FourTimes(u, v);
    SquareOrder(p, u + v);
  }

  lemma ProductSquare(d: real, z: real)
    ensures (2.0 * (d * z)) * (2.0 * (d * z)) == 4.0 * ((d * d) * (z * z))
  {
  }

  lemma Regroup(a: real, b: real, x: real, y: real)
    ensures (a * b) * ((x * y) * (x * y)) == (a * (y * y)) * (b * (x * x))
  {
  }

  lemma FourTimes(u: real, v: real)
    ensures 4.0 * (u * v) <= (u + v) * (u + v)
  {
    SquareNonNegative(u - v);
    assert (u + v) * (u + v) == (u - v) * (u - v) + 4.0 * (u * v);
  }

  lemma {:induction false} CauchySchwarz(a: seq<real>, b: seq<real>)
    requires |a| == |b|
    ensures Dot(a, b) * Dot(a, b) <= Dot(a, a) * Dot(b, b)
  {
    if |a| > 0 {
      var n := |a| - 1;
      CauchySchwarz(a[..n], b[..n]);
      DotSelf(a[..n]);
      DotSelf(b[..n]);
      Extend(Dot(a[..n], b[..n]), Dot(a[..n], a[..n]), Dot(b[..n], b[..n]), a[n], b[n]);
    }
  }

  lemma Extend(d: real, a: real, b: real, x: real, y: real)
    requires a >= 0.0 && b >= 0.0 && d * d <= a * b
    ensures (d + x * y) * (d + x * y) <= (a + x * x) * (b + y * y)
  {
    CrossTerm(d, a, b, x, y);
    assert (d + x * y) * (d + x * y) == d * d + 2.0 * (d * (x * y)) + (x * y) * (x * y);
    assert (a + x * x) * (b + y * y) == a * b + a * (y * y) + b * (x * x) + (x * x) * (y * y);
    assert (x * y) * (x * y) == (x * x) * (y * y);
  }

  // ----- the cosine -----

  lemma {:induction false} DotSymmetric(a: seq<real>, b: seq<real>)
    requires |a| == |b|
    ensures Dot(a, b) == Dot(b, a)
  {
    if |a| > 0 {
      DotSymmetric(a[..|a| - 1], b[..|b| - 1]);
    }
  }

  lemma CosineSymmetric(a: seq<real>, b: seq<real>, ra: real, rb: real)
    requires ra >= 0.0 && rb >= 0.0
    ensures Cosine(a, b, ra, rb) == Cosine(b, a, rb, ra)
  {
    if |a| == |b| {
      DotSymmetric(a, b);
      assert NormOf(ra) * NormOf(rb) == NormOf(rb) * NormOf(ra);
    }
  }

  /** The cosine lies between -1 and 1 for all vectors, zero vectors and mismatched lengths included. */
  lemma CosineBounded(a: seq<real>, b: seq<real>, ra: real, rb: real)
    requires IsRoot(ra, Dot(a, a)) && IsRoot(rb, Dot(b, b))
    ensures -1.0 <= Cosine(a, b, ra, rb) <= 1.0
  {
    if |a| == |b| && |a| > 0 {
      DotWithin(a, b, ra, rb);
      RatioBounded(Dot(a, b), ra, rb);
    }
  }

  lemma DotWithin(a: seq<real>, b: seq<real>, ra: real, rb: real)
    requires |a| == |b| && IsRoot(ra, Dot(a, a)) && IsRoot(rb, Dot(b, b))
    ensures -(ra * rb) <= Dot(a, b) <= ra * rb
  {
    CauchySchwarz(a, b);
    RootProduct(Dot(a, b), Dot(a, a), Dot(b, b), ra, rb);
  }

  lemma RatioBounded(p: real, ra: real, rb: real)
    requires ra >= 0.0 && rb >= 0.0 && -(ra * rb) <= p <= ra * rb
    ensures NormOf(ra) * NormOf(rb) > 0.0 && -1.0 <= p / (NormOf(ra) * NormOf(rb)) <= 1.0
  {
    NormAtLeast(ra, rb);
    Quotient(p, NormOf(ra) * NormOf(rb));
  }

  lemma RootProduct(p: real, x: real, y: real, rx: real, ry: real)
    requires IsRoot(rx, x) && IsRoot(ry, y) && p * p <= x * y
    ensures -(rx * ry) <= p <= rx * ry
  {
    assert (rx * ry) * (rx * ry) == (rx * rx) * (ry * ry);
    SquareOrder(p, rx * ry);
  }

  lemma NormAtLeast(ra: real, rb: real)
    requires ra >= 0.0 && rb >= 0.0
    ensures 0.0 < NormOf(ra) * NormOf(rb) && ra * rb <= NormOf(ra) * NormOf(rb)
  {
    ProductPositive(NormOf(ra), NormOf(rb));
    if ra == 0.0 || rb == 0.0 {
      assert ra * rb == 0.0;
    }
  }

  lemma CancelFactor(x: real, y: real, d: real)
    requires d > 0.0 && x * d <= y * d
    ensures x <= y
  {
    if y < x { ProductLess(y, x, d); }
  }

  lemma QuotientTimes(p: real, d: real)
    requires d > 0.0
    ensures (p / d) * d == p
  {
  }

  lemma Quotient(p: real, d: real)
    requires d > 0.0 && -d <= p <= d
    ensures -1.0 <= p / d <= 1.0
  {
    QuotientTimes(p, d);
    CancelFactor(p / d, 1.0, d);
    CancelFactor(-1.0, p / d, d);
  }

  // ----- the hash embedding -----

  /** The loop's counts so far; CountsMeaning says what they are. */
  function Counts(tokens: seq<string>, dim: nat, hash: string -> nat): (v: seq<real>)
    requires dim > 0 || |tokens| == 0
    ensures |v| == dim
  {
    if |tokens| == 0 then seq(dim, _ => 0.0)
    else
      var v := Counts(tokens[..|tokens| - 1], dim, hash);
      var i := hash(tokens[|tokens| - 1]) % dim;
      v[i := v[i] + 1.0]
  }

  /** The positions in the text of the tokens that hash to i. */
  ghost function HashedTo(tokens: seq<string>, dim: nat, hash: string -> nat, i: nat): set<nat>
    requires dim > 0
  {
    set j: nat | j < |tokens| && hash(tokens[j]) % dim == i
  }

  /** Entry i is the number of tokens that hash to i. */
  lemma {:induction false} CountsMeaning(tokens: seq<string>, dim: nat, hash: string -> nat, i: nat)
    requires i < dim
    ensures Counts(tokens, dim, hash)[i] == |HashedTo(tokens, dim, hash, i)| as real
  {
    if |tokens| == 0 {
      assert HashedTo(tokens, dim, hash, i) == {};
    } else {
      var n := |tokens| - 1;
      CountsMeaning(tokens[..n], dim, hash, i);
      var was := HashedTo(tokens[..n], dim, hash, i);
      if hash(tokens[n]) % dim == i {
        assert HashedTo(tokens, dim, hash, i) == was + {n};
      } else {
        assert HashedTo(tokens, dim, hash, i) == was;
      }
    }
  }

  ghost predicate NonNegative(v: seq<real>) {
    forall i :: 0 <= i < |v| ==> v[i] >= 0.0
  }

  lemma {:induction false} CountsNonNegative(tokens: seq<string>, dim: nat, hash: string -> nat)
    requires dim > 0 || |tokens| == 0
    ensures NonNegative(Counts(tokens, dim, hash))
    ensures |tokens| > 0 ==> exists i :: 0 <= i < dim && Counts(tokens, dim, hash)[i] >= 1.0
  {
    if |tokens| > 0 {
      CountsNonNegative(tokens[..|tokens| - 1], dim, hash);
      var i := hash(tokens[|tokens| - 1]) % dim;
      assert Counts(tokens, dim, hash)[i] >= 1.0;
    }
  }

  function Scaled(v: seq<real>, norm: real): seq<real>
    requires norm > 0.0
  {
    seq(|v|, i requires 0 <= i < |v| => v[i] / norm)
  }

  /** `_hash_embed` over the tokens of a text; root is the square root of the squared norm of the counts. */
  method HashEmbed(tokens: seq<string>, dim: nat, hash: string -> nat, root: real) returns (v: seq<real>)
    requires dim > 0 || |tokens| == 0
    requires IsRoot(root, Dot(Counts(tokens, dim, hash), Counts(tokens, dim, hash)))
    ensures v == Scaled(Counts(tokens, dim, hash), NormOf(root))
  {
    var vec := seq(dim, _ => 0.0);
    for i := 0 to |tokens|
      invariant vec == Counts(tokens[..i], dim, hash)
    {
      assert tokens[..i + 1][..i] == tokens[..i];
      var idx := hash(tokens[i]) % dim;
      vec := vec[idx := vec[idx] + 1.0];
    }
    assert tokens[..|tokens|] == tokens;
    var norm := if root == 0.0 then 1.0 else root;
    v := seq(|vec|, i requires 0 <= i < |vec| => vec[i] / norm);
  }

  lemma DotScaled(v: seq<real>, norm: real)
    requires norm > 0.0
    ensures norm * norm * Dot(Scaled(v, norm), Scaled(v, norm)) == Dot(v, v)
  {
    forall i | 0 <= i < |v| ensures Scaled(v, norm)[i] * norm == v[i] { QuotientTimes(v[i], norm); }
    DotMultiple(Scaled(v, norm), v, norm);
  }

  lemma {:induction false} DotMultiple(w: seq<real>, v: seq<real>, m: real)
    requires |w| == |v| && forall i :: 0 <= i < |v| ==> w[i] * m == v[i]
    ensures m * m * Dot(w, w) == Dot(v, v)
  {
    if |v| > 0 {
      var n := |v| - 1;
      DotMultiple(w[..n], v[..n], m);
      ScaledStep(m, Dot(w, w), Dot(w[..n], w[..n]), w[n], v[n], Dot(v[..n], v[..n]));
    }
  }

  lemma ScaledStep(m: real, s: real, d: real, q: real, x: real, e: real)
    requires s == d + q * q && q * m == x && m * m * d == e
    ensures m * m * s == e + x * x
  {
    calc {
      m * m * s;
      m * m * (d + q * q);
      m * m * d + m * m * (q * q);
      { assert m * m * (q * q) == (q * m) * (q * m); }
      e + x * x;
    }
  }

  lemma {:induction false} DotNonNegative(a: seq<real>, b: seq<real>)
    requires |a| == |b| && NonNegative(a) && NonNegative(b)
    ensures Dot(a, b) >= 0.0
  {
    if |a| > 0 {
      DotNonNegative(a[..|a| - 1], b[..|b| - 1]);
      assert a[|a| - 1] * b[|b| - 1] >= 0.0;
    }
  }

  lemma {:induction false} DotZero(a: seq<real>)
    ensures (forall i :: 0 <= i < |a| ==> a[i] == 0.0) ==> Dot(a, a) == 0.0
    ensures (exists i :: 0 <= i < |a| && a[i] != 0.0) ==> Dot(a, a) > 0.0
  {
    if |a| > 0 {
      var n := |a| - 1;
      DotZero(a[..n]);
      DotSelf(a[..n]);
      assert forall i :: 0 <= i < n ==> a[..n][i] == a[i];
      PlusSquare(Dot(a[..n], a[..n]), a[|a| - 1]);
    }
  }

  lemma PlusSquare(d: real, z: real)
    requires d >= 0.0
    ensures d == 0.0 && z == 0.0 ==> d + z * z == 0.0
    ensures d > 0.0 || z != 0.0 ==> d + z * z > 0.0
  {
    if z == 0.0 {
      assert z * z == 0.0;
    } else {
      calc {
        d + z * z;
      >=
        z * z;
      > { SquareZero(z); }
        0.0;
      }
    }
  }

  /** An embedding has squared norm 1, or 0 exactly when the text has no token, and no negative entry. */
  lemma EmbeddingIsUnit(tokens: seq<string>, dim: nat, hash: string -> nat, root: real, v: seq<real>)
    requires dim > 0 || |tokens| == 0
    requires IsRoot(root, Dot(Counts(tokens, dim, hash), Counts(tokens, dim, hash)))
    requires v == Scaled(Counts(tokens, dim, hash), NormOf(root))
    ensures |v| == dim && NonNegative(v)
    ensures Dot(v, v) == if |tokens| == 0 then 0.0 else 1.0
  {
    var c := Counts(tokens, dim, hash);
    CountsNonNegative(tokens, dim, hash);
    DotZero(c);
    SquareZero(root);
    forall i | 0 <= i < |v| ensures v[i] >= 0.0 { NonNegativeQuotient(c[i], NormOf(root)); }
    NoTokensNoCounts(tokens, dim, hash);
    ScaledNorm(c, root);
  }

  lemma NoTokensNoCounts(tokens: seq<string>, dim: nat, hash: string -> nat)
    requires dim > 0 || |tokens| == 0
    ensures (forall i :: 0 <= i < dim ==> Counts(tokens, dim, hash)[i] == 0.0) <==> |tokens| == 0
  {
    CountsNonNegative(tokens, dim, hash);
  }

  /** Dividing by the norm leaves squared norm 1, or 0 for the zero vector. */
  lemma ScaledNorm(c: seq<real>, root: real)
    requires IsRoot(root, Dot(c, c))
    ensures Dot(Scaled(c, NormOf(root)), Scaled(c, NormOf(root))) == if Dot(c, c) == 0.0 then 0.0 else 1.0
  {
    SquareZero(root);
    if root == 0.0 {
      DotScaled(c, 1.0);
    } else {
      DotScaled(c, root);
      OneFactor(root, Dot(c, c), Dot(Scaled(c, root), Scaled(c, root)));
    }
  }

  lemma OneFactor(root: real, s: real, x: real)
    requires root > 0.0 && root * root == s && root * root * x == s
    ensures s != 0.0 && x == 1.0
  {
    calc {
      s;
      root * root;
    > { ProductPositive(root, root); }
      0.0;
    }
    calc {
      x * s;
      x * (root * root);
      root * root * x;
      s;
      1.0 * s;
    }
    CancelFactor(x, 1.0, s);
    CancelFactor(1.0, x, s);
  }

  lemma NonNegativeQuotient(x: real, d: real)
    requires x >= 0.0 && d > 0.0
    ensures x / d >= 0.0
  {
    QuotientTimes(x, d);
    CancelFactor(0.0, x / d, d);
  }

  /** Any two hash embeddings have a similarity between 0 and 1. */
  lemma EmbeddingSimilarity(a: seq<real>, b: seq<real>, ra: real, rb: real)
    requires NonNegative(a) && NonNegative(b)
    requires IsRoot(ra, Dot(a, a)) && IsRoot(rb, Dot(b, b))
    ensures 0.0 <= Cosine(a, b, ra, rb) <= 1.0
  {
    CosineBounded(a, b, ra, rb);
    if |a| == |b| && |a| > 0 {
      DotNonNegative(a, b);
      NormAtLeast(ra, rb);
      NonNegativeQuotient(Dot(a, b), NormOf(ra) * NormOf(rb));
    }
  }

  // ----- what the dot product and the cosine are -----

  lemma {:induction false} DotConcat(a: seq<real>, b: seq<real>, c: seq<real>, d: seq<real>)
    requires |a| == |b| && |c| == |d|
    ensures Dot(a + c, b + d) == Dot(a, b) + Dot(c, d)
  {
    if |c| == 0 {
      assert a + c == a && b + d == b;
    } else {
      var n := |c| - 1;
      assert (a + c)[..|a + c| - 1] == a + c[..n] && (b + d)[..|b + d| - 1] == b + d[..n];
      DotConcat(a, b, c[..n], d[..n]);
    }
  }

  lemma DotSingle(x: real, y: real)
    ensures Dot([x], [y]) == x * y && Dot([], []) == 0.0
  {
    assert [x][..0] == [] && [y][..0] == [];
  }

  /** The cosine times both norms is the dot product. */
  lemma CosineTimesNorms(a: seq<real>, b: seq<real>, ra: real, rb: real)
    requires |a| == |b| && IsRoot(ra, Dot(a, a)) && IsRoot(rb, Dot(b, b))
    ensures Cosine(a, b, ra, rb) * (ra * rb) == Dot(a, b)
  {
    DotWithin(a, b, ra, rb);
    TimesNorms(a, b, ra, rb);
  }

  lemma TimesNorms(a: seq<real>, b: seq<real>, ra: real, rb: real)
    requires |a| == |b| && ra >= 0.0 && rb >= 0.0 && -(ra * rb) <= Dot(a, b) <= ra * rb
    ensures Cosine(a, b, ra, rb) * (ra * rb) == Dot(a, b)
  {
    if |a| == 0 {
      TimesZero(ra * rb, 0.0, (ra * rb) * 0.0);
    } else {
      RatioTimes(Dot(a, b), ra, rb);
    }
  }

  /** A dot product over both norms; it is 0 where a norm is. */
  lemma RatioTimes(p: real, ra: real, rb: real)
    requires ra >= 0.0 && rb >= 0.0 && -(ra * rb) <= p <= ra * rb
    ensures NormOf(ra) * NormOf(rb) > 0.0 && p / (NormOf(ra) * NormOf(rb)) * (ra * rb) == p
    ensures ra == 0.0 || rb == 0.0 ==> p / (NormOf(ra) * NormOf(rb)) == 0.0
  {
    NormAtLeast(ra, rb);
    if ra == 0.0 || rb == 0.0 {
      assert ra * rb == 0.0;
      ZeroQuotient(NormOf(ra) * NormOf(rb));
    } else {
      QuotientTimes(p, ra * rb);
    }
  }

  /** For vectors of different lengths, empty vectors and zero vectors it is 0. */
  lemma CosineZero(a: seq<real>, b: seq<real>, ra: real, rb: real)
    requires IsRoot(ra, Dot(a, a)) && IsRoot(rb, Dot(b, b))
    requires |a| != |b| || |a| == 0 || ra == 0.0 || rb == 0.0
    ensures Cosine(a, b, ra, rb) == 0.0
  {
    if |a| == |b| && |a| > 0 {
      DotWithin(a, b, ra, rb);
      RatioTimes(Dot(a, b), ra, rb);
    }
  }

  lemma ZeroQuotient(d: real)
    requires d != 0.0
    ensures 0.0 / d == 0.0
  {
  }

  /** A vector that is not zero has similarity 1 to itself and to every positive multiple of itself, and
    * -1 to every negative one. */
  lemma CosineOfMultiple(a: seq<real>, b: seq<real>, m: real, ra: real, rb: real)
    requires |a| == |b| && m != 0.0 && forall i :: 0 <= i < |a| ==> b[i] == m * a[i]
    requires IsRoot(ra, Dot(a, a)) && IsRoot(rb, Dot(b, b)) && ra > 0.0
    ensures Cosine(a, b, ra, rb) == if m > 0.0 then 1.0 else -1.0
  {
    RatioOfMultiple(a, b, m, ra, rb);
    CosineIsRatio(a, b, ra, rb);
  }

  lemma CosineIsRatio(a: seq<real>, b: seq<real>, ra: real, rb: real)
    requires |a| == |b| > 0 && ra > 0.0 && rb > 0.0
    ensures ra * rb > 0.0 && Cosine(a, b, ra, rb) == Dot(a, b) / (ra * rb)
  {
    ProductPositive(ra, rb);
  }

  lemma RatioOfMultiple(a: seq<real>, b: seq<real>, m: real, ra: real, rb: real)
    requires |a| == |b| && m != 0.0 && forall i :: 0 <= i < |a| ==> b[i] == m * a[i]
    requires IsRoot(ra, Dot(a, a)) && IsRoot(rb, Dot(b, b)) && ra > 0.0
    ensures |a| > 0 && rb > 0.0 && ra * rb > 0.0 && Dot(a, b) / (ra * rb) == if m > 0.0 then 1.0 else -1.0
  {
    MultipleDots(a, b, m);
    MultipleCosine(Dot(a, a), Dot(a, b), Dot(b, b), m, ra, rb);
    if |a| == 0 { RootOfZero(ra, Dot(a, a)); }
  }

  lemma MultipleCosine(x: real, p: real, q: real, m: real, ra: real, rb: real)
    requires m != 0.0 && ra > 0.0 && IsRoot(ra, x) && IsRoot(rb, q) && Multiples(x, p, q, m)
    ensures rb > 0.0 && ra * rb > 0.0 && p / (ra * rb) == if m > 0.0 then 1.0 else -1.0
  {
    MultipleRoot(x, p, q, m, ra, rb);
    MultipleRatio(x, p, m, ra, rb);
  }

  /** What the dot products of a vector and a multiple of it are to one another. */
  predicate Multiples(x: real, p: real, q: real, m: real) {
    p == m * x && q == m * p
  }

  lemma MultipleDots(a: seq<real>, b: seq<real>, m: real)
    requires |a| == |b| && forall i :: 0 <= i < |a| ==> b[i] == m * a[i]
    ensures Multiples(Dot(a, a), Dot(a, b), Dot(b, b), m)
  {
    DotTimes(a, b, a, m);
    DotTimes(a, b, b, m);
    DotSymmetric(a, b);
  }

  lemma MultipleRatio(x: real, p: real, m: real, ra: real, rb: real)
    requires m != 0.0 && ra > 0.0 && rb > 0.0 && ra * ra == x && p == m * x
    requires rb == if m > 0.0 then m * ra else -m * ra
    ensures ra * rb > 0.0 && p / (ra * rb) == if m > 0.0 then 1.0 else -1.0
  {
    var sign := if m > 0.0 then 1.0 else -1.0;
    SignedProduct(x, m, ra, rb, sign);
    ProductPositive(ra, rb);
    QuotientIs(p, ra * rb, sign);
  }

  lemma {:induction false} DotTimes(a: seq<real>, b: seq<real>, c: seq<real>, m: real)
    requires |a| == |b| == |c| && forall i :: 0 <= i < |a| ==> b[i] == m * a[i]
    ensures Dot(b, c) == m * Dot(a, c)
  {
    if |a| > 0 {
      var n := |a| - 1;
      DotTimes(a[..n], b[..n], c[..n], m);
      Distribute(m, Dot(a[..n], c[..n]), a[n], b[n], c[n]);
    }
  }

  lemma Distribute(m: real, d: real, x: real, y: real, z: real)
    requires y == m * x
    ensures m * d + y * z == m * (d + x * z)
  {
    assert y * z == m * (x * z);
  }

  /** The norm of a multiple is that multiple of the norm, without its sign. */
  lemma MultipleRoot(x: real, p: real, q: real, m: real, ra: real, rb: real)
    requires m != 0.0 && ra > 0.0 && IsRoot(ra, x) && IsRoot(rb, q) && Multiples(x, p, q, m)
    ensures rb == (if m > 0.0 then m * ra else -m * ra) && rb > 0.0
  {
    var k := if m > 0.0 then m else -m;
    ProductPositive(k, ra);
    SquareMultiple(m, k, ra, x, p, q);
    SquareOrder(rb, k * ra);
    SquareOrder(k * ra, rb);
  }

  lemma SquareMultiple(m: real, k: real, r: real, x: real, p: real, q: real)
    requires (k == m || k == -m) && r * r == x && Multiples(x, p, q, m)
    ensures (k * r) * (k * r) == q
  {
    calc {
      (k * r) * (k * r);
      (k * k) * (r * r);
      (m * m) * x;
      m * (m * x);
      m * p;
      q;
    }
  }

  lemma SignedProduct(x: real, m: real, ra: real, rb: real, sign: real)
    requires ra * ra == x && rb == (if m > 0.0 then m * ra else -m * ra) && sign == (if m > 0.0 then 1.0 else -1.0)
    ensures m * x == sign * (ra * rb)
  {
    assert ra * (m * ra) == m * (ra * ra);
    assert ra * (-m * ra) == -(m * (ra * ra));
  }

  /** Scaling one vector by a positive factor leaves the similarity to any other as it is. */
  lemma CosineScaleFree(a: seq<real>, b: seq<real>, c: seq<real>, m: real, ra: real, rb: real, rc: real)
    requires |a| == |b| && m > 0.0 && forall i :: 0 <= i < |a| ==> b[i] == m * a[i]
    requires IsRoot(ra, Dot(a, a)) && IsRoot(rb, Dot(b, b)) && IsRoot(rc, Dot(c, c))
    ensures Cosine(b, c, rb, rc) == Cosine(a, c, ra, rc)
  {
    if |a| != |c| || ra == 0.0 || rc == 0.0 {
      MultipleDots(a, b, m);
      if ra == 0.0 { ZeroMultiple(Dot(a, a), Dot(a, b), Dot(b, b), m, ra, rb); }
      CosineZero(a, c, ra, rc);
      CosineZero(b, c, rb, rc);
    } else {
      ScaledCosine(a, b, c, m, ra, rb, rc);
    }
  }

  lemma ScaledCosine(a: seq<real>, b: seq<real>, c: seq<real>, m: real, ra: real, rb: real, rc: real)
    requires |a| == |b| == |c| && m > 0.0 && forall i :: 0 <= i < |a| ==> b[i] == m * a[i]
    requires IsRoot(ra, Dot(a, a)) && IsRoot(rb, Dot(b, b)) && ra > 0.0 && rc > 0.0
    ensures Cosine(b, c, rb, rc) == Cosine(a, c, ra, rc)
  {
    MultipleDots(a, b, m);
    MultipleRoot(Dot(a, a), Dot(a, b), Dot(b, b), m, ra, rb);
    if |a| > 0 { ScaledRatio(a, b, c, m, ra, rb, rc); }
  }

  lemma ScaledRatio(a: seq<real>, b: seq<real>, c: seq<real>, m: real, ra: real, rb: real, rc: real)
    requires |a| == |b| == |c| > 0 && forall i :: 0 <= i < |a| ==> b[i] == m * a[i]
    requires m > 0.0 && ra > 0.0 && rc > 0.0 && rb == m * ra && rb > 0.0
    ensures Cosine(b, c, rb, rc) == Cosine(a, c, ra, rc)
  {
    DotTimes(a, b, c, m);
    SameQuotient(Dot(a, c), Dot(b, c), m, ra, rb, rc);
  }

  lemma ZeroMultiple(x: real, p: real, q: real, m: real, ra: real, rb: real)
    requires ra == 0.0 && IsRoot(ra, x) && IsRoot(rb, q) && Multiples(x, p, q, m)
    ensures rb == 0.0
  {
    SquareZero(ra);
    TimesZero(m, x, p);
    TimesZero(m, p, q);
    RootOfZero(rb, q);
  }

  lemma RootOfZero(r: real, q: real)
    requires IsRoot(r, q) && q == 0.0
    ensures r == 0.0
  {
    if r > 0.0 {
      calc {
        q;
        r * r;
      > { ProductPositive(r, r); }
        0.0;
      }
    }
  }

  lemma TimesZero(m: real, x: real, y: real)
    requires x == 0.0 && y == m * x
    ensures y == 0.0
  {
  }

  lemma SameQuotient(p: real, q: real, m: real, ra: real, rb: real, rc: real)
    requires m > 0.0 && ra > 0.0 && rb > 0.0 && rc > 0.0 && rb == m * ra && q == m * p
    ensures ra * rc > 0.0 && rb * rc > 0.0 && p / (ra * rc) == q / (rb * rc)
  {
    ProductPositive(ra, rc);
    ProductPositive(rb, rc);
    var d, x := ra * rc, p / (ra * rc);
    QuotientTimes(p, d);
    assert rb * rc == m * d;
    assert x * (m * d) == m * (x * d);
    QuotientIs(q, rb * rc, x);
  }

  lemma QuotientIs(p: real, d: real, x: real)
    requires d > 0.0 && x * d == p
    ensures p / d == x
  {
    QuotientTimes(p, d);
    CancelFactor(p / d, x, d);
    CancelFactor(x, p / d, d);
  }

  /** Entry i of an embedding times the norm of the counts is the number of tokens that hash to i. */
  lemma EmbeddingEntry(tokens: seq<string>, dim: nat, hash: string -> nat, root: real, v: seq<real>, i: nat)
    requires i < dim && IsRoot(root, Dot(Counts(tokens, dim, hash), Counts(tokens, dim, hash)))
    requires v == Scaled(Counts(tokens, dim, hash), NormOf(root))
    ensures |v| == dim && v[i] * (if root == 0.0 then 1.0 else root) == |HashedTo(tokens, dim, hash, i)| as real
  {
    CountsMeaning(tokens, dim, hash, i);
    QuotientTimes(Counts(tokens, dim, hash)[i], NormOf(root));
  }
}
