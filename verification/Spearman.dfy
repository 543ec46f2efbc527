/**
 Spearman's rho in its two forms: 1 - 6*sum(d^2)/(n(n^2-1)) on ordinal ranks
 (paper/build_selection_robustness_assets.py, paper/build_stability_assets.py and the bootstrap of
 paper/build_public_scorer_sensitivity_assets.py), and the Pearson correlation of average ranks
 (paper/build_public_scorer_sensitivity_assets.py, _spearman).
 */
module Spearman {
  import opened Finite
  import opened Sums
  import opened Ranks
  import opened Outcomes

  /** `count * (count * count - 1)`. */
  function Denominator(n: nat): int {
    n * (n * n - 1)
  }

  function Differences(l: seq<nat>, r: seq<nat>): (d: seq<real>)
    requires |l| == |r|
    ensures |d| == |l| && forall i :: 0 <= i < |l| ==> d[i] == l[i] as real - r[i] as real
  {
    seq(|l|, i requires 0 <= i < |l| => l[i] as real - r[i] as real)
  }

  /** `_spearman_from_ranks`; dividing by zero, for fewer than two entries, raises. */
  function FromRanks(l: seq<nat>, r: seq<nat>): Option<real>
    requires |l| == |r|
  {
    if Denominator(|l|) == 0 then None
    else Some(1.0 - 6.0 * SumSquares(Differences(l, r)) / Denominator(|l|) as real)
  }

  /** `_spearman` on raw values, which answers 1 for fewer than two entries. */
  ghost function FromValues(v: seq<real>, w: seq<real>): real
    requires |v| == |w|
  {
    if |v| < 2 then 1.0 else
      DenominatorPositive(|v|);
      FromRanks(OrdinalRankSeq(v), OrdinalRankSeq(w)).value
  }

  lemma DenominatorPositive(n: nat)
    ensures Denominator(n) == 0 <==> n < 2
    ensures n >= 2 ==> Denominator(n) > 0
  {
    if n >= 2 {
      assert n * n >= 2 * n;
      assert n * (n * n - 1) > 0;
    }
  }

  // ---- moments of a ranking ----

  function Numbers(n: nat): (s: seq<real>)
    ensures |s| == n && forall k :: 0 <= k < n ==> s[k] == (k + 1) as real
  {
    seq(n, k => (k + 1) as real)
  }

  function Reals(r: seq<nat>): (s: seq<real>)
    ensures |s| == |r| && forall i :: 0 <= i < |r| ==> s[i] == r[i] as real
  {
    seq(|r|, i requires 0 <= i < |r| => r[i] as real)
  }

  ghost function PlacementRow(a: seq<real>, at: nat): (row: seq<real>)
    requires at < |a|
    ensures |row| == |a| && forall j :: 0 <= j < |a| ==> row[j] == if j == at then a[j] else 0.0
  {
    seq(|a|, j requires 0 <= j < |a| => if j == at then a[j] else 0.0)
  }

  /** A sum does not depend on the order of its terms. */
  lemma SumPermuted(a: seq<real>, order: seq<nat>, b: seq<real>)
    requires |a| == |order| == |b| && IsPermutation(order)
    requires forall t :: 0 <= t < |b| ==> order[t] < |a| && b[t] == a[order[t]]
    ensures Sum(b) == Sum(a)
  {
    hide Sum;
    var n := |a|;
    var m := seq(n, t requires 0 <= t < n => PlacementRow(a, order[t]));
    SumSwap(m, n);
    forall t | 0 <= t < n ensures RowSums(m)[t] == b[t] {
      SumOne(m[t], order[t], a[order[t]]);
    }
    forall j | 0 <= j < n ensures ColumnSums(m, n)[j] == a[j] {
      PermutationCovers(order, j);
      var t :| 0 <= t < n && order[t] == j;
      SumOne(Column(m, n, j), t, a[j]);
    }
    assert RowSums(m) == b;
    assert ColumnSums(m, n) == a;
  }

  /** Summing any quantity over a ranking sums it over 1..n. */
  lemma SumOverRanking(r: seq<nat>, a: seq<real>, b: seq<real>)
    requires IsRanking(r) && |a| == |b| == |r|
    requires forall i :: 0 <= i < |b| ==> b[i] == a[r[i] - 1]
    ensures Sum(b) == Sum(a)
  {
    var order := seq(|r|, i requires 0 <= i < |r| => r[i] - 1);
    SumPermuted(a, order, b);
  }

  lemma NumbersSplit(n: nat, x: real)
    requires n > 0 && x == n as real
    ensures Sum(Numbers(n)) == Sum(Numbers(n - 1)) + x
    ensures SumSquares(Numbers(n)) == SumSquares(Numbers(n - 1)) + x * x
  {
    assert Numbers(n)[..n - 1] == Numbers(n - 1);
  }

  lemma NumberStep(n: nat, x: real, before: real, after: real)
    requires n > 0 && x == n as real && after == before + x && 2.0 * before == ((n - 1) * n) as real
    ensures 2.0 * after == (n * (n + 1)) as real
  {
  }

  lemma {:induction false} SumOfNumbers(n: nat)
    ensures 2.0 * Sum(Numbers(n)) == (n * (n + 1)) as real
  {
    if n > 0 {
      hide Sum;
      SumOfNumbers(n - 1);
      NumbersSplit(n, n as real);
      NumberStep(n, n as real, Sum(Numbers(n - 1)), Sum(Numbers(n)));
    }
  }

  lemma {:induction false} SumOfSquares(n: nat)
    ensures 6.0 * SumSquares(Numbers(n)) == (n * (n + 1) * (2 * n + 1)) as real
  {
    if n > 0 {
      hide SumSquares;
      var x := n as real;
      SumOfSquares(n - 1);
      NumbersSplit(n, x);
      SquareStep(n, x, SumSquares(Numbers(n - 1)), SumSquares(Numbers(n)), x * x);
    }
  }

  lemma SquareStep(n: nat, x: real, before: real, after: real, square: real)
    requires n > 0 && x == n as real && square == x * x && after == before + square
    requires 6.0 * before == ((n - 1) * n * (2 * (n - 1) + 1)) as real
    ensures 6.0 * after == (n * (n + 1) * (2 * n + 1)) as real
  {
    CubeStep(n);
    assert square == (n * n) as real;
  }

  lemma CubeStep(n: nat)
    ensures n * (n + 1) * (2 * n + 1) == (n - 1) * n * (2 * (n - 1) + 1) + 6 * (n * n)
  {
  }

  /** How far each rank lies below the middle rank (n+1)/2. */
  function Centered(r: seq<nat>): (c: seq<real>)
    ensures |c| == |r| && forall i :: 0 <= i < |r| ==> c[i] == (|r| + 1) as real / 2.0 - r[i] as real
  {
    seq(|r|, i requires 0 <= i < |r| => (|r| + 1) as real / 2.0 - r[i] as real)
  }

  lemma RankMoments(r: seq<nat>)
    requires IsRanking(r)
    ensures Sum(Reals(r)) == Sum(Numbers(|r|))
    ensures SumSquares(Reals(r)) == SumSquares(Numbers(|r|))
  {
    hide Sum, Dot;
    SumOverRanking(r, Numbers(|r|), Reals(r));
    DotIsSum(Reals(r), Reals(r));
    DotIsSum(Numbers(|r|), Numbers(|r|));
    SumOverRanking(r, Products(Numbers(|r|), Numbers(|r|)), Products(Reals(r), Reals(r)));
  }

  /** Every ranking of n entries has the same spread: n(n^2-1)/12. */
  lemma RankSpread(r: seq<nat>)
    requires IsRanking(r)
    ensures 12.0 * SumSquares(Centered(r)) == Denominator(|r|) as real
    ensures Sum(Centered(r)) == 0.0
  {
    hide *;
    var n := |r|;
    RankMoments(r);
    SumOfNumbers(n);
    SumOfSquares(n);
    CenteredSpread(n, (n + 1) as real / 2.0, Reals(r), Centered(r));
  }

  lemma CenteredSpread(n: nat, c: real, a: seq<real>, d: seq<real>)
    requires |a| == |d| == n && forall i :: 0 <= i < n ==> d[i] == c - a[i]
    requires c == (n + 1) as real / 2.0
    requires 2.0 * Sum(a) == (n * (n + 1)) as real && 6.0 * SumSquares(a) == (n * (n + 1) * (2 * n + 1)) as real
    ensures 12.0 * SumSquares(d) == Denominator(n) as real
    ensures Sum(d) == 0.0
  {
    hide *;
    ShiftedSquares(a, c, d);
    var negated := Scaled(-1.0, d);
    SumScale(d, -1.0, negated);
    SumShift(a, c, negated);
    SpreadAlgebra(n, c, Sum(a), SumSquares(a), SumSquares(d), Sum(d));
  }

  /** Squared distances from a constant, expanded. */
  lemma ShiftedSquares(a: seq<real>, c: real, d: seq<real>)
    requires |a| == |d| && forall i :: 0 <= i < |a| ==> d[i] == c - a[i]
    ensures SumSquares(d) == SumSquares(a) - 2.0 * (c * Sum(a)) + |a| as real * (c * c)
  {
    hide Sum, Dot;
    var cs := seq(|a|, i => c);
    SquareExpand(d, a, cs);
    DotConst(cs, cs, c);
    SumConst(cs, c);
    DotAdd(d, a, a, cs);
    DotSymmetric(cs, a);
    DotConst(a, cs, c);
    Reassociate(|a| as real, c);
  }

  lemma Reassociate(n: real, c: real)
    ensures c * (n * c) == n * (c * c)
  {
  }

  lemma SpreadAlgebra(n: nat, c: real, s: real, q: real, spread: real, total: real)
    requires c == (n + 1) as real / 2.0 && 2.0 * s == (n * (n + 1)) as real
              && 6.0 * q == (n * (n + 1) * (2 * n + 1)) as real
    requires spread == q - 2.0 * (c * s) + n as real * (c * c) && -1.0 * total == s - n as real * c
    ensures 12.0 * spread == Denominator(n) as real
    ensures total == 0.0
  {
    hide Denominator;
    Casts(n, n as real);
    Polynomials(n as real, c, s, q);
  }

  lemma ProductCast(a: nat, b: nat, x: real, y: real)
    requires x == a as real && y == b as real
    ensures (a * b) as real == x * y
  {
  }

  lemma Casts(n: nat, x: real)
    requires x == n as real
    ensures (n * (n + 1)) as real == x * (x + 1.0)
    ensures (n * (n + 1) * (2 * n + 1)) as real == x * (x + 1.0) * (2.0 * x + 1.0)
    ensures Denominator(n) as real == x * (x * x - 1.0)
  {
    ProductCast(n, n + 1, x, x + 1.0);
    ProductCast(n * (n + 1), 2 * n + 1, x * (x + 1.0), 2.0 * x + 1.0);
    ProductCast(n, n, x, x);
    DenominatorCast(n, n * n, x, x * x);
  }

  lemma DenominatorCast(n: nat, square: nat, x: real, xx: real)
    requires x == n as real && square == n * n && xx == square as real
    ensures Denominator(n) as real == x * (xx - 1.0)
  {
    if n > 0 {
      ProductCast(n, square - 1, x, xx - 1.0);
    }
  }

  lemma Polynomials(x: real, c: real, s: real, q: real)
    requires 2.0 * c == x + 1.0 && 2.0 * s == x * (x + 1.0) && 6.0 * q == x * (x + 1.0) * (2.0 * x + 1.0)
    ensures 12.0 * (q - 2.0 * (c * s) + x * (c * c)) == x * (x * x - 1.0)
    ensures s == x * c
  {
    assert s == x * c;
    assert c * s == x * (c * c);
    assert 4.0 * (c * c) == (x + 1.0) * (x + 1.0);
  }

  // ---- both forms through the co-spread of centred ranks ----

  ghost function CoSpread(l: seq<nat>, r: seq<nat>): real
    requires |l| == |r|
  {
    Dot(Centered(l), Centered(r))
  }

  function Negate(a: seq<real>): (b: seq<real>)
    ensures |b| == |a| && forall i :: 0 <= i < |a| ==> b[i] == -1.0 * a[i]
  {
    seq(|a|, i requires 0 <= i < |a| => -1.0 * a[i])
  }

  lemma {:induction false} DotNegate(a: seq<real>, b: seq<real>)
    requires |a| == |b|
    ensures Dot(Negate(a), b) == -Dot(a, b)
    ensures Dot(a, Negate(b)) == -Dot(a, b)
  {
    if a != [] {
      var n := |a| - 1;
      assert Negate(a)[..n] == Negate(a[..n]);
      assert Negate(b)[..n] == Negate(b[..n]);
      DotNegate(a[..n], b[..n]);
      NegateProduct(a[n], b[n]);
    }
  }

  lemma NegateProduct(x: real, y: real)
    ensures (-1.0 * x) * y == -(x * y)
    ensures x * (-1.0 * y) == -(x * y)
  {
  }

  /** Squared rank differences, and squared sums about the middle, in terms of the spread and co-spread. */
  lemma SquaredDifferences(l: seq<nat>, r: seq<nat>, sums: seq<real>)
    requires IsRanking(l) && IsRanking(r) && |l| == |r| == |sums|
    requires forall i :: 0 <= i < |l| ==> sums[i] == Centered(l)[i] + Centered(r)[i]
    ensures SumSquares(Differences(l, r)) == Denominator(|l|) as real / 6.0 - 2.0 * CoSpread(l, r)
    ensures SumSquares(sums) == Denominator(|l|) as real / 6.0 + 2.0 * CoSpread(l, r)
  {
    hide Sum, Dot, Denominator, SumSquares, Negate;
    var a, b := Centered(l), Centered(r);
    RankSpread(l);
    RankSpread(r);
    SquareExpand(a, b, sums);
    var na := Negate(a);
    SquareExpand(na, b, Differences(l, r));
    NegatedSquares(a, b);
  }

  lemma NegatedSquares(a: seq<real>, b: seq<real>)
    requires |a| == |b|
    ensures SumSquares(Negate(a)) == SumSquares(a)
    ensures Dot(Negate(a), b) == -Dot(a, b)
  {
    hide Dot, Negate;
    DotNegate(a, b);
    DotNegate(a, Negate(a));
    DotNegate(a, a);
  }

  /** Rho times the spread is the co-spread. */
  lemma RhoIsCoSpread(l: seq<nat>, r: seq<nat>)
    requires IsRanking(l) && IsRanking(r) && |l| == |r| >= 2
    ensures FromRanks(l, r).Some?
    ensures FromRanks(l, r).value * SumSquares(Centered(l)) == CoSpread(l, r)
  {
    hide Sum, Dot, Denominator, SumSquares, CoSpread, Differences;
    DenominatorPositive(|l|);
    var sums := Plus(Centered(l), Centered(r));
    SquaredDifferences(l, r, sums);
    RankSpread(l);
    RhoAlgebra(
      SumSquares(Differences(l, r)), Denominator(|l|) as real, CoSpread(l, r), SumSquares(Centered(l)),
      FromRanks(l, r).value);
  }

  lemma RhoAlgebra(d: real, den: real, co: real, spread: real, rho: real)
    requires den > 0.0 && 12.0 * spread == den && d == den / 6.0 - 2.0 * co && rho == 1.0 - 6.0 * d / den
    ensures rho * spread == co
  {
    var q := 6.0 * d / den;
    assert q * den == 6.0 * d;
    assert q * spread == d / 2.0;
    MulAdd(1.0, -q, spread);
  }

  /** Rho lies in [-1, 1]; it is 1 exactly for equal rankings and -1 exactly for reversed ones. */
  lemma RhoBounds(l: seq<nat>, r: seq<nat>)
    requires IsRanking(l) && IsRanking(r) && |l| == |r| >= 2
    ensures FromRanks(l, r).Some?
    ensures -1.0 <= FromRanks(l, r).value <= 1.0
    ensures FromRanks(l, r).value == 1.0 <==> l == r
    ensures FromRanks(l, r).value == -1.0 <==> forall i :: 0 <= i < |l| ==> l[i] + r[i] == |l| + 1
  {
    hide Sum, Dot, Denominator, SumSquares, CoSpread;
    var d, sums := Differences(l, r), Plus(Centered(l), Centered(r));
    DenominatorPositive(|l|);
    SquaredDifferences(l, r, sums);
    SumSquaresNonneg(d);
    SumSquaresNonneg(sums);
    RhoSides(SumSquares(d), SumSquares(sums), Denominator(|l|) as real, FromRanks(l, r).value);
    if forall i :: 0 <= i < |d| ==> d[i] == 0.0 {
      assert forall i :: 0 <= i < |l| ==> d[i] == 0.0 && l[i] == r[i];
      assert l == r;
    }
    forall i | 0 <= i < |l| ensures sums[i] == 0.0 <==> l[i] + r[i] == |l| + 1 {
    }
  }

  lemma RhoSides(d: real, e: real, den: real, rho: real)
    requires den > 0.0 && d + e == den / 3.0 && rho == 1.0 - 6.0 * d / den
    ensures d >= 0.0 ==> rho <= 1.0
    ensures e >= 0.0 ==> rho >= -1.0
    ensures rho == 1.0 <==> d == 0.0
    ensures rho == -1.0 <==> e == 0.0
  {
    var q := 6.0 * d / den;
    assert q * den == 6.0 * d;
    QuotientSign(q, den, 6.0 * d);
    MulAdd(2.0, -q, den);
    QuotientSign(2.0 - q, den, 6.0 * e);
  }

  lemma QuotientSign(q: real, den: real, p: real)
    requires den > 0.0 && q * den == p
    ensures p >= 0.0 ==> q >= 0.0
    ensures p == 0.0 <==> q == 0.0
  {
    if q > 0.0 {
      MulPositive(q, den, p);
    } else if q < 0.0 {
      MulPositive(-q, den, -p);
    }
  }

  /** A Pearson correlation, free of square roots: the signed root of Sxy^2 / (Sxx * Syy). */
  ghost predicate IsCorrelation(x: seq<real>, y: seq<real>, rho: real)
    requires |x| == |y|
  {
    |x| > 0 &&
    var dx, dy := AboutMean(x), AboutMean(y);
    var sxx, syy, sxy := SumSquares(dx), SumSquares(dy), Dot(dx, dy);
    sxx > 0.0 && syy > 0.0 && rho * rho * (sxx * syy) == sxy * sxy && rho * sxy >= 0.0
  }

  function AboutMean(x: seq<real>): (d: seq<real>)
    requires |x| > 0
    ensures |d| == |x| && forall i :: 0 <= i < |x| ==> d[i] == x[i] - Mean(Sum(x), |x|)
  {
    seq(|x|, i requires 0 <= i < |x| => x[i] - Mean(Sum(x), |x|))
  }

  /** There is at most one correlation. */
  lemma CorrelationUnique(x: seq<real>, y: seq<real>, a: real, b: real)
    requires |x| == |y| && IsCorrelation(x, y, a) && IsCorrelation(x, y, b)
    ensures a == b
  {
    hide SumSquares, Dot, AboutMean, Sum;
    var dx, dy := AboutMean(x), AboutMean(y);
    var k, s := SumSquares(dx) * SumSquares(dy), Dot(dx, dy);
    MulPositive(SumSquares(dx), SumSquares(dy), k);
    SignedRoot(k, s, s * s, a, a * a, b, b * b);
  }

  lemma SignedRoot(k: real, s: real, ss: real, a: real, aa: real, b: real, bb: real)
    requires k > 0.0 && ss == s * s && aa == a * a && bb == b * b
    requires aa * k == ss && bb * k == ss && a * s >= 0.0 && b * s >= 0.0
    ensures a == b
  {
    CancelFactor(k, aa, bb);
    SameSquare(a, b, aa);
    if a == -b {
      MulAdd(a, b, s);
      RootVanishes(k, s, ss, a, aa);
    }
  }

  lemma SameSquare(a: real, b: real, q: real)
    requires a * a == q && b * b == q
    ensures a == b || a == -b
  {
    assert (a - b) * (a + b) == 0.0;
    if a != b {
      CancelFactor(a - b, a + b, 0.0);
    }
  }

  lemma RootVanishes(k: real, s: real, ss: real, a: real, aa: real)
    requires k > 0.0 && ss == s * s && aa == a * a && aa * k == ss && a * s == 0.0
    ensures a == 0.0
  {
    SquareNonneg(a, aa);
    if s != 0.0 {
      CancelFactor(s, a, 0.0);
    } else {
      CancelFactor(k, aa, 0.0);
    }
  }

  // ---- the two forms agree without ties ----

  lemma TieFreeRanks(v: seq<real>, i: nat)
    requires Distinct(v) && i < |v|
    ensures MidRank(v, i) == |v| as real + 1.0 - OrdinalRank(v, i) as real
  {
    Trichotomy(v, v[i]);
    assert Equal(v, v[i]) == {i};
    assert Ahead(v, i) == Greater(v, v[i]);
  }

  /** Without ties, average ranks about their mean are the centred ordinal ranks. */
  lemma TieFreeCentering(v: seq<real>)
    requires Distinct(v) && |v| > 0
    ensures AboutMean(MidRankSeq(v)) == Centered(OrdinalRankSeq(v))
  {
    hide Sum, MidRank, OrdinalRank;
    var n, mean := |v| as real, Mean(Sum(MidRankSeq(v)), |v|);
    MidRanksTotal(v);
    MiddleRank(n, mean, Sum(MidRankSeq(v)));
    forall i | 0 <= i < |v| ensures AboutMean(MidRankSeq(v))[i] == Centered(OrdinalRankSeq(v))[i] {
      TieFreeRanks(v, i);
    }
  }

  lemma MiddleRank(n: real, mean: real, s: real)
    requires n > 0.0 && mean * n == s && 2.0 * s == n * (n + 1.0)
    ensures mean == (n + 1.0) / 2.0
  {
    assert 2.0 * (mean * n) == n * (2.0 * mean);
    CancelFactor(n, 2.0 * mean, n + 1.0);
  }

  /** For tie-free vectors the closed form on ordinal ranks is the Pearson correlation of the average ranks. */
  lemma ClosedFormIsCorrelation(v: seq<real>, w: seq<real>)
    requires |v| == |w| >= 2 && Distinct(v) && Distinct(w)
    ensures IsCorrelation(MidRankSeq(v), MidRankSeq(w), FromValues(v, w))
  {
    hide Sum, Dot, Denominator, SumSquares, FromRanks, MidRankSeq, OrdinalRankSeq, AboutMean, Centered;
    var l, r := OrdinalRankSeq(v), OrdinalRankSeq(w);
    OrdinalRanksAreRanking(v);
    OrdinalRanksAreRanking(w);
    TieFreeCentering(v);
    TieFreeCentering(w);
    RhoIsCoSpread(l, r);
    RankSpread(l);
    RankSpread(r);
    DenominatorPositive(|l|);
    var rho, spread, co := FromValues(v, w), SumSquares(Centered(l)), CoSpread(l, r);
    CorrelationAlgebra(rho, spread, co);
  }

  lemma CorrelationAlgebra(rho: real, spread: real, co: real)
    requires spread > 0.0 && rho * spread == co
    ensures rho * rho * (spread * spread) == co * co
    ensures rho * co >= 0.0
  {
    var square := rho * rho;
    SquareNonneg(rho, square);
    assert rho * co == square * spread;
    if square > 0.0 {
      MulPositive(square, spread, rho * co);
    }
  }

  /** A constant vector: its ordinal ranks follow the positions, and there is no correlation to compare with. */
  lemma TiesDisagree()
    ensures FromValues([1.0, 1.0], [2.0, 1.0]) == 1.0
    ensures forall rho :: !IsCorrelation(MidRankSeq([1.0, 1.0]), MidRankSeq([2.0, 1.0]), rho)
  {
    var v, w := [1.0, 1.0], [2.0, 1.0];
    assert Ahead(v, 0) == {} && Ahead(v, 1) == {0};
    assert Ahead(w, 0) == {} && Ahead(w, 1) == {0};
    assert OrdinalRankSeq(v) == [1, 2] == OrdinalRankSeq(w);
    OrdinalRanksAreRanking(v);
    RhoBounds(OrdinalRankSeq(v), OrdinalRankSeq(w));
    assert Less(v, 1.0) == {} && Equal(v, 1.0) == {0, 1};
    assert MidRankSeq(v) == [1.5, 1.5];
    ConstantHasNoSpread(MidRankSeq(v), 1.5);
  }

  lemma ConstantHasNoSpread(x: seq<real>, c: real)
    requires |x| > 0 && forall i :: 0 <= i < |x| ==> x[i] == c
    ensures SumSquares(AboutMean(x)) == 0.0
  {
    hide Sum, Dot;
    SumConst(x, c);
    CancelFactor(|x| as real, Mean(Sum(x), |x|), c);
    SumSquaresNonneg(AboutMean(x));
  }
}
