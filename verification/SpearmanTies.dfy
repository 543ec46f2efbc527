/**
 The two forms of Spearman's rho under ties. Ordinal ranks break ties by position, so the closed form depends on
 the order in which the entries are listed; the correlation of average ranks does not. The two agree in every
 order exactly when nothing is tied, or when both vectors put the entries in one and the same weak order.
 */
module SpearmanTies {
  import opened Finite
  import opened Ranks
  import opened Spearman
  import opened Sums

  /** The closed form on ordinal ranks is the Pearson correlation of the average ranks. */
  ghost predicate Agrees(v: seq<real>, w: seq<real>)
    requires |v| == |w|
  {
    IsCorrelation(MidRankSeq(v), MidRankSeq(w), FromValues(v, w))
  }

  function Reordered(v: seq<real>, order: seq<nat>): (r: seq<real>)
    requires forall t :: 0 <= t < |order| ==> order[t] < |v|
    ensures |r| == |order| && forall t :: 0 <= t < |r| ==> r[t] == v[order[t]]
  {
    seq(|order|, t requires 0 <= t < |order| => v[order[t]])
  }

  /** The forms agree however the paired entries are listed. */
  ghost predicate AgreesInEveryOrder(v: seq<real>, w: seq<real>)
    requires |v| == |w|
  {
    forall order: seq<nat> :: |order| == |v| && IsPermutation(order) ==>
      Agrees(Reordered(v, order), Reordered(w, order))
  }

  predicate Constant(v: seq<real>) {
    forall i, j :: 0 <= i < |v| && 0 <= j < |v| ==> v[i] == v[j]
  }

  predicate SameOrder(v: seq<real>, w: seq<real>)
    requires |v| == |w|
  {
    forall i, j :: 0 <= i < |v| && 0 <= j < |v| ==> (v[i] < v[j] <==> w[i] < w[j])
  }

  predicate SameTies(v: seq<real>, w: seq<real>)
    requires |v| == |w|
  {
    forall i, j :: 0 <= i < |v| && 0 <= j < |v| ==> (v[i] == v[j] <==> w[i] == w[j])
  }

  // ---- what breaking ties by position adds to a centred rank ----

  /** The entries of the same value further left. */
  ghost function Before(v: seq<real>, i: nat): (s: set<nat>)
    requires i < |v|
    ensures forall k: nat {:trigger k in s} :: k in s <==> k < i && v[k] == v[i]
  {
    set k: nat | k < i && v[k] == v[i]
  }

  /** The entries of the same value further right. */
  ghost function After(v: seq<real>, i: nat): (s: set<nat>)
    requires i < |v|
    ensures forall k: nat {:trigger k in s} :: k in s <==> i < k < |v| && v[k] == v[i]
  {
    set k: nat | i < k < |v| && v[k] == v[i]
  }

  lemma EqualSplits(v: seq<real>, i: nat)
    requires i < |v|
    ensures |Equal(v, v[i])| == |Before(v, i)| + 1 + |After(v, i)|
  {
    var b, a := Before(v, i), After(v, i);
    assert Equal(v, v[i]) == b + {i} + a;
    assert b !! {i} && (b + {i}) !! a;
  }

  lemma AheadSplits(v: seq<real>, i: nat)
    requires i < |v|
    ensures |Ahead(v, i)| == |Greater(v, v[i])| + |Before(v, i)|
  {
    assert Ahead(v, i) == Greater(v, v[i]) + Before(v, i);
    assert Greater(v, v[i]) !! Before(v, i);
  }

  ghost function Offsets(v: seq<real>): (t: seq<real>)
    ensures |t| == |v|
    ensures forall i :: 0 <= i < |v| ==> 2.0 * t[i] == |After(v, i)| as real - |Before(v, i)| as real
  {
    seq(|v|, i requires 0 <= i < |v| => (|After(v, i)| as real - |Before(v, i)| as real) / 2.0)
  }

  lemma MiddleMean(v: seq<real>)
    requires |v| > 0
    ensures Mean(Sum(MidRankSeq(v)), |v|) == (|v| as real + 1.0) / 2.0
  {
    hide Sum, MidRankSeq;
    MidRanksTotal(v);
    MiddleRank(|v| as real, Mean(Sum(MidRankSeq(v)), |v|), Sum(MidRankSeq(v)));
  }

  /** A centred ordinal rank is the centred average rank plus the offset. */
  lemma CenteringSplits(v: seq<real>)
    requires |v| > 0
    ensures forall i :: 0 <= i < |v| ==>
              Centered(OrdinalRankSeq(v))[i] == AboutMean(MidRankSeq(v))[i] + Offsets(v)[i]
  {
    hide Sum, AboutMean;
    MiddleMean(v);
    forall i | 0 <= i < |v|
      ensures Centered(OrdinalRankSeq(v))[i] == AboutMean(MidRankSeq(v))[i] + Offsets(v)[i]
    {
      EqualSplits(v, i);
      AheadSplits(v, i);
      Trichotomy(v, v[i]);
    }
  }

  // ---- offsets are orthogonal to anything constant on ties ----

  function TieSign(v: seq<real>, i: nat, j: nat): real
    requires i < |v| && j < |v|
  {
    if v[i] != v[j] || i == j then 0.0 else if i < j then 1.0 else -1.0
  }

  function TieSigns(v: seq<real>, i: nat): (s: seq<real>)
    requires i < |v|
    ensures |s| == |v| && forall j :: 0 <= j < |v| ==> s[j] == TieSign(v, i, j)
  {
    seq(|v|, j requires 0 <= j < |v| => TieSign(v, i, j))
  }

  ghost function Members(n: nat, a: set<nat>): (s: seq<real>)
    ensures |s| == n && forall j: nat :: j < n ==> s[j] == if j in a then 1.0 else 0.0
  {
    seq(n, j => if j in a then 1.0 else 0.0)
  }

  lemma TieSignsSum(v: seq<real>, i: nat)
    requires i < |v|
    ensures Sum(TieSigns(v, i)) == 2.0 * Offsets(v)[i]
  {
    hide Sum;
    var a, b := Members(|v|, After(v, i)), Members(|v|, Before(v, i));
    IndicatorSum(a, After(v, i));
    IndicatorSum(b, Before(v, i));
    SumSub(a, b, TieSigns(v, i));
  }

  ghost function Weighted(v: seq<real>, m: seq<real>): (p: seq<seq<real>>)
    requires |m| == |v|
    ensures |p| == |v| && Rectangular(p, |v|)
    ensures forall i :: 0 <= i < |v| ==> p[i] == Scaled(m[i], TieSigns(v, i))
  {
    seq(|v|, i requires 0 <= i < |v| => Scaled(m[i], TieSigns(v, i)))
  }

  ghost predicate RespectsTies(v: seq<real>, m: seq<real>)
    requires |m| == |v|
  {
    forall i, j :: 0 <= i < |v| && 0 <= j < |v| && v[i] == v[j] ==> m[i] == m[j]
  }

  lemma RowWeighs(v: seq<real>, m: seq<real>, i: nat)
    requires |m| == |v| && i < |v|
    ensures RowSums(Weighted(v, m))[i] == 2.0 * Products(m, Offsets(v))[i]
  {
    hide Sum, Offsets, TieSigns;
    TieSignsSum(v, i);
    SumScale(TieSigns(v, i), m[i], Weighted(v, m)[i]);
    DoubleRight(m[i], Offsets(v)[i]);
  }

  lemma ColumnMirrors(v: seq<real>, m: seq<real>, i: nat)
    requires |m| == |v| && RespectsTies(v, m) && i < |v|
    ensures ColumnSums(Weighted(v, m), |v|)[i] == -1.0 * RowSums(Weighted(v, m))[i]
  {
    hide Sum, RespectsTies;
    var p := Weighted(v, m);
    var row, column := p[i], Column(p, |v|, i);
    forall j | 0 <= j < |v| ensures column[j] == -1.0 * row[j] {
      EntryMirrors(v, m, i, j);
    }
    SumScale(row, -1.0, column);
  }

  lemma EntryMirrors(v: seq<real>, m: seq<real>, i: nat, j: nat)
    requires |m| == |v| && RespectsTies(v, m) && i < |v| && j < |v|
    ensures Weighted(v, m)[j][i] == -1.0 * Weighted(v, m)[i][j]
  {
    TurnSign(m[i], m[j], TieSign(v, i, j), TieSign(v, j, i));
  }

  lemma TurnSign(a: real, b: real, s: real, t: real)
    requires t == -s && (s == 0.0 || a == b)
    ensures b * t == -1.0 * (a * s)
  {
    if s != 0.0 {
      assert b * t == -(a * s);
    }
  }

  lemma OffsetsOrthogonal(v: seq<real>, m: seq<real>)
    requires |m| == |v| && RespectsTies(v, m)
    ensures Dot(m, Offsets(v)) == 0.0
  {
    hide *;
    var p := Weighted(v, m);
    var rows, columns, products := RowSums(p), ColumnSums(p, |v|), Products(m, Offsets(v));
    SumSwap(p, |v|);
    forall i | 0 <= i < |v| ensures columns[i] == -1.0 * rows[i] && rows[i] == 2.0 * products[i] {
      RowWeighs(v, m, i);
      ColumnMirrors(v, m, i);
    }
    SumScale(rows, -1.0, columns);
    SumScale(products, 2.0, rows);
    DotIsSum(m, Offsets(v));
  }

  lemma DoubleRight(a: real, b: real)
    ensures a * (2.0 * b) == 2.0 * (a * b)
  {
  }

  // ---- coincident ties ----

  /** With coincident ties, offsets coincide too. */
  lemma SameOffsets(v: seq<real>, w: seq<real>)
    requires |v| == |w| && SameTies(v, w)
    ensures Offsets(v) == Offsets(w)
  {
    forall i | 0 <= i < |v| ensures Offsets(v)[i] == Offsets(w)[i] {
      assert Before(v, i) == Before(w, i);
      assert After(v, i) == After(w, i);
    }
  }

  lemma TiedOffsets(v: seq<real>, i: nat, j: nat)
    requires i < j < |v| && v[i] == v[j]
    ensures SumSquares(Offsets(v)) > 0.0
  {
    hide SumSquares;
    SumSquaresNonneg(Offsets(v));
    EqualSplits(v, i);
    EqualSplits(v, j);
    assert Before(v, i) + {i} <= Before(v, j);
    SubsetSize(Before(v, i) + {i}, Before(v, j));
    assert Offsets(v)[i] != Offsets(v)[j];
  }

  lemma MidRanksRespectTies(v: seq<real>, w: seq<real>)
    requires |v| == |w| > 0 && SameTies(v, w)
    ensures RespectsTies(v, AboutMean(MidRankSeq(w)))
  {
    hide Sum, Less, Equal;
  }

  /** Spreads and co-spread of the ordinal ranks: those of the average ranks, plus the square of the offsets. */
  lemma SpreadsSplit(v: seq<real>, w: seq<real>)
    requires |v| == |w| > 0 && SameTies(v, w)
    ensures var x, y, t := AboutMean(MidRankSeq(v)), AboutMean(MidRankSeq(w)), SumSquares(Offsets(v));
            && SumSquares(Centered(OrdinalRankSeq(v))) == SumSquares(x) + t
            && SumSquares(Centered(OrdinalRankSeq(w))) == SumSquares(y) + t
            && CoSpread(OrdinalRankSeq(v), OrdinalRankSeq(w)) == Dot(x, y) + t
  {
    hide Sum, Dot, MidRankSeq, OrdinalRankSeq, AboutMean, Centered, Offsets, RespectsTies, SameTies;
    var x, y, t := AboutMean(MidRankSeq(v)), AboutMean(MidRankSeq(w)), Offsets(v);
    var a, b := Centered(OrdinalRankSeq(v)), Centered(OrdinalRankSeq(w));
    CenteringSplits(v);
    CenteringSplits(w);
    SameOffsets(v, w);
    TiesReflexive(v);
    MidRanksRespectTies(v, v);
    MidRanksRespectTies(v, w);
    OffsetsOrthogonal(v, x);
    OffsetsOrthogonal(v, y);
    SquareExpand(x, t, a);
    SquareExpand(y, t, b);
    DotAdd(x, t, b, a);
    DotSymmetric(x, b);
    DotSymmetric(t, b);
    DotAdd(y, t, x, b);
    DotAdd(y, t, t, b);
    DotSymmetric(x, y);
    DotSymmetric(t, x);
  }

  lemma TiesReflexive(v: seq<real>)
    ensures SameTies(v, v)
  {
  }

  /** Agreement with a correlation that leaves the squared offsets out forces rho to be 1. */
  lemma RhoForced(rho: real, spread: real, co: real, t: real)
    requires spread > 0.0 && t > 0.0
    requires rho * (spread + t) == co + t
    requires rho * rho * (spread * spread) == co * co && rho * co >= 0.0
    ensures rho == 1.0
  {
    var product := rho * spread;
    assert product * product == rho * rho * (spread * spread);
    SameSquare(product, co, co * co);
    if product == -co {
      assert rho * product == (rho * rho) * spread;
      assert rho * product == -(rho * co);
      SquareNonneg(rho, rho * rho);
      if rho != 0.0 {
        MulPositive(rho * rho, spread, (rho * rho) * spread);
      }
    }
    MulAdd(spread, t, rho);
    CancelFactor(t, rho, 1.0);
  }

  lemma EqualRanksSameOrder(v: seq<real>, w: seq<real>)
    requires |v| == |w| && SameTies(v, w) && OrdinalRankSeq(v) == OrdinalRankSeq(w)
    ensures SameOrder(v, w)
  {
    forall i, j | 0 <= i < |v| && 0 <= j < |v| ensures v[i] < v[j] <==> w[i] < w[j] {
      assert OrdinalRankSeq(v)[i] == OrdinalRankSeq(w)[i] && OrdinalRankSeq(v)[j] == OrdinalRankSeq(w)[j];
      if v[i] < v[j] {
        AheadGrows(v, j, i);
      } else if v[j] < v[i] {
        AheadGrows(v, i, j);
      }
      if w[i] < w[j] {
        AheadGrows(w, j, i);
      } else if w[j] < w[i] {
        AheadGrows(w, i, j);
      }
    }
  }

  lemma ConstantSpread(v: seq<real>)
    requires |v| > 0 && Constant(v)
    ensures SumSquares(AboutMean(MidRankSeq(v))) == 0.0
  {
    hide SumSquares, AboutMean, Less, Equal;
    forall i | 0 <= i < |v| ensures MidRankSeq(v)[i] == MidRank(v, 0) {
      assert v[i] == v[0];
    }
    ConstantHasNoSpread(MidRankSeq(v), MidRank(v, 0));
  }

  lemma AgreesMeans(v: seq<real>, w: seq<real>)
    requires |v| == |w| && Agrees(v, w)
    ensures |v| > 0
    ensures var x, y, rho := AboutMean(MidRankSeq(v)), AboutMean(MidRankSeq(w)), FromValues(v, w);
            && SumSquares(x) > 0.0 && SumSquares(y) > 0.0
            && rho * rho * (SumSquares(x) * SumSquares(y)) == Dot(x, y) * Dot(x, y)
            && rho * Dot(x, y) >= 0.0
  {
    hide FromValues, SumSquares, Dot, AboutMean, MidRankSeq;
  }

  /** With coincident ties, rho forms the same product with the spreads of both kinds of ranks. */
  lemma ForcedByTie(v: seq<real>, w: seq<real>, i: nat, j: nat)
    requires |v| == |w| && SameTies(v, w) && i < j < |v| && v[i] == v[j] && Agrees(v, w)
    ensures FromValues(v, w) == 1.0
  {
    hide *;
    var l, r := OrdinalRankSeq(v), OrdinalRankSeq(w);
    var x, y, t := AboutMean(MidRankSeq(v)), AboutMean(MidRankSeq(w)), SumSquares(Offsets(v));
    AgreesMeans(v, w);
    FromValuesIsFromRanks(v, w);
    OrdinalRanksAreRanking(v);
    OrdinalRanksAreRanking(w);
    RhoIsCoSpread(l, r);
    RankSpread(l);
    RankSpread(r);
    SpreadsSplit(v, w);
    TiedOffsets(v, i, j);
    assert SumSquares(x) == SumSquares(y);
    RhoForced(FromValues(v, w), SumSquares(x), Dot(x, y), t);
  }

  /** Where ties coincide and there is one, the forms agree only on one and the same weak order. */
  lemma CoincidentTies(v: seq<real>, w: seq<real>, i: nat, j: nat)
    requires |v| == |w| && SameTies(v, w) && i < j < |v| && v[i] == v[j] && Agrees(v, w)
    ensures !Constant(v) && SameOrder(v, w)
  {
    hide *;
    ForcedByTie(v, w, i, j);
    FromValuesIsFromRanks(v, w);
    OrdinalRanksAreRanking(v);
    OrdinalRanksAreRanking(w);
    RhoBounds(OrdinalRankSeq(v), OrdinalRankSeq(w));
    EqualRanksSameOrder(v, w);
    AgreesMeans(v, w);
    if Constant(v) {
      ConstantSpread(v);
    }
  }

  lemma FromValuesIsFromRanks(v: seq<real>, w: seq<real>)
    requires |v| == |w| >= 2
    ensures FromRanks(OrdinalRankSeq(v), OrdinalRankSeq(w)) == Outcomes.Some(FromValues(v, w))
  {
    DenominatorPositive(|v|);
  }

  // ---- one weak order ----

  lemma VariedSpread(v: seq<real>)
    requires !Constant(v)
    ensures |v| >= 2 && SumSquares(AboutMean(MidRankSeq(v))) > 0.0
  {
    hide SumSquares, AboutMean, Sum;
    var i, j :| 0 <= i < |v| && 0 <= j < |v| && v[i] < v[j];
    assert Less(v, v[i]) + Equal(v, v[i]) <= Less(v, v[j]);
    assert Less(v, v[i]) !! Equal(v, v[i]);
    SubsetSize(Less(v, v[i]) + Equal(v, v[i]), Less(v, v[j]));
    EqualSplits(v, i);
    EqualSplits(v, j);
    assert MidRank(v, i) < MidRank(v, j);
    var d := AboutMean(MidRankSeq(v));
    assert d[i] < d[j];
    SumSquaresNonneg(d);
  }

  lemma SameOrderSameRanks(v: seq<real>, w: seq<real>)
    requires |v| == |w| && SameOrder(v, w)
    ensures MidRankSeq(v) == MidRankSeq(w) && OrdinalRankSeq(v) == OrdinalRankSeq(w)
  {
    forall i | 0 <= i < |v| ensures MidRank(v, i) == MidRank(w, i) && OrdinalRank(v, i) == OrdinalRank(w, i) {
      assert Less(v, v[i]) == Less(w, w[i]);
      assert Equal(v, v[i]) == Equal(w, w[i]);
      assert Ahead(v, i) == Ahead(w, i);
    }
  }

  lemma SameOrderAgrees(v: seq<real>, w: seq<real>)
    requires |v| == |w| && !Constant(v) && SameOrder(v, w)
    ensures Agrees(v, w)
  {
    hide SumSquares, Dot, AboutMean, MidRankSeq, OrdinalRankSeq, FromRanks, SameOrder, Constant;
    VariedSpread(v);
    SameOrderSameRanks(v, w);
    OrdinalRanksAreRanking(v);
    RhoBounds(OrdinalRankSeq(v), OrdinalRankSeq(w));
    FromValuesIsFromRanks(v, w);
    var d := AboutMean(MidRankSeq(v));
    SquareIsDot(d);
  }

  lemma SquareIsDot(d: seq<real>)
    ensures SumSquares(d) == Dot(d, d)
  {
  }

  // ---- exchanging two entries tied in one vector only ----

  function Turn(k: nat): nat {
    if k == 0 then 1 else if k == 1 then 0 else k
  }

  lemma {:induction false} TurnSize(s: set<nat>)
    ensures |set k | k in s :: Turn(k)| == |s|
  {
    var image := set k | k in s :: Turn(k);
    if s != {} {
      var x :| x in s;
      TurnSize(s - {x});
      var rest := set k | k in s - {x} :: Turn(k);
      assert image == rest + {Turn(x)};
      assert Turn(x) !in rest;
    }
  }

  /** Vectors that differ by exchanging their first two entries. */
  ghost predicate Turned(w: seq<real>, u: seq<real>) {
    |w| == |u| >= 2 && forall k: nat :: k < |w| ==> Turn(k) < |u| && u[Turn(k)] == w[k]
  }

  lemma TurnedLess(w: seq<real>, u: seq<real>, x: real)
    requires Turned(w, u)
    ensures |Less(u, x)| == |Less(w, x)| && |Equal(u, x)| == |Equal(w, x)|
  {
    TurnSize(Less(w, x));
    TurnSize(Equal(w, x));
    forall k: nat | k < |w| ensures Turn(Turn(k)) == k && Turn(k) < |w| {
    }
    assert Less(u, x) == set k | k in Less(w, x) :: Turn(k) by {
      forall k: nat | k in Less(u, x) ensures Turn(k) in Less(w, x) {
      }
    }
    assert Equal(u, x) == set k | k in Equal(w, x) :: Turn(k) by {
      forall k: nat | k in Equal(u, x) ensures Turn(k) in Equal(w, x) {
      }
    }
  }

  lemma TurnedAhead(w: seq<real>, u: seq<real>, i: nat)
    requires Turned(w, u) && w[0] != w[1] && i < |w|
    ensures |Ahead(u, Turn(i))| == |Ahead(w, i)|
  {
    TurnSize(Ahead(w, i));
    forall k: nat | k < |w| ensures Turn(k) in Ahead(u, Turn(i)) <==> k in Ahead(w, i) {
      assert u[Turn(k)] == w[k] && u[Turn(i)] == w[i];
      if w[k] == w[i] {
        assert Turn(k) < Turn(i) <==> k < i;
      }
    }
    forall k: nat ensures k in Ahead(u, Turn(i)) <==> k in set k | k in Ahead(w, i) :: Turn(k) {
      if k < |w| {
        assert Turn(Turn(k)) == k && Turn(k) < |w|;
      }
    }
    assert Ahead(u, Turn(i)) == set k | k in Ahead(w, i) :: Turn(k);
  }

  lemma TurnedRanks(w: seq<real>, u: seq<real>)
    requires Turned(w, u) && w[0] != w[1]
    ensures Turned(AboutMean(MidRankSeq(w)), AboutMean(MidRankSeq(u)))
    ensures Turned(Centered(OrdinalRankSeq(w)), Centered(OrdinalRankSeq(u)))
    ensures Centered(OrdinalRankSeq(w))[0] != Centered(OrdinalRankSeq(w))[1]
  {
    hide Sum, AboutMean;
    MiddleMean(w);
    MiddleMean(u);
    forall k: nat | k < |w|
      ensures Turn(k) < |u| && MidRank(u, Turn(k)) == MidRank(w, k) && OrdinalRank(u, Turn(k)) == OrdinalRank(w, k)
    {
      assert u[Turn(k)] == w[k];
      TurnedLess(w, u, w[k]);
      TurnedAhead(w, u, k);
    }
    OrdinalRanksAreRanking(w);
    assert OrdinalRankSeq(w)[0] != OrdinalRankSeq(w)[1];
  }

  /** Exchanging the first two entries of one factor. */
  lemma {:induction false} DotTurned(c: seq<real>, y: seq<real>, z: seq<real>)
    requires |c| == |y| && Turned(y, z)
    ensures Dot(c, y) - Dot(c, z) == (c[0] - c[1]) * (y[0] - y[1])
  {
    var n := |c| - 1;
    assert z[Turn(0)] == y[0] && z[Turn(1)] == y[1];
    if n == 1 {
      DotTwo(c, y);
      DotTwo(c, z);
      Exchange(c[0], c[1], y[0], y[1]);
    } else {
      assert z[Turn(n)] == y[n];
      forall k: nat | k < n ensures Turn(k) < n && z[..n][Turn(k)] == y[..n][k] {
        assert z[Turn(k)] == y[k];
      }
      DotTurned(c[..n], y[..n], z[..n]);
    }
  }

  lemma DotTwo(a: seq<real>, b: seq<real>)
    requires |a| == |b| == 2
    ensures Dot(a, b) == a[0] * b[0] + a[1] * b[1]
  {
    assert Dot(a[..1], b[..1]) == Dot([], []) + a[0] * b[0];
  }

  lemma Exchange(a: real, b: real, x: real, y: real)
    ensures a * x + b * y - (a * y + b * x) == (a - b) * (x - y)
  {
  }

  lemma TurnedBack(y: seq<real>, z: seq<real>)
    requires Turned(y, z)
    ensures Turned(z, y) && z[0] == y[1] && z[1] == y[0]
  {
    assert z[Turn(0)] == y[0] && z[Turn(1)] == y[1];
    forall k: nat | k < |z| ensures Turn(k) < |y| && y[Turn(k)] == z[k] {
      assert z[Turn(Turn(k))] == y[Turn(k)];
    }
  }

  lemma SquaresTurned(y: seq<real>, z: seq<real>)
    requires Turned(y, z)
    ensures SumSquares(y) == SumSquares(z)
  {
    hide Dot;
    TurnedBack(y, z);
    DotTurned(y, y, z);
    DotTurned(z, z, y);
    DotSymmetric(y, z);
    Exchange(y[0], y[1], y[0], y[1]);
    Exchange(y[1], y[0], y[1], y[0]);
  }

  lemma TiedFirst(v: seq<real>)
    requires |v| >= 2 && v[0] == v[1]
    ensures AboutMean(MidRankSeq(v))[0] == AboutMean(MidRankSeq(v))[1]
    ensures Centered(OrdinalRankSeq(v))[0] - Centered(OrdinalRankSeq(v))[1] == 1.0
  {
    hide Sum;
    assert Ahead(v, 1) == Ahead(v, 0) + {0};
  }

  lemma TurnedMoments(v: seq<real>, w: seq<real>, u: seq<real>)
    requires |v| == |w| && Turned(w, u) && v[0] == v[1] && w[0] != w[1]
    ensures var x, y, z := AboutMean(MidRankSeq(v)), AboutMean(MidRankSeq(w)), AboutMean(MidRankSeq(u));
            Dot(x, y) == Dot(x, z) && SumSquares(y) == SumSquares(z)
  {
    hide *;
    TurnedLengths(w, u);
    var x, y, z := AboutMean(MidRankSeq(v)), AboutMean(MidRankSeq(w)), AboutMean(MidRankSeq(u));
    TurnedRanks(w, u);
    TiedFirst(v);
    DotTurned(x, y, z);
    SquaresTurned(y, z);
    ZeroTimes(x[0] - x[1], y[0] - y[1]);
  }

  lemma SameMoments(a: seq<real>, b: seq<real>, c: seq<real>, rho: real)
    requires |a| == |b| == |c| > 0
    requires Dot(AboutMean(a), AboutMean(b)) == Dot(AboutMean(a), AboutMean(c))
    requires SumSquares(AboutMean(b)) == SumSquares(AboutMean(c))
    ensures IsCorrelation(a, b, rho) <==> IsCorrelation(a, c, rho)
  {
    hide SumSquares, Dot, AboutMean;
  }

  lemma TurnedCorrelation(v: seq<real>, w: seq<real>, u: seq<real>, rho: real)
    requires |v| == |w| && Turned(w, u) && v[0] == v[1] && w[0] != w[1]
    ensures IsCorrelation(MidRankSeq(v), MidRankSeq(w), rho) <==> IsCorrelation(MidRankSeq(v), MidRankSeq(u), rho)
  {
    hide *;
    TurnedLengths(w, u);
    TurnedMoments(v, w, u);
    SameMoments(MidRankSeq(v), MidRankSeq(w), MidRankSeq(u), rho);
  }

  lemma ZeroTimes(a: real, b: real)
    requires a == 0.0
    ensures a * b == 0.0
  {
  }

  lemma TurnedLengths(w: seq<real>, u: seq<real>)
    requires Turned(w, u)
    ensures |w| == |u| >= 2
  {
  }

  lemma TurnedRho(v: seq<real>, w: seq<real>, u: seq<real>)
    requires |v| == |w| && Turned(w, u) && v[0] == v[1] && w[0] != w[1]
    ensures FromValues(v, w) != FromValues(v, u)
  {
    hide *;
    TurnedLengths(w, u);
    var l, r, s := OrdinalRankSeq(v), OrdinalRankSeq(w), OrdinalRankSeq(u);
    FromValuesIsFromRanks(v, w);
    FromValuesIsFromRanks(v, u);
    OrdinalRanksAreRanking(v);
    OrdinalRanksAreRanking(w);
    OrdinalRanksAreRanking(u);
    RhoIsCoSpread(l, r);
    RhoIsCoSpread(l, s);
    CoSpreadIsDot(l, r);
    CoSpreadIsDot(l, s);
    TurnedRanks(w, u);
    TiedFirst(v);
    DotTurned(Centered(l), Centered(r), Centered(s));
  }

  lemma CoSpreadIsDot(l: seq<nat>, r: seq<nat>)
    requires |l| == |r|
    ensures CoSpread(l, r) == Dot(Centered(l), Centered(r))
  {
  }

  /** A tie in v that w breaks: listing the two entries the other way round changes the closed form only. */
  lemma OneSidedTie(v: seq<real>, w: seq<real>, u: seq<real>)
    requires |v| == |w| == |u| && Turned(w, u) && v[0] == v[1] && w[0] != w[1]
    ensures !(Agrees(v, w) && Agrees(v, u))
  {
    hide FromValues, IsCorrelation, MidRankSeq, Turned;
    TurnedRho(v, w, u);
    if Agrees(v, w) && Agrees(v, u) {
      TurnedCorrelation(v, w, u, FromValues(v, u));
      CorrelationUnique(MidRankSeq(v), MidRankSeq(w), FromValues(v, w), FromValues(v, u));
    }
  }

  // ---- exactly when the forms agree ----

  lemma AgreesSymmetric(v: seq<real>, w: seq<real>)
    requires |v| == |w| && Agrees(v, w)
    ensures Agrees(w, v)
  {
    hide SumSquares, Dot, AboutMean, MidRankSeq, OrdinalRankSeq, Differences, Denominator;
    DotSymmetric(AboutMean(MidRankSeq(v)), AboutMean(MidRankSeq(w)));
    DifferencesTurn(OrdinalRankSeq(v), OrdinalRankSeq(w));
    ProductTurns(SumSquares(AboutMean(MidRankSeq(v))), SumSquares(AboutMean(MidRankSeq(w))));
  }

  lemma ProductTurns(a: real, b: real)
    ensures a * b == b * a
  {
  }

  lemma DifferencesTurn(l: seq<nat>, r: seq<nat>)
    requires |l| == |r|
    ensures SumSquares(Differences(l, r)) == SumSquares(Differences(r, l))
  {
    hide SumSquares, Dot;
    NegatedSquares(Differences(l, r), Differences(l, r));
    assert Differences(r, l) == Negate(Differences(l, r));
  }

  /** Every position but two. */
  function Others(n: nat, i: nat, j: nat): (s: seq<nat>)
    requires i < n && j < n
    ensures Distinct(s) && forall k: nat :: k in s <==> k < n && k != i && k != j
  {
    OthersBelow(n, i, j)
  }

  function OthersBelow(n: nat, i: nat, j: nat): (s: seq<nat>)
    ensures Distinct(s) && forall k: nat :: k in s <==> k < n && k != i && k != j
  {
    if n == 0 then [] else
      var front := OthersBelow(n - 1, i, j);
      assert forall t :: 0 <= t < |front| ==> front[t] in front;
      if n - 1 == i || n - 1 == j then front else front + [n - 1]
  }

  /** The listing with positions i and j first. */
  function PairFirst(n: nat, i: nat, j: nat): seq<nat>
    requires i < n && j < n
  {
    [i, j] + Others(n, i, j)
  }

  lemma PairFirstIsOrder(n: nat, i: nat, j: nat)
    requires i < n && j < n && i != j
    ensures |PairFirst(n, i, j)| == n && IsPermutation(PairFirst(n, i, j))
  {
    var rest := Others(n, i, j);
    var order := PairFirst(n, i, j);
    forall t | 0 <= t < |rest| ensures rest[t] in rest {
    }
    assert Distinct(order);
    ElementsSize(order);
    ElementsSize(Iota(n));
    forall k: nat ensures k in Elements(order) <==> k in Elements(Iota(n)) {
      if k < n {
        assert Iota(n)[k] == k;
      }
    }
    assert Elements(order) == Elements(Iota(n));
    assert forall t :: 0 <= t < |order| ==> order[t] in Elements(order);
  }

  lemma OthersTurn(n: nat, i: nat, j: nat)
    ensures OthersBelow(n, i, j) == OthersBelow(n, j, i)
  {
  }

  /** A tie on one side only spoils agreement in some order. */
  lemma TieOnOneSide(v: seq<real>, w: seq<real>, i: nat, j: nat)
    requires |v| == |w| && i < |v| && j < |v| && v[i] == v[j] && w[i] != w[j]
    ensures !AgreesInEveryOrder(v, w)
  {
    hide Agrees, OthersBelow;
    var n := |v|;
    PairFirstIsOrder(n, i, j);
    PairFirstIsOrder(n, j, i);
    OthersTurn(n, i, j);
    var p, q := PairFirst(n, i, j), PairFirst(n, j, i);
    assert Reordered(v, p) == Reordered(v, q);
    forall k: nat | k < n ensures Turn(k) < n && Reordered(w, q)[Turn(k)] == Reordered(w, p)[k] {
    }
    OneSidedTie(Reordered(v, p), Reordered(w, p), Reordered(w, q));
  }

  lemma AgreesInEveryOrderSymmetric(v: seq<real>, w: seq<real>)
    requires |v| == |w| && AgreesInEveryOrder(v, w)
    ensures AgreesInEveryOrder(w, v)
  {
    hide Agrees;
    forall order: seq<nat> | |order| == |v| && IsPermutation(order)
      ensures Agrees(Reordered(w, order), Reordered(v, order))
    {
      AgreesSymmetric(Reordered(v, order), Reordered(w, order));
    }
  }

  lemma AgreesAsListed(v: seq<real>, w: seq<real>)
    requires |v| == |w| && AgreesInEveryOrder(v, w)
    ensures Agrees(v, w)
  {
    hide Agrees;
    var order := Iota(|v|);
    assert Reordered(v, order) == v && Reordered(w, order) == w;
  }

  lemma ReorderedKinds(v: seq<real>, w: seq<real>, order: seq<nat>)
    requires |v| == |w| == |order| && IsPermutation(order)
    ensures Distinct(v) ==> Distinct(Reordered(v, order))
    ensures SameOrder(v, w) ==> SameOrder(Reordered(v, order), Reordered(w, order))
    ensures !Constant(v) ==> !Constant(Reordered(v, order))
  {
    if !Constant(v) {
      var i, j :| 0 <= i < |v| && 0 <= j < |v| && v[i] != v[j];
      PermutationCovers(order, i);
      PermutationCovers(order, j);
      var s :| 0 <= s < |order| && order[s] == i;
      var t :| 0 <= t < |order| && order[t] == j;
      assert Reordered(v, order)[s] != Reordered(v, order)[t];
    }
  }

  /**
   The closed form is the correlation of the average ranks in every listing exactly when neither vector has a tie,
   or both put the entries in the same weak order with at least two values.
   */
  lemma AgreementExact(v: seq<real>, w: seq<real>)
    requires |v| == |w| >= 2
    ensures AgreesInEveryOrder(v, w) <==>
            (Distinct(v) && Distinct(w)) || (!Constant(v) && SameOrder(v, w))
  {
    hide Agrees, Constant, SameOrder;
    if (Distinct(v) && Distinct(w)) || (!Constant(v) && SameOrder(v, w)) {
      forall order: seq<nat> | |order| == |v| && IsPermutation(order)
        ensures Agrees(Reordered(v, order), Reordered(w, order))
      {
        ReorderedKinds(v, w, order);
        ReorderedKinds(w, v, order);
        if Distinct(v) && Distinct(w) {
          ClosedFormAgrees(Reordered(v, order), Reordered(w, order));
        } else {
          SameOrderAgrees(Reordered(v, order), Reordered(w, order));
        }
      }
    }
    if AgreesInEveryOrder(v, w) {
      AgreeingIsExact(v, w);
    }
  }

  lemma ClosedFormAgrees(v: seq<real>, w: seq<real>)
    requires |v| == |w| >= 2 && Distinct(v) && Distinct(w)
    ensures Agrees(v, w)
  {
    ClosedFormIsCorrelation(v, w);
  }

  lemma AgreeingIsExact(v: seq<real>, w: seq<real>)
    requires |v| == |w| >= 2 && AgreesInEveryOrder(v, w)
    ensures (Distinct(v) && Distinct(w)) || (!Constant(v) && SameOrder(v, w))
  {
    hide Agrees, Constant, SameOrder, AgreesInEveryOrder;
    AgreesInEveryOrderSymmetric(v, w);
    AgreesAsListed(v, w);
    forall i, j | 0 <= i < |v| && 0 <= j < |v| ensures v[i] == v[j] <==> w[i] == w[j] {
      if v[i] == v[j] && w[i] != w[j] {
        TieOnOneSide(v, w, i, j);
      }
      if w[i] == w[j] && v[i] != v[j] {
        TieOnOneSide(w, v, i, j);
      }
    }
    if !(Distinct(v) && Distinct(w)) {
      var i, j :| 0 <= i < j < |v| && v[i] == v[j];
      CoincidentTies(v, w, i, j);
    }
  }

  const LOW_TIE := [1.0, 1.0, 2.0]
  const HIGH_TIE := [2.0, 2.0, 1.0]

  lemma TiedOrdinals()
    ensures OrdinalRankSeq(LOW_TIE) == [2, 3, 1] && OrdinalRankSeq(HIGH_TIE) == [1, 2, 3]
  {
    assert Ahead(LOW_TIE, 0) == {2} && Ahead(LOW_TIE, 1) == {0, 2} && Ahead(LOW_TIE, 2) == {};
    assert Ahead(HIGH_TIE, 0) == {} && Ahead(HIGH_TIE, 1) == {0} && Ahead(HIGH_TIE, 2) == {0, 1};
  }

  lemma LowMidRanks()
    ensures AboutMean(MidRankSeq(LOW_TIE)) == [-0.5, -0.5, 1.0]
  {
    hide Sum;
    MiddleMean(LOW_TIE);
    assert Less(LOW_TIE, 1.0) == {} && Equal(LOW_TIE, 1.0) == {0, 1};
    assert Less(LOW_TIE, 2.0) == {0, 1} && Equal(LOW_TIE, 2.0) == {2};
  }

  lemma HighMidRanks()
    ensures AboutMean(MidRankSeq(HIGH_TIE)) == [0.5, 0.5, -1.0]
  {
    hide Sum;
    MiddleMean(HIGH_TIE);
    assert Less(HIGH_TIE, 1.0) == {} && Equal(HIGH_TIE, 1.0) == {2};
    assert Less(HIGH_TIE, 2.0) == {2} && Equal(HIGH_TIE, 2.0) == {0, 1};
  }

  lemma TiedRho()
    ensures FromValues(LOW_TIE, HIGH_TIE) == -0.5
  {
    hide SumSquares;
    TiedOrdinals();
    assert Differences([2, 3, 1], [1, 2, 3]) == [1.0, 1.0, -2.0];
    ThreeProducts([1.0, 1.0, -2.0], [1.0, 1.0, -2.0]);
    SquareIsDot([1.0, 1.0, -2.0]);
    assert Denominator(3) == 24;
  }

  /** Two values for one pair of vectors: the same entries tied, in the opposite order. */
  lemma TiedForms()
    ensures FromValues(LOW_TIE, HIGH_TIE) == -0.5
    ensures IsCorrelation(MidRankSeq(LOW_TIE), MidRankSeq(HIGH_TIE), -1.0)
  {
    hide SumSquares, Dot, AboutMean, MidRankSeq, FromValues;
    TiedRho();
    LowMidRanks();
    HighMidRanks();
    var x, y := [-0.5, -0.5, 1.0], [0.5, 0.5, -1.0];
    SquareIsDot(x);
    SquareIsDot(y);
    ThreeProducts(x, x);
    ThreeProducts(y, y);
    ThreeProducts(x, y);
  }

  lemma ThreeProducts(a: seq<real>, b: seq<real>)
    requires |a| == |b| == 3
    ensures Dot(a, b) == a[0] * b[0] + a[1] * b[1] + a[2] * b[2]
  {
    DotTwo(a[..2], b[..2]);
  }
}
