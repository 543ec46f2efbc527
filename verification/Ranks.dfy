/**
 The ranking loops: ordinal ranks (_rank, _ranks, _point_ranks), average ranks of ties (_average_ranks),
 the counting form (_average_rank) with its percentile, and shared display ranks (_score_ranks).
 */
module Ranks {
  import opened Finite
  import opened Sorting
  import opened Sums

  ghost function Less(v: seq<real>, x: real): (s: set<nat>)
    ensures forall k: nat {:trigger k in s} :: k in s <==> k < |v| && v[k] < x
  {
    set k: nat | k < |v| && v[k] < x
  }

  ghost function Equal(v: seq<real>, x: real): (s: set<nat>)
    ensures forall k: nat {:trigger k in s} :: k in s <==> k < |v| && v[k] == x
  {
    set k: nat | k < |v| && v[k] == x
  }

  ghost function Greater(v: seq<real>, x: real): (s: set<nat>)
    ensures forall k: nat {:trigger k in s} :: k in s <==> k < |v| && v[k] > x
  {
    set k: nat | k < |v| && v[k] > x
  }

  lemma Trichotomy(v: seq<real>, x: real)
    ensures |Less(v, x)| + |Equal(v, x)| + |Greater(v, x)| == |v|
  {
    var l, e, g := Less(v, x), Equal(v, x), Greater(v, x);
    ElementsSize(Iota(|v|));
    forall k: nat ensures k in Elements(Iota(|v|)) <==> k in l + e + g {
      if k < |v| {
        assert Iota(|v|)[k] == k;
      }
    }
    assert Elements(Iota(|v|)) == l + e + g;
    assert l !! e && (l + e) !! g;
    assert |l + e| == |l| + |e|;
    assert |l + e + g| == |l + e| + |g|;
  }

  // ---- ordinal ranks ----

  function Negated(v: seq<real>): (n: seq<real>)
    ensures |n| == |v| && forall i :: 0 <= i < |v| ==> n[i] == -v[i]
  {
    seq(|v|, i requires 0 <= i < |v| => -v[i])
  }

  /** The entries a stable descending sort puts before entry i: larger ones, and equal ones further left. */
  ghost function Ahead(v: seq<real>, i: nat): (s: set<nat>)
    requires i < |v|
    ensures forall k: nat {:trigger k in s} :: k in s <==> k < |v| && (v[k] > v[i] || (v[k] == v[i] && k < i))
  {
    set k: nat | k < |v| && (v[k] > v[i] || (v[k] == v[i] && k < i))
  }

  ghost function OrdinalRank(v: seq<real>, i: nat): nat
    requires i < |v|
  {
    1 + |Ahead(v, i)|
  }

  /** The position argsort gives an entry is the number of entries ahead of it. */
  lemma PositionIsCount(v: seq<real>, order: seq<nat>, t: nat)
    requires IsArgSort(Negated(v), order) && t < |order|
    ensures |Ahead(v, order[t])| == t
  {
    var before := order[..t];
    ElementsSize(before);
    forall k: nat ensures k in Elements(before) <==> k in Ahead(v, order[t]) {
      if k in before {
        var s :| 0 <= s < t && order[s] == k;
        assert Precedes(Negated(v), order[s], order[t]);
      }
      if k in Ahead(v, order[t]) {
        PermutationCovers(order, k);
        var s :| 0 <= s < |order| && order[s] == k;
        assert before[s] == k;
      }
    }
    assert Elements(before) == Ahead(v, order[t]);
  }

  /** `ranks[order] = arange(1, n + 1)` after `order = argsort(-values, kind="stable")`. */
  method OrdinalRanks(v: seq<real>) returns (ranks: array<nat>)
    ensures ranks.Length == |v|
    ensures forall i :: 0 <= i < |v| ==> ranks[i] == OrdinalRank(v, i)
  {
    var order := ArgSort(Negated(v));
    ranks := new nat[|v|];
    for t := 0 to |v|
      invariant forall s :: 0 <= s < t ==> ranks[order[s]] == OrdinalRank(v, order[s])
    {
      PositionIsCount(v, order, t);
      ranks[order[t]] := t + 1;
    }
    forall i | 0 <= i < |v| ensures ranks[i] == OrdinalRank(v, i) {
      PermutationCovers(order, i);
      var t :| 0 <= t < |order| && order[t] == i;
    }
  }

  /** Ordinal ranks of n entries: the numbers 1..n in some order. */
  ghost predicate IsRanking(r: seq<nat>) {
    Distinct(r) && forall i :: 0 <= i < |r| ==> 1 <= r[i] <= |r|
  }

  ghost function OrdinalRankSeq(v: seq<real>): (r: seq<nat>)
    ensures |r| == |v| && forall i :: 0 <= i < |v| ==> r[i] == OrdinalRank(v, i)
  {
    seq(|v|, i requires 0 <= i < |v| => OrdinalRank(v, i))
  }

  lemma OrdinalRanksAreRanking(v: seq<real>)
    ensures IsRanking(OrdinalRankSeq(v))
  {
    var r := OrdinalRankSeq(v);
    forall i | 0 <= i < |r| ensures 1 <= r[i] <= |r| {
      Trichotomy(v, v[i]);
      var l, e, g := Less(v, v[i]), Equal(v, v[i]), Greater(v, v[i]);
      assert Ahead(v, i) <= g + (e - {i});
      SubsetSize(Ahead(v, i), g + (e - {i}));
      assert |e - {i}| == |e| - 1;
      assert |g + (e - {i})| <= |g| + |e - {i}|;
    }
    forall i, j | 0 <= i < j < |r| ensures r[i] != r[j] {
      if v[i] >= v[j] {
        AheadGrows(v, i, j);
      } else {
        AheadGrows(v, j, i);
      }
    }
  }

  lemma AheadGrows(v: seq<real>, i: nat, j: nat)
    requires i < |v| && j < |v| && (v[i] > v[j] || (v[i] == v[j] && i < j))
    ensures |Ahead(v, i)| < |Ahead(v, j)|
  {
    assert Ahead(v, i) + {i} <= Ahead(v, j);
    SubsetSize(Ahead(v, i) + {i}, Ahead(v, j));
  }

  // ---- average ranks ----

  /** Ascending rank with ties sharing their average: 1 + #less + (#equal - 1) / 2. */
  ghost function MidRank(v: seq<real>, i: nat): real
    requires i < |v|
  {
    1.0 + |Less(v, v[i])| as real + 0.5 * (|Equal(v, v[i])| as real - 1.0)
  }

  /** A maximal run of equal values in sorted order. */
  ghost predicate TieGroup(v: seq<real>, order: seq<nat>, start: nat, stop: nat) {
    && IsArgSort(v, order) && start < stop <= |order|
    && (forall u :: start <= u < stop ==> v[order[u]] == v[order[start]])
    && (start > 0 ==> v[order[start - 1]] < v[order[start]])
    && (stop < |order| ==> v[order[start]] < v[order[stop]])
  }

  lemma TieGroupSides(v: seq<real>, order: seq<nat>, start: nat, stop: nat, s: nat)
    requires TieGroup(v, order, start, stop) && s < |order|
    ensures s < start ==> v[order[s]] < v[order[start]]
    ensures start <= s < stop ==> v[order[s]] == v[order[start]]
    ensures s >= stop ==> v[order[s]] > v[order[start]]
  {
    if s < start - 1 {
      assert Precedes(v, order[s], order[start - 1]);
    }
    if s > stop {
      assert Precedes(v, order[stop], order[s]);
    }
  }

  /** A tie group starts after everything smaller. */
  lemma SmallerBeforeGroup(v: seq<real>, order: seq<nat>, start: nat, stop: nat)
    requires TieGroup(v, order, start, stop)
    ensures |Less(v, v[order[start]])| == start
  {
    var x, smaller := v[order[start]], order[..start];
    ElementsSize(smaller);
    forall k: nat ensures k in Elements(smaller) <==> k in Less(v, x) {
      if k < |v| {
        PermutationCovers(order, k);
        var s :| 0 <= s < |order| && order[s] == k;
        TieGroupSides(v, order, start, stop, s);
        assert s < start ==> smaller[s] == k;
      }
    }
    assert Elements(smaller) == Less(v, x);
  }

  /** A tie group holds everything equal. */
  lemma EqualsInGroup(v: seq<real>, order: seq<nat>, start: nat, stop: nat)
    requires TieGroup(v, order, start, stop)
    ensures |Equal(v, v[order[start]])| == stop - start
  {
    var x, same := v[order[start]], order[start..stop];
    ElementsSize(same);
    forall k: nat ensures k in Elements(same) <==> k in Equal(v, x) {
      if k < |v| {
        PermutationCovers(order, k);
        var s :| 0 <= s < |order| && order[s] == k;
        TieGroupSides(v, order, start, stop, s);
        assert start <= s < stop ==> same[s - start] == k;
      }
    }
    assert Elements(same) == Equal(v, x);
  }

  lemma TieGroupCounts(v: seq<real>, order: seq<nat>, start: nat, stop: nat, u: nat)
    requires TieGroup(v, order, start, stop) && start <= u < stop
    ensures MidRank(v, order[u]) == 0.5 * (start + stop - 1) as real + 1.0
  {
    hide Less, Equal;
    SmallerBeforeGroup(v, order, start, stop);
    EqualsInGroup(v, order, start, stop);
  }

  /** `_average_ranks`: find each tie group in sorted order and write its average rank to every member. */
  method AverageRanks(v: seq<real>) returns (ranks: array<real>)
    ensures ranks.Length == |v|
    ensures forall i :: 0 <= i < |v| ==> ranks[i] == MidRank(v, i)
  {
    hide MidRank;
    var order := ArgSort(v);
    ranks := new real[|v|];
    var start := 0;
    while start < |order|
      invariant 0 <= start <= |order|
      invariant 0 < start < |order| ==> v[order[start - 1]] < v[order[start]]
      invariant forall u :: 0 <= u < start ==> ranks[order[u]] == MidRank(v, order[u])
    {
      var stop := start + 1;
      while stop < |order| && v[order[stop]] == v[order[start]]
        invariant start < stop <= |order|
        invariant forall u :: start <= u < stop ==> v[order[u]] == v[order[start]]
      {
        stop := stop + 1;
      }
      assert stop < |order| ==> Precedes(v, order[start], order[stop]);
      for u := start to stop
        invariant forall w :: 0 <= w < u ==> ranks[order[w]] == MidRank(v, order[w])
      {
        TieGroupCounts(v, order, start, stop, u);
        ranks[order[u]] := 0.5 * (start + stop - 1) as real + 1.0;
      }
      start := stop;
    }
    forall i | 0 <= i < |v| ensures ranks[i] == MidRank(v, i) {
      PermutationCovers(order, i);
      var u :| 0 <= u < |order| && order[u] == i;
    }
  }

  ghost function MidRankSeq(v: seq<real>): (r: seq<real>)
    ensures |r| == |v| && forall i :: 0 <= i < |v| ==> r[i] == MidRank(v, i)
  {
    seq(|v|, i requires 0 <= i < |v| => MidRank(v, i))
  }

  /** A vector of zeros and ones adds to the number of ones. */
  lemma {:induction false} IndicatorSum(s: seq<real>, a: set<nat>)
    requires forall k :: k in a ==> k < |s|
    requires forall i: nat :: i < |s| ==> s[i] == if i in a then 1.0 else 0.0
    ensures Sum(s) == |a| as real
  {
    if s == [] {
      assert a == {};
    } else {
      var n := |s| - 1;
      var rest := a - {n};
      IndicatorSum(s[..n], rest);
      assert a == if n in a then rest + {n} else rest;
    }
  }

  ghost function LessCounts(v: seq<real>): (c: seq<real>)
    ensures |c| == |v| && forall i :: 0 <= i < |v| ==> c[i] == |Less(v, v[i])| as real
  {
    seq(|v|, i requires 0 <= i < |v| => |Less(v, v[i])| as real)
  }

  ghost function GreaterCounts(v: seq<real>): (c: seq<real>)
    ensures |c| == |v| && forall i :: 0 <= i < |v| ==> c[i] == |Greater(v, v[i])| as real
  {
    seq(|v|, i requires 0 <= i < |v| => |Greater(v, v[i])| as real)
  }

  ghost function IndicatorRow(v: seq<real>, x: real): (r: seq<real>)
    ensures |r| == |v| && forall j :: 0 <= j < |v| ==> r[j] == if v[j] < x then 1.0 else 0.0
  {
    seq(|v|, j requires 0 <= j < |v| => if v[j] < x then 1.0 else 0.0)
  }

  ghost function IndicatorMatrix(v: seq<real>): (m: seq<seq<real>>)
    ensures |m| == |v| && Rectangular(m, |v|)
    ensures forall i :: 0 <= i < |v| ==> m[i] == IndicatorRow(v, v[i])
  {
    seq(|v|, i requires 0 <= i < |v| => IndicatorRow(v, v[i]))
  }

  /** Counting the pairs in which one entry is smaller, from either side. */
  lemma PairsCountedTwice(v: seq<real>)
    ensures Sum(LessCounts(v)) == Sum(GreaterCounts(v))
  {
    hide Sum;
    var m := IndicatorMatrix(v);
    SumSwap(m, |v|);
    forall i | 0 <= i < |v| ensures RowSums(m)[i] == LessCounts(v)[i] {
      IndicatorSum(m[i], Less(v, v[i]));
    }
    forall j | 0 <= j < |v| ensures ColumnSums(m, |v|)[j] == GreaterCounts(v)[j] {
      IndicatorSum(Column(m, |v|, j), Greater(v, v[j]));
    }
    assert RowSums(m) == LessCounts(v);
    assert ColumnSums(m, |v|) == GreaterCounts(v);
  }

  lemma MidRankExcess(v: seq<real>, i: nat)
    requires i < |v|
    ensures 2.0 * MidRank(v, i) - (|v| as real + 1.0) == LessCounts(v)[i] - GreaterCounts(v)[i]
  {
    Trichotomy(v, v[i]);
  }

  /** Average ranks always add to n(n+1)/2, ties or not. */
  lemma MidRanksTotal(v: seq<real>)
    ensures 2.0 * Sum(MidRankSeq(v)) == |v| as real * (|v| as real + 1.0)
  {
    hide Sum, Less, Equal, Greater, MidRank, LessCounts, GreaterCounts, MidRankSeq, Scaled;
    var n1, twice := |v| as real + 1.0, Scaled(2.0, MidRankSeq(v));
    var excess := seq(|v|, i requires 0 <= i < |v| => twice[i] - n1);
    PairsCountedTwice(v);
    SumScale(MidRankSeq(v), 2.0, twice);
    SumShift(twice, n1, excess);
    forall i | 0 <= i < |v| ensures excess[i] == LessCounts(v)[i] - GreaterCounts(v)[i] {
      MidRankExcess(v, i);
    }
    SumSub(LessCounts(v), GreaterCounts(v), excess);
  }

  // ---- the counting form and its percentiles ----

  /** `_average_rank`: 1 + #greater + (#equal - 1) / 2, ranking the largest first. */
  ghost function AverageRank(scores: seq<real>, target: nat): real
    requires target < |scores|
  {
    1.0 + |Greater(scores, scores[target])| as real + 0.5 * (|Equal(scores, scores[target])| as real - 1.0)
  }

  /** `(len - rank) / (len - 1)`, the share of rivals the target beats. */
  ghost function RankPercentile(scores: seq<real>, target: nat): real
    requires target < |scores| && |scores| > 1
  {
    (|scores| as real - AverageRank(scores, target)) / (|scores| - 1) as real
  }

  /** `100 * (lower + 0.5 * equal_other) / (len - 1)`. */
  ghost function ActionPercentile(scores: seq<real>, target: nat): real
    requires target < |scores| && |scores| > 1
  {
    100.0
    * (|Less(scores, scores[target])| as real + 0.5 * (|Equal(scores, scores[target])| as real - 1.0))
    / (|scores| - 1) as real
  }

  /** The two mid-rank forms run in opposite directions. */
  lemma AverageRankMirrors(scores: seq<real>, target: nat)
    requires target < |scores|
    ensures AverageRank(scores, target) == |scores| as real + 1.0 - MidRank(scores, target)
  {
    Trichotomy(scores, scores[target]);
  }

  /** The action percentile is the rank percentile on a scale of 100. */
  lemma ActionPercentileIsRankPercentile(scores: seq<real>, target: nat)
    requires target < |scores| && |scores| > 1
    ensures ActionPercentile(scores, target) == 100.0 * RankPercentile(scores, target)
  {
    Trichotomy(scores, scores[target]);
    var d := (|scores| - 1) as real;
    var share := |scores| as real - AverageRank(scores, target);
    assert share == |Less(scores, scores[target])| as real + 0.5 * (|Equal(scores, scores[target])| as real - 1.0);
    TimesHundred(share, d);
  }

  lemma TimesHundred(x: real, d: real)
    requires d != 0.0
    ensures 100.0 * x / d == 100.0 * (x / d)
  {
  }

  ghost function Percentiles(scores: seq<real>): (p: seq<real>)
    requires |scores| > 1
    ensures |p| == |scores| && forall t :: 0 <= t < |scores| ==> p[t] == RankPercentile(scores, t)
  {
    seq(|scores|, t requires 0 <= t < |scores| => RankPercentile(scores, t))
  }

  /** Averaged over every possible target the percentile is exactly one half, whatever the ties: the chance value. */
  lemma MeanPercentileIsHalf(scores: seq<real>)
    requires |scores| > 1
    ensures Mean(Sum(Percentiles(scores)), |scores|) == 0.5
  {
    hide *;
    var n, d := |scores|, (|scores| - 1) as real;
    MidRanksTotal(scores);
    var scaled := Scaled(d, Percentiles(scores));
    SumScale(Percentiles(scores), d, scaled);
    forall t | 0 <= t < n ensures scaled[t] == MidRankSeq(scores)[t] - 1.0 {
      PercentileScaled(scores, t);
    }
    SumShift(MidRankSeq(scores), 1.0, scaled);
    HalfOfPairs(n as real, d, Sum(Percentiles(scores)), Sum(MidRankSeq(scores)), Mean(Sum(Percentiles(scores)), n));
  }

  lemma PercentileScaled(scores: seq<real>, t: nat)
    requires t < |scores| && |scores| > 1
    ensures (|scores| - 1) as real * Percentiles(scores)[t] == MidRankSeq(scores)[t] - 1.0
  {
    hide MidRank, AverageRank;
    AverageRankMirrors(scores, t);
    DivideBack(|scores| as real - AverageRank(scores, t), (|scores| - 1) as real);
  }

  lemma DivideBack(x: real, d: real)
    requires d != 0.0
    ensures d * (x / d) == x
  {
  }

  lemma HalfOfPairs(n: real, d: real, p: real, m: real, mean: real)
    requires n > 1.0 && d == n - 1.0 && 2.0 * m == n * (n + 1.0) && d * p == m - n * 1.0 && mean * n == p
    ensures mean == 0.5
  {
    DoubleFactor(d, p);
    GapProduct(n, d);
    CancelFactor(d, 2.0 * p, n);
    CancelFactor(n, mean, 0.5);
  }

  lemma DoubleFactor(d: real, p: real)
    ensures d * (2.0 * p) == 2.0 * (d * p)
  {
  }

  lemma GapProduct(n: real, d: real)
    requires d == n - 1.0
    ensures n * (n + 1.0) - 2.0 * n == d * n
  {
  }

  // ---- shared display ranks ----

  /** A leaderboard row; `shortName`, case-folded, breaks ties in the display order. */
  datatype Row = Row(id: string, score: real, shortName: string)

  predicate ShownBefore(rows: seq<Row>, a: nat, b: nat)
    requires a < |rows| && b < |rows|
  {
    || rows[a].score > rows[b].score
    || (rows[a].score == rows[b].score && rows[a].shortName != rows[b].shortName
        && LexLeq(rows[a].shortName, rows[b].shortName))
    || (rows[a].score == rows[b].score && rows[a].shortName == rows[b].shortName && a <= b)
  }

  function DisplayBefore(rows: seq<Row>): (nat, nat) -> bool {
    (a: nat, b: nat) =>
      if a < |rows| && b < |rows| then ShownBefore(rows, a, b) else a < |rows| || (b >= |rows| && a <= b)
  }

  lemma DisplayIsTotal(rows: seq<Row>)
    ensures TotalPreorder(DisplayBefore(rows))
  {
    var before := DisplayBefore(rows);
    forall a: nat, b: nat ensures before(a, b) || before(b, a) {
      if a < |rows| && b < |rows| {
        LexTotal(rows[a].shortName, rows[b].shortName);
      }
    }
    forall a: nat, b: nat, c: nat | before(a, b) && before(b, c) ensures before(a, c) {
      if a < |rows| && b < |rows| && c < |rows| {
        LexTransitive(rows[a].shortName, rows[b].shortName, rows[c].shortName);
        if rows[a].shortName == rows[c].shortName && rows[a].shortName != rows[b].shortName
           && LexLeq(rows[a].shortName, rows[b].shortName) && LexLeq(rows[b].shortName, rows[c].shortName)
        {
          LexAntisymmetric(rows[a].shortName, rows[b].shortName);
        }
      }
    }
  }

  /** Positions listed so that scores never rise. */
  ghost predicate Descending(rows: seq<Row>, order: seq<nat>) {
    && |order| == |rows| && IsPermutation(order)
    && (forall t :: 0 <= t < |order| ==> order[t] < |rows|)
    && forall s, t :: 0 <= s < t < |order| ==> rows[order[s]].score >= rows[order[t]].score
  }

  /** `_score_display_rows`, as the positions of the rows shown. */
  function DisplayOrder(rows: seq<Row>): (order: seq<nat>)
    ensures Descending(rows, order)
    ensures SortedBy(DisplayBefore(rows), order)
  {
    var before := DisplayBefore(rows);
    var order := SortBy(before, Iota(|rows|));
    DisplayIsTotal(rows);
    SortKeeps(before, Iota(|rows|));
    SortSorts(before, Iota(|rows|));
    SortDistinct(before, Iota(|rows|));
    assert forall t :: 0 <= t < |order| ==> order[t] in Iota(|rows|);
    order
  }

  /** What the display order means: falling scores, then short names, then places. */
  lemma ShownInOrder(rows: seq<Row>, s: nat, t: nat)
    requires s < t < |DisplayOrder(rows)|
    ensures var i, j := DisplayOrder(rows)[s], DisplayOrder(rows)[t];
            && i < |rows| && j < |rows|
            && (|| rows[i].score > rows[j].score
                || (&& rows[i].score == rows[j].score && LexLeq(rows[i].shortName, rows[j].shortName)
                    && (rows[i].shortName == rows[j].shortName ==> i < j)))
  {
    hide DisplayOrder;
    var order := DisplayOrder(rows);
    assert DisplayBefore(rows)(order[s], order[t]);
    LexTotal(rows[order[s]].shortName, rows[order[s]].shortName);
  }

  /** The rows with a higher score. */
  ghost function Above(rows: seq<Row>, x: real): (s: set<nat>)
    ensures forall k: nat {:trigger k in s} :: k in s <==> k < |rows| && rows[k].score > x
  {
    set k: nat | k < |rows| && rows[k].score > x
  }

  /** Where a score first appears in the display, everything shown earlier is exactly what scores higher. */
  lemma FirstShown(rows: seq<Row>, order: seq<nat>, t: nat)
    requires Descending(rows, order) && t < |order|
    requires t > 0 ==> rows[order[t - 1]].score != rows[order[t]].score
    ensures |Above(rows, rows[order[t]].score)| == t
  {
    var x, shown := rows[order[t]].score, order[..t];
    ElementsSize(shown);
    forall k: nat ensures k in Elements(shown) <==> k in Above(rows, x) {
      if k < |rows| {
        PermutationCovers(order, k);
        var s :| 0 <= s < |order| && order[s] == k;
        assert s < t ==> shown[s] == k && rows[order[s]].score >= rows[order[t - 1]].score;
      }
    }
    assert Elements(shown) == Above(rows, x);
  }

  /** No row shown later has the same id. */
  ghost predicate LastShown(rows: seq<Row>, order: seq<nat>, t: int, n: nat)
    requires n <= |order| && (forall u :: 0 <= u < |order| ==> order[u] < |rows|) && 0 <= t < n
  {
    forall u :: t < u < n ==> rows[order[u]].id != rows[order[t]].id
  }

  /** The ranks after the first n rows shown. */
  ghost predicate RanksShown(rows: seq<Row>, order: seq<nat>, ranks: map<string, nat>, n: nat)
    requires n <= |order| && (forall u :: 0 <= u < |order| ==> order[u] < |rows|)
  {
    && (forall s :: 0 <= s < n ==> rows[order[s]].id in ranks)
    && (forall id :: id in ranks ==> exists i :: 0 <= i < |rows| && rows[i].id == id)
    && (forall s :: 0 <= s < n && LastShown(rows, order, s, n) ==>
          rows[order[s]].id in ranks && ranks[rows[order[s]].id] == 1 + |Above(rows, rows[order[s]].score)|)
  }

  lemma RankRow(rows: seq<Row>, order: seq<nat>, ranks: map<string, nat>, n: nat)
    requires n < |order| && (forall u :: 0 <= u < |order| ==> order[u] < |rows|)
    requires RanksShown(rows, order, ranks, n)
    ensures var row := rows[order[n]];
            RanksShown(rows, order, ranks[row.id := 1 + |Above(rows, row.score)|], n + 1)
  {
    hide Above;
    var id := rows[order[n]].id;
    forall s | 0 <= s < n && LastShown(rows, order, s, n + 1)
      ensures LastShown(rows, order, s, n) && rows[order[s]].id != id
    {
    }
  }

  /** `_score_ranks`: an id has the rank of its last shown row, one more than the number of higher scores. */
  method ScoreRanks(rows: seq<Row>) returns (ranks: map<string, nat>)
    ensures forall id :: id in ranks <==> exists i :: 0 <= i < |rows| && rows[i].id == id
    ensures var order := DisplayOrder(rows);
            forall t :: 0 <= t < |order| && LastShown(rows, order, t, |order|) ==>
              rows[order[t]].id in ranks && ranks[rows[order[t]].id] == 1 + |Above(rows, rows[order[t]].score)|
  {
    hide Above, DisplayOrder;
    var order := DisplayOrder(rows);
    ranks := map[];
    var previous, current := 0.0, 0;
    for t := 0 to |order|
      invariant t > 0 ==> previous == rows[order[t - 1]].score && current == 1 + |Above(rows, previous)|
      invariant RanksShown(rows, order, ranks, t)
    {
      hide RanksShown;
      var row := rows[order[t]];
      if t == 0 || row.score != previous {
        FirstShown(rows, order, t);
        current := t + 1;
        previous := row.score;
      }
      RankRow(rows, order, ranks, t);
      ranks := ranks[row.id := current];
    }
    forall i | 0 <= i < |rows| ensures rows[i].id in ranks {
      PermutationCovers(order, i);
    }
  }

  /** Rows with equal scores share their rank, when ids do not repeat. */
  lemma UnrepeatedIsLast(rows: seq<Row>, i: nat) returns (t: nat)
    requires i < |rows| && forall j :: 0 <= j < |rows| && j != i ==> rows[j].id != rows[i].id
    ensures var order := DisplayOrder(rows);
            t < |order| && order[t] == i && LastShown(rows, order, t, |order|)
  {
    hide DisplayOrder;
    var order := DisplayOrder(rows);
    PermutationCovers(order, i);
    t :| 0 <= t < |order| && order[t] == i;
  }
}
