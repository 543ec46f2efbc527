/**
 The crossed model-by-task sums of squares (paper/build_stability_assets.py, variance_partition).
 A matrix holds one row of task scores per model. Arithmetic is exact.
 */
module CrossedDesign {
  import opened Sums

  ghost predicate Nonempty(x: seq<seq<real>>, n: nat) {
    |x| > 0 && n > 0 && Rectangular(x, n)
  }

  function GrandMean(x: seq<seq<real>>, n: nat): real
    requires Nonempty(x, n)
  {
    Mean(Sum(RowSums(x)), |x| * n)
  }

  function ModelMeans(x: seq<seq<real>>, n: nat): (a: seq<real>)
    requires Nonempty(x, n)
    ensures |a| == |x|
    ensures forall i :: 0 <= i < |x| ==> a[i] == Mean(Sum(x[i]), n)
  {
    seq(|x|, i requires 0 <= i < |x| => Mean(Sum(x[i]), n))
  }

  function TaskMeans(x: seq<seq<real>>, n: nat): (b: seq<real>)
    requires Nonempty(x, n)
    ensures |b| == n
    ensures forall j :: 0 <= j < n ==> b[j] == Mean(ColumnSums(x, n)[j], |x|)
  {
    seq(n, j requires 0 <= j < n => Mean(ColumnSums(x, n)[j], |x|))
  }

  /** Each value less a constant, as `values - grand` broadcasts. */
  function Deviations(a: seq<real>, g: real): (d: seq<real>)
    ensures |d| == |a|
    ensures forall i :: 0 <= i < |a| ==> d[i] == a[i] - g
  {
    seq(|a|, i requires 0 <= i < |a| => a[i] - g)
  }

  function ModelSS(x: seq<seq<real>>, n: nat): real
    requires Nonempty(x, n)
  {
    n as real * SumSquares(Deviations(ModelMeans(x, n), GrandMean(x, n)))
  }

  function TaskSS(x: seq<seq<real>>, n: nat): real
    requires Nonempty(x, n)
  {
    |x| as real * SumSquares(Deviations(TaskMeans(x, n), GrandMean(x, n)))
  }

  function ResidualRow(row: seq<real>, modelMean: real, taskMeans: seq<real>, grand: real): (r: seq<real>)
    requires |row| == |taskMeans|
    ensures |r| == |row|
    ensures forall j :: 0 <= j < |row| ==> r[j] == row[j] - modelMean - taskMeans[j] + grand
  {
    seq(|row|, j requires 0 <= j < |row| => row[j] - modelMean - taskMeans[j] + grand)
  }

  function Residuals(x: seq<seq<real>>, n: nat): (r: seq<seq<real>>)
    requires Nonempty(x, n)
    ensures |r| == |x| && Rectangular(r, n)
    ensures forall i :: 0 <= i < |x| ==>
              r[i] == ResidualRow(x[i], ModelMeans(x, n)[i], TaskMeans(x, n), GrandMean(x, n))
  {
    seq(|x|, i requires 0 <= i < |x| => ResidualRow(x[i], ModelMeans(x, n)[i], TaskMeans(x, n), GrandMean(x, n)))
  }

  /** The sum of squares of each row. */
  function RowSquares(x: seq<seq<real>>): (r: seq<real>)
    ensures |r| == |x|
    ensures forall i :: 0 <= i < |x| ==> r[i] == SumSquares(x[i])
  {
    seq(|x|, i requires 0 <= i < |x| => SumSquares(x[i]))
  }

  function Centered(x: seq<seq<real>>, g: real): (c: seq<seq<real>>)
    ensures |c| == |x|
    ensures forall i :: 0 <= i < |x| ==> c[i] == Deviations(x[i], g)
  {
    seq(|x|, i requires 0 <= i < |x| => Deviations(x[i], g))
  }

  function InteractionSS(x: seq<seq<real>>, n: nat): real
    requires Nonempty(x, n)
  {
    Sum(RowSquares(Residuals(x, n)))
  }

  function TotalSS(x: seq<seq<real>>, n: nat): real
    requires Nonempty(x, n)
  {
    Sum(RowSquares(Centered(x, GrandMean(x, n))))
  }

  /** The mean of equal-sized group means is the overall mean. */
  lemma MeanOfMeans(sums: seq<real>, width: nat, means: seq<real>)
    requires |sums| == |means| > 0 && width > 0
    requires forall i :: 0 <= i < |means| ==> means[i] == Mean(sums[i], width)
    ensures |sums| * width > 0 && Mean(Sum(means), |means|) == Mean(Sum(sums), |sums| * width)
  {
    hide Sum, Dot;
    var h, w, g := |sums| as real, width as real, Mean(Sum(sums), |sums| * width);
    SumScale(means, w, sums);
    ScaleDown(h, w, g, Sum(means));
    CancelFactor(h, Mean(Sum(means), |means|), g);
  }

  lemma ScaleDown(h: real, w: real, g: real, s: real)
    requires w != 0.0 && g * (h * w) == w * s
    ensures h * g == s
  {
    assert w * (h * g) == w * s;
    CancelFactor(w, h * g, s);
  }

  /** Model effects and task effects each add to zero. */
  lemma EffectsBalance(x: seq<seq<real>>, n: nat)
    requires Nonempty(x, n)
    ensures Sum(Deviations(ModelMeans(x, n), GrandMean(x, n))) == 0.0
    ensures Sum(Deviations(TaskMeans(x, n), GrandMean(x, n))) == 0.0
  {
    SumSwap(x, n);
    MeanOfMeans(RowSums(x), n, ModelMeans(x, n));
    MeanOfMeans(ColumnSums(x, n), |x|, TaskMeans(x, n));
    DeviationsBalance(ModelMeans(x, n), Deviations(ModelMeans(x, n), GrandMean(x, n)));
    DeviationsBalance(TaskMeans(x, n), Deviations(TaskMeans(x, n), GrandMean(x, n)));
  }

  lemma ResidualRowsBalance(x: seq<seq<real>>, n: nat, i: nat)
    requires Nonempty(x, n) && i < |x|
    ensures Sum(Residuals(x, n)[i]) == 0.0
  {
    EffectsBalance(x, n);
    var dev := Deviations(x[i], ModelMeans(x, n)[i]);
    DeviationsBalance(x[i], dev);
    SumSub(dev, Deviations(TaskMeans(x, n), GrandMean(x, n)), Residuals(x, n)[i]);
  }

  lemma ResidualColumnsBalance(x: seq<seq<real>>, n: nat, j: nat)
    requires Nonempty(x, n) && j < n
    ensures Sum(Column(Residuals(x, n), n, j)) == 0.0
  {
    EffectsBalance(x, n);
    var dev := Deviations(Column(x, n, j), TaskMeans(x, n)[j]);
    DeviationsBalance(Column(x, n, j), dev);
    SumSub(dev, Deviations(ModelMeans(x, n), GrandMean(x, n)), Column(Residuals(x, n), n, j));
  }

  /** Each column of a matrix multiplied by its effect. */
  function Weighted(r: seq<seq<real>>, n: nat, effect: seq<real>): (w: seq<seq<real>>)
    requires Rectangular(r, n) && |effect| == n
    ensures |w| == |r| && Rectangular(w, n)
    ensures forall i :: 0 <= i < |r| ==> w[i] == Products(r[i], effect)
  {
    seq(|r|, i requires 0 <= i < |r| => Products(r[i], effect))
  }

  lemma WeightedColumn(r: seq<seq<real>>, n: nat, effect: seq<real>, j: nat)
    requires Rectangular(r, n) && |effect| == n && j < n
    requires Sum(Column(r, n, j)) == 0.0
    ensures Sum(Column(Weighted(r, n, effect), n, j)) == 0.0
  {
    hide Sum;
    SumScale(Column(r, n, j), effect[j], Column(Weighted(r, n, effect), n, j));
  }

  /** A matrix whose columns add to zero is orthogonal, in total, to any vector of column effects. */
  lemma ColumnsOrthogonal(r: seq<seq<real>>, n: nat, effect: seq<real>, dots: seq<real>)
    requires Rectangular(r, n) && |effect| == n && |dots| == |r|
    requires forall j :: 0 <= j < n ==> Sum(Column(r, n, j)) == 0.0
    requires forall i :: 0 <= i < |r| ==> dots[i] == Dot(r[i], effect)
    ensures Sum(dots) == 0.0
  {
    hide Sum, Dot, Products;
    var w := Weighted(r, n, effect);
    forall i | 0 <= i < |r| ensures dots[i] == RowSums(w)[i] {
      DotIsSum(r[i], effect);
    }
    assert dots == RowSums(w);
    SumSwap(w, n);
    forall j | 0 <= j < n ensures ColumnSums(w, n)[j] == 0.0 {
      WeightedColumn(r, n, effect, j);
    }
    SumConst(ColumnSums(w, n), 0.0);
  }

  /** Squares of a balanced residual plus a constant: the constant adds its own square and nothing else. */
  lemma SquareShift(r: seq<real>, d: real, dd: real, t: seq<real>)
    requires |r| == |t| && Sum(r) == 0.0 && dd == d * d
    requires forall j :: 0 <= j < |t| ==> t[j] == r[j] + d
    ensures SumSquares(t) == SumSquares(r) + |t| as real * dd
  {
    hide Sum, Dot;
    var ds := seq(|r|, j => d);
    SquareExpand(r, ds, t);
    DotConst(r, ds, d);
    DotConst(ds, ds, d);
    SumConst(ds, d);
    Rearranged(d, |t| as real, dd);
  }

  lemma Rearranged(d: real, n: real, dd: real)
    requires dd == d * d
    ensures d * (n * d) == n * dd && d * 0.0 == 0.0
  {
  }

  lemma DotShift(r: seq<real>, d: real, t: seq<real>, effect: seq<real>)
    requires |r| == |t| == |effect| && Sum(effect) == 0.0
    requires forall j :: 0 <= j < |t| ==> t[j] == r[j] + d
    ensures Dot(t, effect) == Dot(r, effect)
  {
    hide Sum, Dot;
    var ds := seq(|r|, j => d);
    DotAdd(r, ds, effect, t);
    DotSymmetric(ds, effect);
    DotConst(effect, ds, d);
  }

  /** One row of the total: its residual, its model effect and the task effects, plus a cross term. */
  lemma RowPartition(r: seq<real>, d: real, dd: real, effect: seq<real>, t: seq<real>)
    requires |r| == |t| == |effect| && Sum(r) == 0.0 && Sum(effect) == 0.0 && dd == d * d
    requires forall j :: 0 <= j < |t| ==> t[j] == r[j] + d + effect[j]
    ensures SumSquares(t) == SumSquares(r) + |t| as real * dd + SumSquares(effect) + 2.0 * Dot(r, effect)
  {
    hide Sum, Dot;
    var u := seq(|r|, j requires 0 <= j < |r| => r[j] + d);
    SquareExpand(u, effect, t);
    SquareShift(r, d, dd, u);
    DotShift(r, d, u, effect);
  }

  lemma AddUp(total: seq<real>, parts: seq<real>, q: real, dots: seq<real>)
    requires |total| == |parts| == |dots| && Sum(dots) == 0.0
    requires forall i :: 0 <= i < |total| ==> total[i] == parts[i] + q + 2.0 * dots[i]
    ensures Sum(total) == Sum(parts) + |total| as real * q
  {
    hide *;
    SumScale(dots, 2.0, Scaled(2.0, dots));
    SumAdd(parts, Scaled(2.0, dots), Plus(parts, Scaled(2.0, dots)));
    SumShift(total, q, Plus(parts, Scaled(2.0, dots)));
  }

  /** Adding the row partitions up. */
  lemma PartitionTotal(total: seq<real>, residual: seq<real>, scaled: seq<real>, q: real, dots: seq<real>)
    requires |total| == |residual| == |scaled| == |dots| && Sum(dots) == 0.0
    requires forall i :: 0 <= i < |total| ==> total[i] == residual[i] + scaled[i] + q + 2.0 * dots[i]
    ensures Sum(total) == Sum(residual) + Sum(scaled) + |total| as real * q
  {
    hide *;
    SumAdd(residual, scaled, Plus(residual, scaled));
    AddUp(total, Plus(residual, scaled), q, dots);
  }

  /** One row of the total, with the cross term that the columns cancel. */
  lemma RowTotal(x: seq<seq<real>>, n: nat, i: nat)
    requires Nonempty(x, n) && i < |x|
    ensures var g, r := GrandMean(x, n), Residuals(x, n);
            var d, effect := Deviations(ModelMeans(x, n), g), Deviations(TaskMeans(x, n), g);
            RowSquares(Centered(x, g))[i]
              == RowSquares(r)[i] + n as real * Products(d, d)[i] + SumSquares(effect) + 2.0 * Dot(r[i], effect)
  {
    hide Sum, Dot, SumSquares, GrandMean, ModelMeans, TaskMeans, Residuals, Products;
    var g, r := GrandMean(x, n), Residuals(x, n);
    var d, effect := Deviations(ModelMeans(x, n), g), Deviations(TaskMeans(x, n), g);
    EffectsBalance(x, n);
    ResidualRowsBalance(x, n, i);
    RowPartition(r[i], d[i], Products(d, d)[i], effect, Deviations(x[i], g));
  }

  function CrossTerms(r: seq<seq<real>>, effect: seq<real>): (dots: seq<real>)
    requires Rectangular(r, |effect|)
    ensures |dots| == |r| && forall i :: 0 <= i < |r| ==> dots[i] == Dot(r[i], effect)
  {
    seq(|r|, i requires 0 <= i < |r| => Dot(r[i], effect))
  }

  lemma TotalByRows(x: seq<seq<real>>, n: nat)
    requires Nonempty(x, n)
    ensures var g, r := GrandMean(x, n), Residuals(x, n);
            var d, effect := Deviations(ModelMeans(x, n), g), Deviations(TaskMeans(x, n), g);
            Sum(RowSquares(Centered(x, g)))
              == Sum(RowSquares(r)) + n as real * SumSquares(d) + |x| as real * SumSquares(effect)
  {
    hide Sum, Dot, SumSquares, GrandMean, ModelMeans, TaskMeans, Residuals, Products, RowSquares, Scaled, Centered;
    var g, r := GrandMean(x, n), Residuals(x, n);
    var d, effect := Deviations(ModelMeans(x, n), g), Deviations(TaskMeans(x, n), g);
    var dots, scaled := CrossTerms(r, effect), Scaled(n as real, Products(d, d));
    forall j | 0 <= j < n ensures Sum(Column(r, n, j)) == 0.0 {
      ResidualColumnsBalance(x, n, j);
    }
    ColumnsOrthogonal(r, n, effect, dots);
    forall i | 0 <= i < |x|
      ensures RowSquares(Centered(x, g))[i] == RowSquares(r)[i] + scaled[i] + SumSquares(effect) + 2.0 * dots[i]
    {
      RowTotal(x, n, i);
    }
    SquaresAreProducts(d);
    SumScale(Products(d, d), n as real, scaled);
    PartitionTotal(RowSquares(Centered(x, g)), RowSquares(r), scaled, SumSquares(effect), dots);
  }

  lemma SquaresAreProducts(d: seq<real>)
    ensures SumSquares(d) == Sum(Products(d, d))
  {
    hide Sum, Dot;
    DotIsSum(d, d);
  }

  /** Total = model + task + interaction, for every nonempty matrix. */
  lemma SumsOfSquaresClose(x: seq<seq<real>>, n: nat)
    requires Nonempty(x, n)
    ensures TotalSS(x, n) == ModelSS(x, n) + TaskSS(x, n) + InteractionSS(x, n)
  {
    hide Sum, SumSquares, GrandMean, ModelMeans, TaskMeans, Residuals, RowSquares, Centered, Deviations;
    TotalByRows(x, n);
  }
}
