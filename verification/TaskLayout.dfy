/**
 The family-by-panel layout of the tasks inside the crossed design
 (paper/build_stability_assets.py, variance_partition). Tasks carry a family and a panel label;
 in a balanced layout every family-panel cell holds the same number of tasks.
 */
module TaskLayout {
  import opened Sums
  import opened CrossedDesign

  /** The positions that are kept, ascending: `[index for index, task in enumerate(tasks) if ...]`. */
  function Positions(keep: seq<bool>): (idx: seq<nat>)
    ensures |idx| <= |keep|
    ensures forall t :: 0 <= t < |idx| ==> idx[t] < |keep| && keep[idx[t]]
  {
    if keep == [] then [] else
      var n := |keep| - 1;
      Positions(keep[..n]) + if keep[n] then [n] else []
  }

  function Pick(h: seq<real>, idx: seq<nat>): (r: seq<real>)
    requires forall t :: 0 <= t < |idx| ==> idx[t] < |h|
    ensures |r| == |idx|
    ensures forall t :: 0 <= t < |idx| ==> r[t] == h[idx[t]]
  {
    seq(|idx|, t requires 0 <= t < |idx| => h[idx[t]])
  }

  /** What the kept tasks add up to. */
  function KeptSum(h: seq<real>, keep: seq<bool>): real
    requires |h| == |keep|
  {
    Sum(Pick(h, Positions(keep)))
  }

  function All(n: nat): (keep: seq<bool>)
    ensures |keep| == n && forall j :: 0 <= j < n ==> keep[j]
  {
    seq(n, j => true)
  }

  /** The kept tasks that also carry a given label. */
  function Labelled(keep: seq<bool>, labels: seq<nat>, c: nat): (r: seq<bool>)
    requires |keep| == |labels|
    ensures |r| == |keep|
    ensures forall j :: 0 <= j < |keep| ==> r[j] == (keep[j] && labels[j] == c)
  {
    seq(|keep|, j requires 0 <= j < |keep| => keep[j] && labels[j] == c)
  }

  function GroupSums(h: seq<real>, keep: seq<bool>, labels: seq<nat>, q: nat): (r: seq<real>)
    requires |h| == |keep| == |labels|
    ensures |r| == q
    ensures forall c :: 0 <= c < q ==> r[c] == KeptSum(h, Labelled(keep, labels, c))
  {
    seq(q, c requires 0 <= c < q => KeptSum(h, Labelled(keep, labels, c)))
  }

  lemma KeptSumSnoc(h: seq<real>, keep: seq<bool>)
    requires |h| == |keep| > 0
    ensures var n := |h| - 1; KeptSum(h, keep) == KeptSum(h[..n], keep[..n]) + if keep[n] then h[n] else 0.0
  {
    var n := |h| - 1;
    var front := Pick(h[..n], Positions(keep[..n]));
    if keep[n] {
      assert Pick(h, Positions(keep)) == front + [h[n]];
      SumSnoc(front, h[n]);
    } else {
      assert Pick(h, Positions(keep)) == front;
    }
  }

  lemma GroupSnoc(h: seq<real>, keep: seq<bool>, labels: seq<nat>, q: nat, c: nat)
    requires |h| == |keep| == |labels| > 0 && c < q
    ensures GroupSums(h, keep, labels, q)[c]
         == GroupSums(h[..|h| - 1], keep[..|h| - 1], labels[..|h| - 1], q)[c]
          + if keep[|h| - 1] && labels[|h| - 1] == c then h[|h| - 1] else 0.0
  {
    var n := |h| - 1;
    KeptSumSnoc(h, Labelled(keep, labels, c));
    assert Labelled(keep, labels, c)[..n] == Labelled(keep[..n], labels[..n], c);
  }

  /** Splitting the kept tasks by label splits their sum. */
  lemma {:induction false} Grouping(h: seq<real>, keep: seq<bool>, labels: seq<nat>, q: nat)
    requires |h| == |keep| == |labels|
    requires forall j :: 0 <= j < |h| ==> labels[j] < q
    ensures Sum(GroupSums(h, keep, labels, q)) == KeptSum(h, keep)
  {
    if h == [] {
      GroupNothing(h, keep, labels, q);
    } else {
      hide *;
      var n := |h| - 1;
      var before, after := GroupSums(h[..n], keep[..n], labels[..n], q), GroupSums(h, keep, labels, q);
      Grouping(h[..n], keep[..n], labels[..n], q);
      KeptSumSnoc(h, keep);
      forall c | 0 <= c < q
        ensures after[c] == before[c] + if keep[n] && labels[n] == c then h[n] else 0.0
      {
        GroupSnoc(h, keep, labels, q, c);
      }
      if keep[n] {
        SumBump(before, after, labels[n], h[n]);
      } else {
        assert before == after;
      }
    }
  }

  lemma GroupNothing(h: seq<real>, keep: seq<bool>, labels: seq<nat>, q: nat)
    requires h == [] && keep == [] && labels == []
    ensures Sum(GroupSums(h, keep, labels, q)) == KeptSum(h, keep)
  {
    forall c | 0 <= c < q ensures GroupSums(h, keep, labels, q)[c] == 0.0 {
      assert Positions(Labelled(keep, labels, c)) == [];
    }
    SumConst(GroupSums(h, keep, labels, q), 0.0);
  }

  lemma {:induction false} KeepAll(h: seq<real>)
    ensures KeptSum(h, All(|h|)) == Sum(h)
  {
    if h != [] {
      var n := |h| - 1;
      KeptSumSnoc(h, All(|h|));
      assert All(|h|)[..n] == All(n);
      KeepAll(h[..n]);
    }
  }

  /** How many tasks are kept, as a sum of ones. */
  lemma CountAsSum(keep: seq<bool>, ones: seq<real>)
    requires |ones| == |keep| && forall j :: 0 <= j < |ones| ==> ones[j] == 1.0
    ensures KeptSum(ones, keep) == |Positions(keep)| as real
  {
    hide Sum;
    SumConst(Pick(ones, Positions(keep)), 1.0);
  }

  /** The columns a matrix keeps. */
  function Submatrix(x: seq<seq<real>>, n: nat, idx: seq<nat>): (y: seq<seq<real>>)
    requires Rectangular(x, n) && forall t :: 0 <= t < |idx| ==> idx[t] < n
    ensures |y| == |x| && Rectangular(y, |idx|)
    ensures forall i :: 0 <= i < |x| ==> y[i] == Pick(x[i], idx)
  {
    seq(|x|, i requires 0 <= i < |x| => Pick(x[i], idx))
  }

  /** `matrix[:, positions].mean()`. */
  function KeptMean(x: seq<seq<real>>, n: nat, keep: seq<bool>): real
    requires Nonempty(x, n) && |keep| == n && |Positions(keep)| > 0
  {
    GrandMean(Submatrix(x, n, Positions(keep)), |Positions(keep)|)
  }

  /** The mean over a block of columns is the mean of those columns' task means. */
  lemma KeptMeanIsTaskMean(x: seq<seq<real>>, n: nat, keep: seq<bool>)
    requires Nonempty(x, n) && |keep| == n && |Positions(keep)| > 0
    ensures KeptMean(x, n, keep) == Mean(KeptSum(TaskMeans(x, n), keep), |Positions(keep)|)
  {
    hide Sum;
    var idx := Positions(keep);
    var y := Submatrix(x, n, idx);
    SumSwap(y, |idx|);
    forall t | 0 <= t < |idx| ensures TaskMeans(y, |idx|)[t] == Pick(TaskMeans(x, n), idx)[t] {
      assert Column(y, |idx|, t) == Column(x, n, idx[t]);
    }
    assert TaskMeans(y, |idx|) == Pick(TaskMeans(x, n), idx);
    MeanOfMeans(ColumnSums(y, |idx|), |x|, TaskMeans(y, |idx|));
  }

  /** The family and panel of each task, with how many of either there are and how many tasks a cell holds. */
  datatype Layout = Layout(family: seq<nat>, panel: seq<nat>, families: nat, panels: nat, perCell: nat) {

    function FamilyTasks(f: nat): seq<bool> {
      Labelled(All(|family|), family, f)
    }

    function PanelTasks(p: nat): seq<bool> {
      Labelled(All(|panel|), panel, p)
    }

    function CellTasks(f: nat, p: nat): seq<bool>
      requires |family| == |panel|
    {
      Labelled(FamilyTasks(f), panel, p)
    }

    ghost predicate Balanced() {
      && |family| == |panel|
      && families > 0 && panels > 0 && perCell > 0
      && (forall j :: 0 <= j < |family| ==> family[j] < families && panel[j] < panels)
      && forall f, p :: 0 <= f < families && 0 <= p < panels ==> |Positions(CellTasks(f, p))| == perCell
    }
  }

  /** A cell can be reached through its panel as well as through its family. */
  lemma CellEitherWay(l: Layout, f: nat, p: nat)
    requires l.Balanced()
    ensures l.CellTasks(f, p) == Labelled(l.PanelTasks(p), l.family, f)
  {
  }

  lemma ProductCast(q: nat, size: nat)
    ensures (q * size) as real == q as real * size as real
  {
  }

  lemma EqualGroups(keep: seq<bool>, labels: seq<nat>, q: nat, size: nat)
    requires |keep| == |labels| && forall j :: 0 <= j < |keep| ==> labels[j] < q
    requires forall c :: 0 <= c < q ==> |Positions(Labelled(keep, labels, c))| == size
    ensures |Positions(keep)| == q * size
  {
    hide *;
    var ones := seq(|keep|, j => 1.0);
    Grouping(ones, keep, labels, q);
    CountAsSum(keep, ones);
    forall c | 0 <= c < q ensures GroupSums(ones, keep, labels, q)[c] == size as real {
      CountAsSum(Labelled(keep, labels, c), ones);
    }
    SumConst(GroupSums(ones, keep, labels, q), size as real);
    ProductCast(q, size);
  }

  lemma FamilySize(l: Layout, f: nat)
    requires l.Balanced() && f < l.families
    ensures |Positions(l.FamilyTasks(f))| == l.panels * l.perCell
  {
    hide Positions, Labelled, All;
    assert forall p :: 0 <= p < l.panels ==> Labelled(l.FamilyTasks(f), l.panel, p) == l.CellTasks(f, p);
    EqualGroups(l.FamilyTasks(f), l.panel, l.panels, l.perCell);
  }

  lemma PanelSize(l: Layout, p: nat)
    requires l.Balanced() && p < l.panels
    ensures |Positions(l.PanelTasks(p))| == l.families * l.perCell
  {
    hide Positions, Labelled, All;
    forall f | 0 <= f < l.families ensures |Positions(Labelled(l.PanelTasks(p), l.family, f))| == l.perCell {
      CellEitherWay(l, f, p);
    }
    EqualGroups(l.PanelTasks(p), l.family, l.families, l.perCell);
  }

  lemma LayoutSize(l: Layout)
    requires l.Balanced()
    ensures |l.family| == l.families * (l.panels * l.perCell)
  {
    hide Positions, Labelled, All;
    AllPositions(|l.family|);
    forall f | 0 <= f < l.families
      ensures |Positions(Labelled(All(|l.family|), l.family, f))| == l.panels * l.perCell
    {
      FamilySize(l, f);
    }
    EqualGroups(All(|l.family|), l.family, l.families, l.panels * l.perCell);
  }

  /** Every family, every panel and the whole layout have the size their cells add up to. */
  lemma BlockSizes(l: Layout)
    requires l.Balanced()
    ensures forall f :: 0 <= f < l.families ==> |Positions(l.FamilyTasks(f))| == l.panels * l.perCell
    ensures forall p :: 0 <= p < l.panels ==> |Positions(l.PanelTasks(p))| == l.families * l.perCell
    ensures |l.family| == l.families * (l.panels * l.perCell)
  {
    hide *;
    forall f | 0 <= f < l.families ensures |Positions(l.FamilyTasks(f))| == l.panels * l.perCell {
      FamilySize(l, f);
    }
    forall p | 0 <= p < l.panels ensures |Positions(l.PanelTasks(p))| == l.families * l.perCell {
      PanelSize(l, p);
    }
    LayoutSize(l);
  }

  lemma {:induction false} AllPositions(n: nat)
    ensures |Positions(All(n))| == n
  {
    if n > 0 {
      assert All(n)[..n - 1] == All(n - 1);
      AllPositions(n - 1);
    }
  }

  ghost predicate Fits(x: seq<seq<real>>, l: Layout) {
    l.Balanced() && Nonempty(x, |l.family|)
  }

  function FamilyMean(x: seq<seq<real>>, l: Layout, f: nat): (r: real)
    requires Fits(x, l) && f < l.families
    ensures |Positions(l.FamilyTasks(f))| > 0 && r == KeptMean(x, |l.family|, l.FamilyTasks(f))
  {
    BlockSizes(l);
    KeptMean(x, |l.family|, l.FamilyTasks(f))
  }

  function FamilyMeans(x: seq<seq<real>>, l: Layout): (r: seq<real>)
    requires Fits(x, l)
    ensures |r| == l.families
    ensures forall f :: 0 <= f < l.families ==> r[f] == FamilyMean(x, l, f)
  {
    seq(l.families, f requires 0 <= f < l.families => FamilyMean(x, l, f))
  }

  function PanelMean(x: seq<seq<real>>, l: Layout, p: nat): (r: real)
    requires Fits(x, l) && p < l.panels
    ensures |Positions(l.PanelTasks(p))| > 0 && r == KeptMean(x, |l.family|, l.PanelTasks(p))
  {
    BlockSizes(l);
    KeptMean(x, |l.family|, l.PanelTasks(p))
  }

  function PanelMeans(x: seq<seq<real>>, l: Layout): (r: seq<real>)
    requires Fits(x, l)
    ensures |r| == l.panels
    ensures forall p :: 0 <= p < l.panels ==> r[p] == PanelMean(x, l, p)
  {
    seq(l.panels, p requires 0 <= p < l.panels => PanelMean(x, l, p))
  }

  function CellMeans(x: seq<seq<real>>, l: Layout): (c: seq<seq<real>>)
    requires Fits(x, l)
    ensures |c| == l.families && Nonempty(c, l.panels)
    ensures forall f, p :: 0 <= f < l.families && 0 <= p < l.panels ==>
              c[f][p] == KeptMean(x, |l.family|, l.CellTasks(f, p))
  {
    seq(l.families, f requires 0 <= f < l.families =>
      seq(l.panels, p requires 0 <= p < l.panels => KeptMean(x, |l.family|, l.CellTasks(f, p))))
  }

  /** `model_count * 178 * sum((family_mean - grand) ** 2)`, 178 being the tasks of one family. */
  function FamilySS(x: seq<seq<real>>, l: Layout): real
    requires Fits(x, l)
  {
    (|x| * (l.panels * l.perCell)) as real * SumSquares(Deviations(FamilyMeans(x, l), GrandMean(x, |l.family|)))
  }

  /** `model_count * 267 * sum((panel_mean - grand) ** 2)`, 267 being the tasks of one panel. */
  function PanelSS(x: seq<seq<real>>, l: Layout): real
    requires Fits(x, l)
  {
    (|x| * (l.families * l.perCell)) as real * SumSquares(Deviations(PanelMeans(x, l), GrandMean(x, |l.family|)))
  }

  function CellResiduals(x: seq<seq<real>>, l: Layout): (r: seq<seq<real>>)
    requires Fits(x, l)
    ensures |r| == l.families && Rectangular(r, l.panels)
    ensures forall f :: 0 <= f < l.families ==>
              r[f] == ResidualRow(CellMeans(x, l)[f], FamilyMeans(x, l)[f], PanelMeans(x, l), GrandMean(x, |l.family|))
  {
    seq(l.families, f requires 0 <= f < l.families =>
      ResidualRow(CellMeans(x, l)[f], FamilyMeans(x, l)[f], PanelMeans(x, l), GrandMean(x, |l.family|)))
  }

  function FamilyPanelSS(x: seq<seq<real>>, l: Layout): real
    requires Fits(x, l)
  {
    (|x| * l.perCell) as real * Sum(RowSquares(CellResiduals(x, l)))
  }

  /** The within-cell term, obtained in the source by subtraction. */
  function WithinCellSS(x: seq<seq<real>>, l: Layout): real
    requires Fits(x, l)
  {
    TaskSS(x, |l.family|) - FamilySS(x, l) - PanelSS(x, l) - FamilyPanelSS(x, l)
  }

  /** Each task mean less the mean of its own cell. */
  function WithinCell(x: seq<seq<real>>, l: Layout): (w: seq<real>)
    requires Fits(x, l)
    ensures |w| == |l.family|
    ensures forall j :: 0 <= j < |w| ==> w[j] == TaskMeans(x, |w|)[j] - CellMeans(x, l)[l.family[j]][l.panel[j]]
  {
    seq(|l.family|, j requires 0 <= j < |l.family| =>
      TaskMeans(x, |l.family|)[j] - CellMeans(x, l)[l.family[j]][l.panel[j]])
  }

  function TaskEffects(x: seq<seq<real>>, l: Layout): seq<real>
    requires Fits(x, l)
  {
    Deviations(TaskMeans(x, |l.family|), GrandMean(x, |l.family|))
  }

  lemma CellMeanIsTaskMean(x: seq<seq<real>>, l: Layout, f: nat, p: nat)
    requires Fits(x, l) && f < l.families && p < l.panels
    ensures CellMeans(x, l)[f][p] == Mean(KeptSum(TaskMeans(x, |l.family|), l.CellTasks(f, p)), l.perCell)
  {
    KeptMeanIsTaskMean(x, |l.family|, l.CellTasks(f, p));
  }

  /** Family means are the row means of the cell means. */
  lemma FamilyMeanOfCells(x: seq<seq<real>>, l: Layout, f: nat)
    requires Fits(x, l) && f < l.families
    ensures FamilyMeans(x, l)[f] == ModelMeans(CellMeans(x, l), l.panels)[f]
    ensures FamilyMeans(x, l)[f] == Mean(KeptSum(TaskMeans(x, |l.family|), l.FamilyTasks(f)), l.panels * l.perCell)
  {
    hide Sum, Positions;
    var b, c := TaskMeans(x, |l.family|), CellMeans(x, l);
    BlockSizes(l);
    KeptMeanIsTaskMean(x, |l.family|, l.FamilyTasks(f));
    Grouping(b, l.FamilyTasks(f), l.panel, l.panels);
    var sums := GroupSums(b, l.FamilyTasks(f), l.panel, l.panels);
    forall p | 0 <= p < l.panels ensures c[f][p] == Mean(sums[p], l.perCell) {
      CellMeanIsTaskMean(x, l, f, p);
    }
    MeanOfMeans(sums, l.perCell, c[f]);
  }

  /** Panel means are the column means of the cell means. */
  lemma PanelMeanOfCells(x: seq<seq<real>>, l: Layout, p: nat)
    requires Fits(x, l) && p < l.panels
    ensures PanelMeans(x, l)[p] == TaskMeans(CellMeans(x, l), l.panels)[p]
  {
    hide Sum, Positions;
    var b, c := TaskMeans(x, |l.family|), CellMeans(x, l);
    BlockSizes(l);
    KeptMeanIsTaskMean(x, |l.family|, l.PanelTasks(p));
    Grouping(b, l.PanelTasks(p), l.family, l.families);
    var sums := GroupSums(b, l.PanelTasks(p), l.family, l.families);
    forall f | 0 <= f < l.families ensures Column(c, l.panels, p)[f] == Mean(sums[f], l.perCell) {
      CellMeanIsTaskMean(x, l, f, p);
      CellEitherWay(l, f, p);
    }
    MeanOfMeans(sums, l.perCell, Column(c, l.panels, p));
  }

  /** The grand mean is the grand mean of the cell means. */
  lemma GrandMeanOfCells(x: seq<seq<real>>, l: Layout)
    requires Fits(x, l)
    ensures GrandMean(x, |l.family|) == GrandMean(CellMeans(x, l), l.panels)
  {
    hide Sum, Positions, GrandMean;
    GrandMeanOfFamilies(x, l);
    var c := CellMeans(x, l);
    forall f | 0 <= f < l.families ensures FamilyMeans(x, l)[f] == ModelMeans(c, l.panels)[f] {
      FamilyMeanOfCells(x, l, f);
    }
    assert FamilyMeans(x, l) == ModelMeans(c, l.panels);
    GrandMeanOfRows(c, l.panels);
  }

  lemma GrandMeanOfRows(c: seq<seq<real>>, n: nat)
    requires Nonempty(c, n)
    ensures GrandMean(c, n) == Mean(Sum(ModelMeans(c, n)), |c|)
  {
    hide Sum;
    MeanOfMeans(RowSums(c), n, ModelMeans(c, n));
  }

  lemma GrandMeanOfTasks(x: seq<seq<real>>, n: nat)
    requires Nonempty(x, n)
    ensures GrandMean(x, n) == Mean(Sum(TaskMeans(x, n)), n)
  {
    hide Sum;
    SumSwap(x, n);
    MeanOfMeans(ColumnSums(x, n), |x|, TaskMeans(x, n));
  }

  lemma GrandMeanOfFamilies(x: seq<seq<real>>, l: Layout)
    requires Fits(x, l)
    ensures GrandMean(x, |l.family|) == Mean(Sum(FamilyMeans(x, l)), l.families)
  {
    hide Sum, Positions, GrandMean;
    var n := |l.family|;
    var b := TaskMeans(x, n);
    BlockSizes(l);
    GrandMeanOfTasks(x, n);
    var sums := GroupSums(b, All(n), l.family, l.families);
    Grouping(b, All(n), l.family, l.families);
    KeepAll(b);
    forall f | 0 <= f < l.families ensures FamilyMeans(x, l)[f] == Mean(sums[f], l.panels * l.perCell) {
      FamilyMeanOfCells(x, l, f);
    }
    MeanOfMeans(sums, l.panels * l.perCell, FamilyMeans(x, l));
  }

  /** A cell's squared deviations from the grand mean: its spread about its own mean, plus its mean's. */
  lemma CellSplit(h: seq<real>, w: seq<real>, dev: seq<real>, keep: seq<bool>, c: real, g: real, size: nat, dd: real)
    requires |h| == |w| == |dev| == |keep| && size > 0 && |Positions(keep)| == size && dd == (c - g) * (c - g)
    requires c == Mean(KeptSum(h, keep), size)
    requires forall j :: 0 <= j < |h| ==> dev[j] == h[j] - g && (keep[j] ==> w[j] == h[j] - c)
    ensures KeptSum(Products(dev, dev), keep) == KeptSum(Products(w, w), keep) + size as real * dd
  {
    hide Sum, Dot, Products, Positions;
    var idx := Positions(keep);
    var t, r := Pick(dev, idx), Pick(w, idx);
    DeviationsBalance(Pick(h, idx), r);
    SquareShift(r, c - g, dd, t);
    DotIsSum(t, t);
    DotIsSum(r, r);
    PickProducts(dev, idx);
    PickProducts(w, idx);
  }

  lemma PickProducts(a: seq<real>, idx: seq<nat>)
    requires forall t :: 0 <= t < |idx| ==> idx[t] < |a|
    ensures Pick(Products(a, a), idx) == Products(Pick(a, idx), Pick(a, idx))
  {
    var left, right := Pick(Products(a, a), idx), Products(Pick(a, idx), Pick(a, idx));
    forall t | 0 <= t < |idx| ensures left[t] == right[t] {
      assert Pick(a, idx)[t] == a[idx[t]];
    }
  }

  /** Adding up `total = part + size * effect` over groups. */
  lemma AddGroups(total: seq<real>, part: seq<real>, effect: seq<real>, size: real, e: real)
    requires |total| == |part| == |effect| && e == Sum(effect)
    requires forall i :: 0 <= i < |total| ==> total[i] == part[i] + size * effect[i]
    ensures Sum(total) == Sum(part) + size * e
  {
    hide *;
    SumScale(effect, size, Scaled(size, effect));
    SumAdd(part, Scaled(size, effect), total);
  }

  /** One cell of a family. */
  lemma CellOfFamily(x: seq<seq<real>>, l: Layout, f: nat, p: nat)
    requires Fits(x, l) && f < l.families && p < l.panels
    ensures var dev, w := TaskEffects(x, l), WithinCell(x, l);
            var cell := Deviations(CellMeans(x, l)[f], GrandMean(x, |l.family|));
            KeptSum(Products(dev, dev), l.CellTasks(f, p))
              == KeptSum(Products(w, w), l.CellTasks(f, p)) + l.perCell as real * Products(cell, cell)[p]
  {
    hide Sum, Dot, Products, Positions, KeptSum, GrandMean, TaskMeans, CellMeans;
    var g, c := GrandMean(x, |l.family|), CellMeans(x, l)[f][p];
    CellMeanIsTaskMean(x, l, f, p);
    CellSplit(TaskMeans(x, |l.family|), WithinCell(x, l), TaskEffects(x, l), l.CellTasks(f, p), c, g, l.perCell,
      (c - g) * (c - g));
  }

  /** A family's squared deviations: the within-cell ones, plus those of its cell means. */
  lemma FamilySplit(x: seq<seq<real>>, l: Layout, f: nat)
    requires Fits(x, l) && f < l.families
    ensures KeptSum(Products(TaskEffects(x, l), TaskEffects(x, l)), l.FamilyTasks(f))
         == KeptSum(Products(WithinCell(x, l), WithinCell(x, l)), l.FamilyTasks(f))
          + l.perCell as real * SumSquares(Deviations(CellMeans(x, l)[f], GrandMean(x, |l.family|)))
  {
    hide Sum, Dot, SumSquares, Products, Positions, KeptSum, Labelled, GrandMean, TaskMeans, CellMeans, WithinCell;
    var g, w, keep := GrandMean(x, |l.family|), WithinCell(x, l), l.FamilyTasks(f);
    var dev, cell := TaskEffects(x, l), Deviations(CellMeans(x, l)[f], g);
    var total := GroupSums(Products(dev, dev), keep, l.panel, l.panels);
    var part := GroupSums(Products(w, w), keep, l.panel, l.panels);
    Grouping(Products(dev, dev), keep, l.panel, l.panels);
    Grouping(Products(w, w), keep, l.panel, l.panels);
    SquaresAreProducts(cell);
    forall p | 0 <= p < l.panels ensures total[p] == part[p] + l.perCell as real * Products(cell, cell)[p] {
      CellOfFamily(x, l, f, p);
    }
    AddGroups(total, part, Products(cell, cell), l.perCell as real, SumSquares(cell));
  }

  /** The squared task effects: the within-cell ones, plus the total for the cell means. */
  lemma TaskSplit(x: seq<seq<real>>, l: Layout)
    requires Fits(x, l)
    ensures SumSquares(TaskEffects(x, l))
         == SumSquares(WithinCell(x, l)) + l.perCell as real * TotalSS(CellMeans(x, l), l.panels)
  {
    hide Sum, Dot, Products, Positions, KeptSum, Labelled;
    var n := |l.family|;
    var g, w, c := GrandMean(x, n), WithinCell(x, l), CellMeans(x, l);
    var dev := TaskEffects(x, l);
    GrandMeanOfCells(x, l);
    var total := GroupSums(Products(dev, dev), All(n), l.family, l.families);
    var part := GroupSums(Products(w, w), All(n), l.family, l.families);
    var effect := RowSquares(Centered(c, g));
    Grouping(Products(dev, dev), All(n), l.family, l.families);
    Grouping(Products(w, w), All(n), l.family, l.families);
    KeepAll(Products(dev, dev));
    KeepAll(Products(w, w));
    DotIsSum(dev, dev);
    DotIsSum(w, w);
    forall f | 0 <= f < l.families ensures total[f] == part[f] + l.perCell as real * effect[f] {
      FamilySplit(x, l, f);
    }
    AddGroups(total, part, effect, l.perCell as real, TotalSS(c, l.panels));
  }

  lemma WithinAlgebra(m: nat, k: nat, families: nat, panels: nat, w: real, a: real, b: real, i: real, c: real)
    requires c == panels as real * a + families as real * b + i
    ensures m as real * (w + k as real * c) - (m * (panels * k)) as real * a - (m * (families * k)) as real * b
              - (m * k) as real * i
         == m as real * w
  {
    var mr, kr, pr, fr := m as real, k as real, panels as real, families as real;
    assert (m * (panels * k)) as real == mr * (pr * kr);
    assert (m * (families * k)) as real == mr * (fr * kr);
    assert (m * k) as real == mr * kr;
    assert mr * (w + kr * c) == mr * w + mr * kr * (pr * a) + mr * kr * (fr * b) + mr * kr * i;
  }

  /** Partitioning the cell means as a crossed design of their own gives the family, panel and interaction terms. */
  lemma CellsPartition(x: seq<seq<real>>, l: Layout)
    requires Fits(x, l)
    ensures TotalSS(CellMeans(x, l), l.panels)
         == l.panels as real * SumSquares(Deviations(FamilyMeans(x, l), GrandMean(x, |l.family|)))
          + l.families as real * SumSquares(Deviations(PanelMeans(x, l), GrandMean(x, |l.family|)))
          + Sum(RowSquares(CellResiduals(x, l)))
  {
    hide Sum, Dot, Positions;
    var c := CellMeans(x, l);
    GrandMeanOfCells(x, l);
    forall f | 0 <= f < l.families ensures FamilyMeans(x, l)[f] == ModelMeans(c, l.panels)[f] {
      FamilyMeanOfCells(x, l, f);
    }
    forall p | 0 <= p < l.panels ensures PanelMeans(x, l)[p] == TaskMeans(c, l.panels)[p] {
      PanelMeanOfCells(x, l, p);
    }
    assert FamilyMeans(x, l) == ModelMeans(c, l.panels);
    assert PanelMeans(x, l) == TaskMeans(c, l.panels);
    assert CellResiduals(x, l) == Residuals(c, l.panels);
    SumsOfSquaresClose(c, l.panels);
  }

  lemma WithinCellTerms(x: seq<seq<real>>, l: Layout)
    requires Fits(x, l)
    ensures var g, m, k := GrandMean(x, |l.family|), |x|, l.perCell;
            WithinCellSS(x, l)
              == m as real * SumSquares(TaskEffects(x, l))
               - (m * (l.panels * k)) as real * SumSquares(Deviations(FamilyMeans(x, l), g))
               - (m * (l.families * k)) as real * SumSquares(Deviations(PanelMeans(x, l), g))
               - (m * k) as real * Sum(RowSquares(CellResiduals(x, l)))
  {
    hide Sum, SumSquares, GrandMean, TaskMeans, FamilyMeans, PanelMeans, CellResiduals, RowSquares, Deviations;
  }

  lemma Shapes(x: seq<seq<real>>, l: Layout)
    requires Fits(x, l)
    ensures Nonempty(x, |l.family|) && Nonempty(CellMeans(x, l), l.panels)
  {
  }

  lemma WithinTotal(
    m: nat, k: nat, families: nat, panels: nat, within: real, task: real, w: real, a: real, b: real, i: real, c: real)
    requires c == panels as real * a + families as real * b + i && task == w + k as real * c && w >= 0.0
    requires within == m as real * task - (m * (panels * k)) as real * a - (m * (families * k)) as real * b
              - (m * k) as real * i
    ensures within == m as real * w && within >= 0.0
  {
    WithinAlgebra(m, k, families, panels, w, a, b, i, c);
  }

  /** The within-cell term found by subtraction is the model count times the squared spread inside the cells. */
  lemma WithinCellIsSpread(x: seq<seq<real>>, l: Layout)
    requires Fits(x, l)
    ensures WithinCellSS(x, l) == |x| as real * SumSquares(WithinCell(x, l))
    ensures WithinCellSS(x, l) >= 0.0
  {
    hide *;
    Shapes(x, l);
    var g := GrandMean(x, |l.family|);
    WithinCellTerms(x, l);
    TaskSplit(x, l);
    CellsPartition(x, l);
    SumSquaresNonneg(WithinCell(x, l));
    WithinTotal(|x|, l.perCell, l.families, l.panels, WithinCellSS(x, l), SumSquares(TaskEffects(x, l)),
      SumSquares(WithinCell(x, l)), SumSquares(Deviations(FamilyMeans(x, l), g)),
      SumSquares(Deviations(PanelMeans(x, l), g)), Sum(RowSquares(CellResiduals(x, l))),
      TotalSS(CellMeans(x, l), l.panels));
  }
}
