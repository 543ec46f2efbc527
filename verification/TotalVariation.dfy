/**
 Total variation between the category mixes of two task groups (paper/build_selection_robustness_assets.py):
 _total_variation over two label lists, and the vectorised form _selection_profile uses on random subsets.
 The order in which the labels are visited is a parameter, as Python's set iteration leaves it open.
 */
module TotalVariation {
  import opened Finite
  import opened Outcomes
  import opened Sums

  /** How many positions hold a label of the set. */
  function InCount(s: seq<string>, a: set<string>): nat {
    if s == [] then 0 else InCount(s[..|s| - 1], a) + if s[|s| - 1] in a then 1 else 0
  }

  /** `Counter(s)[x]`. */
  function CountOf(s: seq<string>, x: string): nat {
    InCount(s, {x})
  }

  /** The fraction of a group whose label lies in the set. */
  function Share(s: seq<string>, a: set<string>): real
    requires s != []
  {
    InCount(s, a) as real / |s| as real
  }

  /** The labels of either group, each listed once in some order. */
  ghost predicate Lists(labels: seq<string>, left: seq<string>, right: seq<string>) {
    Distinct(labels) && Elements(labels) == Elements(left) + Elements(right)
  }

  function Gap(left: seq<string>, right: seq<string>, x: string): real
    requires left != [] && right != []
  {
    CountOf(left, x) as real / |left| as real - CountOf(right, x) as real / |right| as real
  }

  function Abs(x: real): real {
    if x < 0.0 then -x else x
  }

  function AbsGaps(left: seq<string>, right: seq<string>, labels: seq<string>): (g: seq<real>)
    requires left != [] && right != []
    ensures |g| == |labels|
    ensures forall i :: 0 <= i < |g| ==> g[i] == Abs(Gap(left, right, labels[i]))
  {
    seq(|labels|, i requires 0 <= i < |labels| => Abs(Gap(left, right, labels[i])))
  }

  datatype Fault = ZeroDivision

  /** The source's `_total_variation`. With no label at all nothing is divided. */
  function Variation(left: seq<string>, right: seq<string>, labels: seq<string>): Result<real, Fault> {
    if labels == [] then Ok(0.0)
    else if left == [] || right == [] then Err(ZeroDivision)
    else Ok(0.5 * Sum(AbsGaps(left, right, labels)))
  }

  // ---- sums over labels are counts over positions ----

  /** One value per label, over the labels of a set. */
  function CountsIn(s: seq<string>, labels: seq<string>, a: set<string>): (c: seq<real>)
    ensures |c| == |labels|
    ensures forall i :: 0 <= i < |c| ==> c[i] == if labels[i] in a then CountOf(s, labels[i]) as real else 0.0
  {
    seq(|labels|, i requires 0 <= i < |labels| => if labels[i] in a then CountOf(s, labels[i]) as real else 0.0)
  }

  lemma {:induction false} CountsSum(s: seq<string>, labels: seq<string>, a: set<string>)
    requires Distinct(labels) && forall x :: x in s ==> x in labels
    ensures Sum(CountsIn(s, labels, a)) == InCount(s, a) as real
  {
    var counts := CountsIn(s, labels, a);
    if s == [] {
      SumConst(counts, 0.0);
    } else {
      hide Sum;
      var front, y := s[..|s| - 1], s[|s| - 1];
      CountsSum(front, labels, a);
      assert y in s;
      var c :| 0 <= c < |labels| && labels[c] == y;
      SumBump(CountsIn(front, labels, a), counts, c, if y in a then 1.0 else 0.0);
    }
  }

  lemma {:induction false} InCountAll(s: seq<string>, a: set<string>)
    requires Elements(s) <= a
    ensures InCount(s, a) == |s|
  {
    if s != [] {
      var front := s[..|s| - 1];
      assert s[|s| - 1] in Elements(s);
      assert forall x :: x in front ==> x in s;
      InCountAll(front, a);
    }
  }

  function GapsIn(left: seq<string>, right: seq<string>, labels: seq<string>, a: set<string>): (g: seq<real>)
    requires left != [] && right != []
    ensures |g| == |labels|
    ensures forall i :: 0 <= i < |g| ==> g[i] == if labels[i] in a then Gap(left, right, labels[i]) else 0.0
  {
    seq(|labels|, i requires 0 <= i < |labels| => if labels[i] in a then Gap(left, right, labels[i]) else 0.0)
  }

  lemma DivideIsScale(x: real, n: real)
    requires n != 0.0
    ensures x / n == (1.0 / n) * x
  {
  }

  function SharesIn(s: seq<string>, labels: seq<string>, a: set<string>): (c: seq<real>)
    requires s != []
    ensures |c| == |labels|
    ensures forall i :: 0 <= i < |c| ==>
              c[i] == if labels[i] in a then CountOf(s, labels[i]) as real / |s| as real else 0.0
  {
    seq(|labels|, i requires 0 <= i < |labels| =>
      if labels[i] in a then CountOf(s, labels[i]) as real / |s| as real else 0.0)
  }

  lemma SharesSum(s: seq<string>, labels: seq<string>, a: set<string>)
    requires s != [] && Distinct(labels) && forall x :: x in s ==> x in labels
    ensures Sum(SharesIn(s, labels, a)) == Share(s, a)
  {
    hide Sum, InCount;
    CountsSum(s, labels, a);
    var k, n := 1.0 / |s| as real, |s| as real;
    var shares, counts := SharesIn(s, labels, a), CountsIn(s, labels, a);
    forall i | 0 <= i < |shares| ensures shares[i] == k * counts[i] {
      DivideIsScale(counts[i], n);
    }
    SumScale(counts, k, shares);
    DivideIsScale(InCount(s, a) as real, n);
  }

  /** Gaps added over the labels of a set are the difference of the groups' shares in it. */
  lemma GapsSum(left: seq<string>, right: seq<string>, labels: seq<string>, a: set<string>)
    requires left != [] && right != [] && Lists(labels, left, right)
    ensures Sum(GapsIn(left, right, labels, a)) == Share(left, a) - Share(right, a)
  {
    hide Sum, InCount, Share;
    ListsCover(labels, left, right);
    SharesSum(left, labels, a);
    SharesSum(right, labels, a);
    SumSub(SharesIn(left, labels, a), SharesIn(right, labels, a), GapsIn(left, right, labels, a));
  }

  lemma ListsCover(labels: seq<string>, left: seq<string>, right: seq<string>)
    requires Lists(labels, left, right)
    ensures forall x :: x in labels <==> x in left || x in right
  {
    assert forall x :: x in Elements(labels) <==> x in labels;
    assert forall x :: x in labels <==> x in Elements(left) + Elements(right);
  }

  lemma {:induction false} SumAtMost(a: seq<real>, b: seq<real>)
    requires |a| == |b| && forall i :: 0 <= i < |a| ==> a[i] <= b[i]
    ensures Sum(a) <= Sum(b)
  {
    if a != [] {
      SumAtMost(a[..|a| - 1], b[..|b| - 1]);
    }
  }

  /** The labels the left group has relatively more of. */
  function Favoured(left: seq<string>, right: seq<string>): set<string>
    requires left != [] && right != []
  {
    set x | x in Elements(left) && Gap(left, right, x) > 0.0
  }

  lemma {:induction false} AbsentCount(s: seq<string>, a: set<string>)
    requires forall x :: x in s ==> x !in a
    ensures InCount(s, a) == 0
  {
    if s != [] {
      assert s[|s| - 1] in s;
      assert forall x :: x in s[..|s| - 1] ==> x in s;
      AbsentCount(s[..|s| - 1], a);
    }
  }

  lemma DivideNonneg(x: real, n: real)
    requires x >= 0.0 && n > 0.0
    ensures x / n >= 0.0
  {
  }

  lemma FavouredMeans(left: seq<string>, right: seq<string>, x: string)
    requires left != [] && right != []
    ensures x in Favoured(left, right) <==> Gap(left, right, x) > 0.0
  {
    hide InCount;
    if x !in left {
      AbsentCount(left, {x});
      DivideNonneg(CountOf(right, x) as real, |right| as real);
    }
  }

  /**
   The textbook meaning: the distance is the largest difference between the groups' shares over all sets of
   labels, reached at the favoured ones. It therefore does not depend on the order of the labels.
   */
  lemma VariationIsLargestGap(left: seq<string>, right: seq<string>, labels: seq<string>, a: set<string>)
    requires left != [] && right != [] && Lists(labels, left, right)
    ensures var best := Favoured(left, right);
            && Variation(left, right, labels) == Ok(Share(left, best) - Share(right, best))
            && Share(left, a) - Share(right, a) <= Share(left, best) - Share(right, best)
  {
    hide Sum, Share, Gap, InCount;
    var best := Favoured(left, right);
    var all, up := GapsIn(left, right, labels, Elements(labels)), GapsIn(left, right, labels, best);
    var distance := AbsGaps(left, right, labels);
    forall i | 0 <= i < |labels| ensures distance[i] == Scaled(2.0, up)[i] - all[i] {
      FavouredMeans(left, right, labels[i]);
    }
    SumSub(Scaled(2.0, up), all, distance);
    SumScale(up, 2.0, Scaled(2.0, up));
    GapsSum(left, right, labels, Elements(labels));
    GapsSum(left, right, labels, best);
    GapsSum(left, right, labels, a);
    WholeShare(left, labels);
    WholeShare(right, labels);
    assert left[0] in Elements(left);
    assert labels != [];
    var some := GapsIn(left, right, labels, a);
    forall i | 0 <= i < |labels| ensures some[i] <= up[i] {
      FavouredMeans(left, right, labels[i]);
    }
    SumAtMost(some, up);
  }

  lemma FractionBounds(x: real, n: real)
    requires 0.0 <= x <= n && n > 0.0
    ensures 0.0 <= x / n <= 1.0
    ensures x / n == 1.0 <==> x == n
    ensures x / n == 0.0 <==> x == 0.0
  {
    var q := x / n;
    assert q * n == x;
    if q > 1.0 {
      MulPositive(q - 1.0, n, (q - 1.0) * n);
    }
  }

  lemma NoLabels(labels: seq<string>)
    ensures labels == [] <==> forall x :: x !in labels
  {
    if labels != [] {
      assert labels[0] in labels;
    }
  }

  lemma WholeShare(s: seq<string>, labels: seq<string>)
    requires s != [] && Elements(s) <= Elements(labels)
    ensures Share(s, Elements(labels)) == 1.0
  {
    InCountAll(s, Elements(labels));
    FractionBounds(|s| as real, |s| as real);
  }

  /** Any order of the labels gives the same distance, and swapping the groups does too. */
  lemma VariationSymmetric(left: seq<string>, right: seq<string>, labels: seq<string>, others: seq<string>)
    requires Lists(labels, left, right) && Lists(others, right, left)
    ensures Variation(left, right, labels) == Variation(right, left, others)
  {
    hide Sum, Share, Gap, InCount;
    ListsCover(labels, left, right);
    ListsCover(others, right, left);
    if left == [] && right == [] {
      NoLabels(labels);
      NoLabels(others);
    } else if left == [] {
      assert right[0] in labels && right[0] in others;
    } else if right == [] {
      assert left[0] in labels && left[0] in others;
    } else {
      var a, b := AbsGaps(left, right, others), AbsGaps(right, left, others);
      assert Lists(others, left, right);
      VariationIsLargestGap(left, right, labels, {});
      VariationIsLargestGap(left, right, others, {});
      assert left[0] in others;
      forall i | 0 <= i < |others| ensures a[i] == b[i] {
        GapTurns(left, right, others[i]);
      }
      assert a == b;
    }
  }

  lemma GapTurns(left: seq<string>, right: seq<string>, x: string)
    requires left != [] && right != []
    ensures Gap(right, left, x) == -Gap(left, right, x)
  {
  }

  lemma {:induction false} InCountBound(s: seq<string>, a: set<string>)
    ensures InCount(s, a) <= |s|
    ensures InCount(s, a) == |s| <==> Elements(s) <= a
    ensures InCount(s, a) == 0 <==> Elements(s) !! a
  {
    if s != [] {
      var front, y := s[..|s| - 1], s[|s| - 1];
      InCountBound(front, a);
      assert s == front + [y];
      assert Elements(s) == Elements(front) + {y};
    }
  }

  lemma ShareBounds(s: seq<string>, a: set<string>)
    requires s != []
    ensures 0.0 <= Share(s, a) <= 1.0
    ensures Share(s, a) == 1.0 <==> Elements(s) <= a
    ensures Share(s, a) == 0.0 <==> Elements(s) !! a
  {
    hide InCount;
    InCountBound(s, a);
    FractionBounds(InCount(s, a) as real, |s| as real);
  }

  /**
   The distance lies in [0, 1]; it is 1 exactly when the groups share no label, 0 exactly when their mixes are
   equal.
   */
  lemma VariationBounds(left: seq<string>, right: seq<string>, labels: seq<string>)
    requires left != [] && right != [] && Lists(labels, left, right)
    ensures Variation(left, right, labels).Ok? && 0.0 <= Variation(left, right, labels).value <= 1.0
    ensures Variation(left, right, labels).value == 1.0 <==> Elements(left) !! Elements(right)
    ensures Variation(left, right, labels).value == 0.0 <==> forall x :: x in labels ==> Gap(left, right, x) == 0.0
  {
    hide Sum, Share, Gap, InCount;
    var best, own := Favoured(left, right), Elements(left);
    VariationIsLargestGap(left, right, labels, {});
    VariationIsLargestGap(left, right, labels, own);
    ShareBounds(left, {});
    ShareBounds(right, {});
    ShareBounds(left, best);
    ShareBounds(right, best);
    ShareBounds(left, own);
    ShareBounds(right, own);
    var distance := AbsGaps(left, right, labels);
    SumNonneg(distance);
    if forall x :: x in labels ==> Gap(left, right, x) == 0.0 {
      forall i | 0 <= i < |distance| ensures distance[i] == 0.0 {
        assert labels[i] in labels;
      }
    }
    if forall i :: 0 <= i < |distance| ==> distance[i] == 0.0 {
      forall x | x in labels ensures Gap(left, right, x) == 0.0 {
        var i :| 0 <= i < |labels| && labels[i] == x;
        assert distance[i] == 0.0;
      }
    }
  }

  // ---- the vectorised form ----

  /** The values at the marked (or unmarked) positions: `categories[mask]` and `categories[~mask]`. */
  function Masked(s: seq<string>, mask: seq<bool>, on: bool): seq<string>
    requires |s| == |mask|
  {
    if s == [] then [] else
      var front := Masked(s[..|s| - 1], mask[..|s| - 1], on);
      if mask[|s| - 1] == on then front + [s[|s| - 1]] else front
  }

  lemma {:induction false} MaskSplits(s: seq<string>, mask: seq<bool>, a: set<string>)
    requires |s| == |mask|
    ensures InCount(Masked(s, mask, true), a) + InCount(Masked(s, mask, false), a) == InCount(s, a)
    ensures |Masked(s, mask, true)| + |Masked(s, mask, false)| == |s|
    ensures forall x :: x in s <==> x in Masked(s, mask, true) || x in Masked(s, mask, false)
  {
    if s != [] {
      var n := |s| - 1;
      MaskSplits(s[..n], mask[..n], a);
      var part := Masked(s[..n], mask[..n], mask[n]);
      assert Masked(s, mask, mask[n]) == part + [s[n]];
      assert (part + [s[n]])[..|part|] == part;
      assert s == s[..n] + [s[n]];
    }
  }

  /**
   One random subset: over the category codes, the subset's counts against the rest's, the latter by subtraction
   from the totals. It is the same distance as `_total_variation` gives between the subset and the rest.
   */
  method SplitVariation(categories: seq<string>, mask: seq<bool>, codes: seq<string>) returns (tv: real)
    requires |categories| == |mask| && Masked(categories, mask, true) != [] && Masked(categories, mask, false) != []
    requires Distinct(codes) && Elements(codes) == Elements(categories)
    ensures Lists(codes, Masked(categories, mask, true), Masked(categories, mask, false))
    ensures Ok(tv) == Variation(Masked(categories, mask, true), Masked(categories, mask, false), codes)
  {
    hide Sum, InCount, Masked;
    var chosen := Masked(categories, mask, true);
    ghost var rest := Masked(categories, mask, false);
    var size := |chosen|;
    MaskSplits(categories, mask, {});
    forall x ensures x in Elements(codes) <==> x in Elements(chosen) + Elements(rest) {
      assert x in Elements(codes) <==> x in categories;
    }
    assert chosen[0] in Elements(codes);
    ghost var distance := AbsGaps(chosen, rest, codes);
    tv := 0.0;
    SumEmpty();
    for i := 0 to |codes|
      invariant tv == Sum(distance[..i])
    {
      var total, count := CountOf(categories, codes[i]), CountOf(chosen, codes[i]);
      MaskSplits(categories, mask, {codes[i]});
      tv := tv + Abs(count as real / size as real - (total - count) as real / (|categories| - size) as real);
      assert distance[..i + 1] == distance[..i] + [distance[i]];
      SumSnoc(distance[..i], distance[i]);
    }
    assert distance[..|codes|] == distance;
    tv := tv * 0.5;
  }

  lemma SumEmpty()
    ensures Sum([]) == 0.0
  {
  }
}
