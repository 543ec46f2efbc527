/** Finite sums over exact reals, with every law stated pointwise. */
module Sums {

  function Sum(s: seq<real>): real {
    if s == [] then 0.0 else Sum(s[..|s| - 1]) + s[|s| - 1]
  }

  lemma SumSnoc(s: seq<real>, x: real)
    ensures Sum(s + [x]) == Sum(s) + x
  {
    assert (s + [x])[..|s|] == s;
  }

  lemma {:induction false} SumAdd(a: seq<real>, b: seq<real>, c: seq<real>)
    requires |a| == |b| == |c|
    requires forall i :: 0 <= i < |c| ==> c[i] == a[i] + b[i]
    ensures Sum(c) == Sum(a) + Sum(b)
  {
    if c != [] {
      var n := |c| - 1;
      SumAdd(a[..n], b[..n], c[..n]);
    }
  }

  lemma SumSub(a: seq<real>, b: seq<real>, c: seq<real>)
    requires |a| == |b| == |c|
    requires forall i :: 0 <= i < |c| ==> c[i] == a[i] - b[i]
    ensures Sum(c) == Sum(a) - Sum(b)
  {
    SumAdd(c, b, a);
  }

  lemma {:induction false} SumScale(a: seq<real>, k: real, c: seq<real>)
    requires |a| == |c|
    requires forall i :: 0 <= i < |c| ==> c[i] == k * a[i]
    ensures Sum(c) == k * Sum(a)
  {
    if c != [] {
      var n := |c| - 1;
      SumScale(a[..n], k, c[..n]);
      MulAdd(Sum(a[..n]), a[n], k);
    }
  }

  lemma {:induction false} SumConst(c: seq<real>, k: real)
    requires forall i :: 0 <= i < |c| ==> c[i] == k
    ensures Sum(c) == |c| as real * k
  {
    if c != [] {
      var n := |c| - 1;
      SumConst(c[..n], k);
      MulAdd(n as real, 1.0, k);
    }
  }

  lemma {:induction false} SumNonneg(s: seq<real>)
    requires forall i :: 0 <= i < |s| ==> s[i] >= 0.0
    ensures Sum(s) >= 0.0
    ensures Sum(s) == 0.0 <==> forall i :: 0 <= i < |s| ==> s[i] == 0.0
  {
    if s != [] {
      SumNonneg(s[..|s| - 1]);
      assert forall i :: 0 <= i < |s| - 1 ==> s[..|s| - 1][i] == s[i];
    }
  }

  /** Raising one entry raises the sum by as much. */
  lemma {:induction false} SumBump(a: seq<real>, b: seq<real>, c: nat, x: real)
    requires |a| == |b| && c < |a|
    requires forall i :: 0 <= i < |a| ==> b[i] == if i == c then a[i] + x else a[i]
    ensures Sum(b) == Sum(a) + x
  {
    var n := |a| - 1;
    if c == n {
      assert a[..n] == b[..n];
    } else {
      SumBump(a[..n], b[..n], c, x);
    }
  }

  /** A vector with one nonzero entry. */
  lemma SumOne(s: seq<real>, c: nat, x: real)
    requires c < |s|
    requires forall i :: 0 <= i < |s| ==> s[i] == if i == c then x else 0.0
    ensures Sum(s) == x
  {
    hide Sum;
    var zeros := seq(|s|, i => 0.0);
    SumConst(zeros, 0.0);
    SumBump(zeros, s, c, x);
  }

  ghost predicate Rectangular(m: seq<seq<real>>, n: nat) {
    forall i :: 0 <= i < |m| ==> |m[i]| == n
  }

  function RowSums(m: seq<seq<real>>): (r: seq<real>)
    ensures |r| == |m|
    ensures forall i :: 0 <= i < |m| ==> r[i] == Sum(m[i])
  {
    seq(|m|, i requires 0 <= i < |m| => Sum(m[i]))
  }

  function Column(m: seq<seq<real>>, n: nat, j: nat): (c: seq<real>)
    requires Rectangular(m, n) && j < n
    ensures |c| == |m|
    ensures forall i :: 0 <= i < |m| ==> c[i] == m[i][j]
  {
    seq(|m|, i requires 0 <= i < |m| => m[i][j])
  }

  function ColumnSums(m: seq<seq<real>>, n: nat): (r: seq<real>)
    requires Rectangular(m, n)
    ensures |r| == n
    ensures forall j :: 0 <= j < n ==> r[j] == Sum(Column(m, n, j))
  {
    seq(n, j requires 0 <= j < n => Sum(Column(m, n, j)))
  }

  /** Adding up by rows or by columns gives the same total. */
  lemma {:induction false} SumSwap(m: seq<seq<real>>, n: nat)
    requires Rectangular(m, n)
    ensures Sum(RowSums(m)) == Sum(ColumnSums(m, n))
  {
    if m == [] {
      SumConst(ColumnSums(m, n), 0.0);
    } else {
      var k := |m| - 1;
      var front := m[..k];
      SumSwap(front, n);
      assert RowSums(m)[..k] == RowSums(front);
      forall j | 0 <= j < n
        ensures ColumnSums(m, n)[j] == ColumnSums(front, n)[j] + m[k][j]
      {
        assert Column(m, n, j)[..k] == Column(front, n, j);
      }
      SumAdd(ColumnSums(front, n), m[k], ColumnSums(m, n));
    }
  }

  /** The average of `count` numbers adding to `total`. */
  function Mean(total: real, count: nat): (r: real)
    requires count > 0
    ensures r * count as real == total
  {
    total / count as real
  }

  lemma CancelFactor(k: real, a: real, b: real)
    requires k != 0.0 && k * a == k * b
    ensures a == b
  {
    assert k * (a - b) == 0.0;
  }

  function Plus(a: seq<real>, b: seq<real>): (c: seq<real>)
    requires |a| == |b|
    ensures |c| == |a|
    ensures forall i :: 0 <= i < |c| ==> c[i] == a[i] + b[i]
  {
    seq(|a|, i requires 0 <= i < |a| => a[i] + b[i])
  }

  function Scaled(k: real, a: seq<real>): (c: seq<real>)
    ensures |c| == |a|
    ensures forall i :: 0 <= i < |c| ==> c[i] == k * a[i]
  {
    seq(|a|, i requires 0 <= i < |a| => k * a[i])
  }

  /** Shifting every value by a constant. */
  lemma {:induction false} SumShift(a: seq<real>, g: real, d: seq<real>)
    requires |d| == |a|
    requires forall i :: 0 <= i < |a| ==> d[i] == a[i] - g
    ensures Sum(d) == Sum(a) - |a| as real * g
  {
    if a != [] {
      var n := |a| - 1;
      SumShift(a[..n], g, d[..n]);
      MulAdd(n as real, 1.0, g);
    }
  }

  /** Values deviate from their mean by nothing in total. */
  lemma DeviationsBalance(a: seq<real>, d: seq<real>)
    requires |d| == |a| > 0
    requires forall i :: 0 <= i < |a| ==> d[i] == a[i] - Mean(Sum(a), |a|)
    ensures Sum(d) == 0.0
  {
    hide Sum;
    SumShift(a, Mean(Sum(a), |a|), d);
  }

  function Dot(a: seq<real>, b: seq<real>): real
    requires |a| == |b|
  {
    if a == [] then 0.0 else Dot(a[..|a| - 1], b[..|b| - 1]) + a[|a| - 1] * b[|b| - 1]
  }

  /** The sum of squares of a vector. */
  function SumSquares(a: seq<real>): real {
    Dot(a, a)
  }

  lemma MulPositive(x: real, y: real, p: real)
    requires p == x * y
    requires (x > 0.0 && y > 0.0) || (x < 0.0 && y < 0.0)
    ensures p > 0.0
  {
  }

  lemma SquareNonneg(x: real, s: real)
    requires s == x * x
    ensures s >= 0.0
    ensures s == 0.0 <==> x == 0.0
  {
    if x != 0.0 {
      MulPositive(x, x, s);
    }
  }

  lemma {:induction false} SumSquaresNonneg(a: seq<real>)
    ensures SumSquares(a) >= 0.0
    ensures SumSquares(a) == 0.0 <==> forall i :: 0 <= i < |a| ==> a[i] == 0.0
  {
    if a != [] {
      var front, x := a[..|a| - 1], a[|a| - 1];
      var s := x * x;
      SumSquaresNonneg(front);
      SquareNonneg(x, s);
      assert SumSquares(a) == SumSquares(front) + s;
      assert forall i :: 0 <= i < |front| ==> a[i] == front[i];
    }
  }

  lemma MulAdd(x: real, y: real, z: real)
    ensures (x + y) * z == x * z + y * z
    ensures z * (x + y) == z * x + z * y
  {
  }

  lemma {:induction false} DotAdd(a: seq<real>, b: seq<real>, c: seq<real>, t: seq<real>)
    requires |a| == |b| == |c| == |t|
    requires forall i :: 0 <= i < |t| ==> t[i] == a[i] + b[i]
    ensures Dot(t, c) == Dot(a, c) + Dot(b, c)
  {
    if t != [] {
      var n := |t| - 1;
      DotAdd(a[..n], b[..n], c[..n], t[..n]);
      MulAdd(a[n], b[n], c[n]);
    }
  }

  lemma {:induction false} DotSymmetric(a: seq<real>, b: seq<real>)
    requires |a| == |b|
    ensures Dot(a, b) == Dot(b, a)
  {
    if a != [] {
      DotSymmetric(a[..|a| - 1], b[..|b| - 1]);
    }
  }

  lemma {:induction false} DotConst(a: seq<real>, c: seq<real>, k: real)
    requires |a| == |c|
    requires forall i :: 0 <= i < |c| ==> c[i] == k
    ensures Dot(a, c) == k * Sum(a)
  {
    if a != [] {
      var n := |a| - 1;
      DotConst(a[..n], c[..n], k);
      MulAdd(Sum(a[..n]), a[n], k);
    }
  }

  /** Squaring a sum of two vectors. */
  lemma SquareExpand(a: seq<real>, b: seq<real>, t: seq<real>)
    requires |a| == |b| == |t|
    requires forall i :: 0 <= i < |t| ==> t[i] == a[i] + b[i]
    ensures SumSquares(t) == SumSquares(a) + SumSquares(b) + 2.0 * Dot(a, b)
  {
    DotAdd(a, b, t, t);
    DotSymmetric(a, t);
    DotSymmetric(b, t);
    DotAdd(a, b, a, t);
    DotAdd(a, b, b, t);
    DotSymmetric(a, b);
  }

  function Products(a: seq<real>, b: seq<real>): (c: seq<real>)
    requires |a| == |b|
    ensures |c| == |a|
    ensures forall i :: 0 <= i < |c| ==> c[i] == a[i] * b[i]
  {
    seq(|a|, i requires 0 <= i < |a| => a[i] * b[i])
  }

  /** A dot product is the sum of the products. */
  lemma {:induction false} DotIsSum(a: seq<real>, b: seq<real>)
    requires |a| == |b|
    ensures Dot(a, b) == Sum(Products(a, b))
  {
    if a != [] {
      var n := |a| - 1;
      DotIsSum(a[..n], b[..n]);
      var c, d := Products(a, b), Products(a[..n], b[..n]);
      forall i | 0 <= i < n ensures c[..n][i] == d[i] {
        assert c[i] == a[i] * b[i];
      }
      assert c[..n] == d;
    }
  }
}
