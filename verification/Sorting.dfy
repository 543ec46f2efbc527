/** Stable sorting, as Python's `sorted` and numpy's stable `argsort` perform it. */
module Sorting {
  import opened Finite

  ghost predicate TotalPreorder<T(!new)>(before: (T, T) -> bool) {
    && (forall a, b :: before(a, b) || before(b, a))
    && (forall a, b, c :: before(a, b) && before(b, c) ==> before(a, c))
  }

  ghost predicate SortedBy<T>(before: (T, T) -> bool, s: seq<T>) {
    forall i, j :: 0 <= i < j < |s| ==> before(s[i], s[j])
  }

  function Insert<T>(before: (T, T) -> bool, x: T, s: seq<T>): seq<T> {
    if s == [] || before(x, s[0]) then [x] + s else [s[0]] + Insert(before, x, s[1..])
  }

  function SortBy<T>(before: (T, T) -> bool, s: seq<T>): seq<T> {
    if s == [] then [] else Insert(before, s[0], SortBy(before, s[1..]))
  }

  lemma {:induction false} InsertKeeps<T>(before: (T, T) -> bool, x: T, s: seq<T>)
    ensures multiset(Insert(before, x, s)) == multiset{x} + multiset(s)
  {
    if s != [] && !before(x, s[0]) {
      InsertKeeps(before, x, s[1..]);
      assert s == [s[0]] + s[1..];
    }
  }

  lemma {:induction false} SortKeeps<T>(before: (T, T) -> bool, s: seq<T>)
    ensures multiset(SortBy(before, s)) == multiset(s)
    ensures |SortBy(before, s)| == |s|
  {
    if s != [] {
      SortKeeps(before, s[1..]);
      InsertKeeps(before, s[0], SortBy(before, s[1..]));
      assert s == [s[0]] + s[1..];
    }
    assert |SortBy(before, s)| == |multiset(SortBy(before, s))| == |multiset(s)| == |s|;
  }

  lemma {:induction false} InsertSorts<T(!new)>(before: (T, T) -> bool, x: T, s: seq<T>)
    requires TotalPreorder(before) && SortedBy(before, s)
    ensures SortedBy(before, Insert(before, x, s))
  {
    if s != [] && !before(x, s[0]) {
      var rest := Insert(before, x, s[1..]);
      InsertSorts(before, x, s[1..]);
      InsertKeeps(before, x, s[1..]);
      forall y | y in rest ensures before(s[0], y) {
        assert y in multiset(rest);
        assert y == x || y in s[1..];
      }
    }
  }

  lemma {:induction false} SortSorts<T(!new)>(before: (T, T) -> bool, s: seq<T>)
    requires TotalPreorder(before)
    ensures SortedBy(before, SortBy(before, s))
  {
    if s != [] {
      SortSorts(before, s[1..]);
      InsertSorts(before, s[0], SortBy(before, s[1..]));
    }
  }

  /** Sorting keeps every value and how often it occurs, so it keeps distinctness. */
  lemma {:induction false} SortDistinct<T>(before: (T, T) -> bool, s: seq<T>)
    requires Distinct(s)
    ensures Distinct(SortBy(before, s))
    ensures forall x :: x in SortBy(before, s) <==> x in s
  {
    var t := SortBy(before, s);
    SortKeeps(before, s);
    assert forall x :: x in t <==> x in multiset(t);
    assert forall x :: x in s <==> x in multiset(s);
    ElementsSize(s);
    ElementsSize(t);
    assert Elements(t) == Elements(s);
  }

  /** The index order numpy's stable argsort uses: by value, ties by position. */
  predicate Precedes(v: seq<real>, a: nat, b: nat)
    requires a < |v| && b < |v|
  {
    v[a] < v[b] || (v[a] == v[b] && a < b)
  }

  /** `order` lists the positions of `v` in ascending order, ties by position. */
  ghost predicate IsArgSort(v: seq<real>, order: seq<nat>) {
    && |order| == |v|
    && IsPermutation(order)
    && (forall i :: 0 <= i < |order| ==> order[i] < |v|)
    && forall i, j :: 0 <= i < j < |order| ==> Precedes(v, order[i], order[j])
  }

  function IndexBefore(v: seq<real>): (nat, nat) -> bool {
    (a: nat, b: nat) => if a < |v| && b < |v| then Precedes(v, a, b) || a == b else a < |v| || (b >= |v| && a <= b)
  }

  function ArgSort(v: seq<real>): (order: seq<nat>)
    ensures IsArgSort(v, order)
  {
    var before := IndexBefore(v);
    var order := SortBy(before, Iota(|v|));
    SortKeeps(before, Iota(|v|));
    SortSorts(before, Iota(|v|));
    SortDistinct(before, Iota(|v|));
    assert forall i :: 0 <= i < |order| ==> order[i] in Iota(|v|);
    order
  }

  /** Python's string comparison, by code point. */
  predicate LexLeq(a: string, b: string) {
    a == [] || (b != [] && (a[0] < b[0] || (a[0] == b[0] && LexLeq(a[1..], b[1..]))))
  }

  /** The first string runs out, or is smaller where the two first differ. */
  lemma {:induction false} LexMeans(a: string, b: string)
    ensures LexLeq(a, b) <==>
            exists i :: 0 <= i <= |a| && i <= |b| && a[..i] == b[..i] && (i == |a| || (i < |b| && a[i] < b[i]))
  {
    if a != [] && b != [] && a[0] == b[0] {
      var x, y := a[1..], b[1..];
      LexMeans(x, y);
      if LexLeq(x, y) {
        var i :| 0 <= i <= |x| && i <= |y| && x[..i] == y[..i] && (i == |x| || (i < |y| && x[i] < y[i]));
        assert a[..i + 1] == [a[0]] + x[..i] && b[..i + 1] == [b[0]] + y[..i];
      }
      if exists i :: 0 <= i <= |a| && i <= |b| && a[..i] == b[..i] && (i == |a| || (i < |b| && a[i] < b[i])) {
        var i :| 0 <= i <= |a| && i <= |b| && a[..i] == b[..i] && (i == |a| || (i < |b| && a[i] < b[i]));
        assert x[..i - 1] == a[..i][1..] && y[..i - 1] == b[..i][1..];
      }
    } else {
      assert a[..0] == b[..0];
      forall i | 0 < i <= |a| && i <= |b| ensures a[..i] != b[..i] {
        assert a[..i][0] == a[0] && b[..i][0] == b[0];
      }
    }
  }

  lemma {:induction false} LexTotal(a: string, b: string)
    ensures LexLeq(a, b) || LexLeq(b, a)
  {
    if a != [] && b != [] {
      LexTotal(a[1..], b[1..]);
    }
  }

  lemma {:induction false} LexTransitive(a: string, b: string, c: string)
    ensures LexLeq(a, b) && LexLeq(b, c) ==> LexLeq(a, c)
  {
    if a != [] && b != [] && c != [] {
      LexTransitive(a[1..], b[1..], c[1..]);
    }
  }

  lemma {:induction false} LexAntisymmetric(a: string, b: string)
    requires LexLeq(a, b) && LexLeq(b, a)
    ensures a == b
  {
    if a != [] {
      LexAntisymmetric(a[1..], b[1..]);
      assert a == [a[0]] + a[1..] && b == [b[0]] + b[1..];
    }
  }
}
