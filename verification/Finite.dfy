/** Counting facts about finite sets and sequences. */
module Finite {

  /** The values a sequence holds, as Python's `set(...)` would collect them. */
  function Elements<T>(s: seq<T>): set<T> {
    set x | x in s
  }

  ghost predicate Distinct<T>(s: seq<T>) {
    forall i, j :: 0 <= i < j < |s| ==> s[i] != s[j]
  }

  /** A sequence has at most as many values as positions, and exactly as many iff nothing repeats. */
  lemma {:induction false} ElementsSize<T>(s: seq<T>)
    ensures |Elements(s)| <= |s|
    ensures |Elements(s)| == |s| <==> Distinct(s)
  {
    if s != [] {
      var n := |s| - 1;
      var front := s[..n];
      ElementsSize(front);
      assert s == front + [s[n]];
      assert Elements(s) == Elements(front) + {s[n]};
      if s[n] in front {
        var i :| 0 <= i < n && front[i] == s[n];
        assert s[i] == s[n];
        assert Elements(s) == Elements(front);
      } else if Distinct(front) {
        assert Distinct(s);
      } else {
        var i, j :| 0 <= i < j < n && front[i] == front[j];
        assert s[i] == s[j];
      }
    }
  }

  /** The positions that are marked, in order. */
  function Marked(marks: seq<bool>): (idx: seq<nat>)
    ensures forall t :: 0 <= t < |idx| ==> idx[t] < |marks| && marks[idx[t]]
    ensures forall i :: 0 <= i < |marks| && marks[i] ==> i in idx
    ensures forall s, t :: 0 <= s < t < |idx| ==> idx[s] < idx[t]
  {
    if marks == [] then [] else
      var n := |marks| - 1;
      var front := Marked(marks[..n]);
      if marks[n] then front + [n] else front
  }

  /** The values of a sequence at given positions. */
  function Picked<T>(s: seq<T>, idx: seq<nat>): (r: seq<T>)
    requires forall t :: 0 <= t < |idx| ==> idx[t] < |s|
    ensures |r| == |idx|
    ensures forall t :: 0 <= t < |r| ==> r[t] == s[idx[t]]
  {
    seq(|idx|, t requires 0 <= t < |idx| => s[idx[t]])
  }

  /** The picked values at marked positions, one position later. */
  lemma PickedSnoc<T>(s: seq<T>, marks: seq<bool>)
    requires |s| == |marks| > 0
    ensures var n := |s| - 1;
            Picked(s, Marked(marks))
              == Picked(s[..n], Marked(marks[..n])) + if marks[n] then [s[n]] else []
  {
  }

  lemma {:induction false} SubsetSize<T>(a: set<T>, b: set<T>)
    requires a <= b
    ensures |a| <= |b|
    ensures |a| == |b| ==> a == b
  {
    if a != {} {
      var x :| x in a;
      SubsetSize(a - {x}, b - {x});
    }
  }

  /** The first n natural numbers in order. */
  function Iota(n: nat): (s: seq<nat>)
    ensures |s| == n
    ensures forall i :: 0 <= i < n ==> s[i] == i
  {
    seq(n, i => i)
  }

  /** A permutation of 0..n-1. */
  ghost predicate IsPermutation(s: seq<nat>) {
    Distinct(s) && forall i :: 0 <= i < |s| ==> s[i] < |s|
  }

  /** n distinct numbers below n are all the numbers below n. */
  lemma PermutationCovers(s: seq<nat>, k: nat)
    requires IsPermutation(s) && k < |s|
    ensures k in s
  {
    var all := Elements(Iota(|s|));
    ElementsSize(s);
    ElementsSize(Iota(|s|));
    assert forall x :: x in s ==> Iota(|s|)[x] == x;
    SubsetSize(Elements(s), all);
    assert Iota(|s|)[k] == k;
    assert k in all;
  }
}
