/**
 Holm's step-down adjustment, which the repository codes three times:
 paper/build_selection_robustness_assets.py (_holm_adjust, into an array),
 paper/build_external_substitution_validation_assets.py (_holm_adjust, into a dict) and
 paper/build_epicure_native_assets.py (the loop in _macros, into a list of pairs).
 */
module Holm {
  import opened Finite
  import opened Sorting

  function Max(x: real, y: real): (r: real)
    ensures r >= x && r >= y && (r == x || r == y)
  {
    if x >= y then x else y
  }

  function Min(x: real, y: real): (r: real)
    ensures r <= x && r <= y && (r == x || r == y)
  {
    if x <= y then x else y
  }

  /** A p-value multiplied by a number of hypotheses. */
  function Weigh(c: int, x: real): real {
    c as real * x
  }

  lemma WeighIsProduct(c: int, x: real)
    ensures Weigh(c, x) == c as real * x == x * c as real
  {
  }

  lemma WeighOrder(a: nat, b: nat, x: real)
    requires a <= b
    ensures x >= 0.0 ==> 0.0 <= Weigh(a, x) <= Weigh(b, x)
    ensures x <= 0.0 ==> Weigh(a, x) <= 0.0
  {
  }

  /** The hypotheses whose p-value is at least v. */
  ghost function AtLeast(p: seq<real>, v: real): (s: set<nat>)
    ensures forall k: nat {:trigger k in s} :: k in s <==> k < |p| && p[k] >= v
  {
    set k: nat | k < |p| && p[k] >= v
  }

  /** A p-value multiplied by the number of hypotheses at least as large. */
  ghost function Step(p: seq<real>, j: nat): real
    requires j < |p|
  {
    Weigh(|AtLeast(p, p[j])|, p[j])
  }

  /** The largest step among the first n hypotheses with p-value at most v, and at least 0. */
  ghost function LargestStep(p: seq<real>, v: real, n: nat): (r: real)
    requires n <= |p|
    ensures r >= 0.0
    ensures forall j {:trigger Step(p, j)} :: 0 <= j < n && p[j] <= v ==> Step(p, j) <= r
    ensures r == 0.0 || exists j {:trigger Step(p, j)} :: 0 <= j < n && p[j] <= v && Step(p, j) == r
  {
    if n == 0 then 0.0
    else if p[n - 1] <= v then Max(LargestStep(p, v, n - 1), Step(p, n - 1))
    else LargestStep(p, v, n - 1)
  }

  /** The adjusted p-value, by definition: no order of processing and no tie-breaking enters it. */
  ghost function Adjusted(p: seq<real>, i: nat): real
    requires i < |p|
  {
    Min(1.0, LargestStep(p, p[i], |p|))
  }

  /** An order of processing: every hypothesis once, p-values ascending, ties in any order. */
  ghost predicate Ascending(p: seq<real>, order: seq<nat>) {
    && |order| == |p| && IsPermutation(order)
    && (forall t :: 0 <= t < |order| ==> order[t] < |p|)
    && forall s, t :: 0 <= s < t < |order| ==> p[order[s]] <= p[order[t]]
  }

  /** What the running maximum holds after the first n positions. */
  function Running(p: seq<real>, order: seq<nat>, n: nat): real
    requires n <= |order| && forall t :: 0 <= t < |order| ==> order[t] < |p|
  {
    if n == 0 then 0.0
    else Max(Running(p, order, n - 1), Weigh(|order| - (n - 1), p[order[n - 1]]))
  }

  lemma {:induction false} RunningBounds(p: seq<real>, order: seq<nat>, n: nat, t: nat)
    requires t < n <= |order| && forall s :: 0 <= s < |order| ==> order[s] < |p|
    ensures Running(p, order, n) >= 0.0
    ensures Running(p, order, n) >= Weigh(|order| - t, p[order[t]])
  {
    hide Weigh;
    if t < n - 1 {
      RunningBounds(p, order, n - 1, t);
    } else if n > 1 {
      RunningBounds(p, order, n - 1, 0);
    }
  }

  lemma {:induction false} RunningAttained(p: seq<real>, order: seq<nat>, n: nat) returns (t: nat)
    requires n <= |order| && forall s :: 0 <= s < |order| ==> order[s] < |p|
    ensures Running(p, order, n) == 0.0
         || (t < n && Running(p, order, n) == Weigh(|order| - t, p[order[t]]))
  {
    t := 0;
    hide Weigh;
    if n > 0 {
      t := RunningAttained(p, order, n - 1);
      if Running(p, order, n) != Running(p, order, n - 1) {
        t := n - 1;
      }
    }
  }

  /** From any position on, at least that many hypotheses are as large; exactly, where a p-value first appears. */
  lemma TailCount(p: seq<real>, order: seq<nat>, s: nat)
    requires Ascending(p, order) && s < |order|
    ensures |order| - s <= |AtLeast(p, p[order[s]])|
    ensures (forall r :: 0 <= r < s ==> p[order[r]] < p[order[s]]) ==> |AtLeast(p, p[order[s]])| == |order| - s
  {
    var tail := order[s..];
    var big := AtLeast(p, p[order[s]]);
    ElementsSize(tail);
    forall k | k in tail ensures k in big {
      var t :| 0 <= t < |tail| && tail[t] == k;
      assert k == order[s + t];
    }
    SubsetSize(Elements(tail), big);
    if forall r :: 0 <= r < s ==> p[order[r]] < p[order[s]] {
      forall k | k in big ensures k in tail {
        PermutationCovers(order, k);
        var t :| 0 <= t < |order| && order[t] == k;
        assert t >= s;
        assert tail[t - s] == k;
      }
      assert Elements(tail) == big;
    }
  }

  /** Where the p-value at position t first appears. */
  lemma {:induction false} FirstPosition(p: seq<real>, order: seq<nat>, t: nat) returns (s: nat)
    requires Ascending(p, order) && t < |order|
    ensures s <= t && p[order[s]] == p[order[t]]
    ensures forall r :: 0 <= r < s ==> p[order[r]] < p[order[s]]
  {
    if t > 0 && p[order[t - 1]] == p[order[t]] {
      s := FirstPosition(p, order, t - 1);
    } else {
      s := t;
      forall r | 0 <= r < s ensures p[order[r]] < p[order[s]] {
        assert p[order[r]] <= p[order[s - 1]];
      }
    }
  }

  lemma StepWithinRunning(p: seq<real>, order: seq<nat>, t: nat, j: nat)
    requires Ascending(p, order) && t < |order| && j < |p| && p[j] <= p[order[t]]
    ensures Step(p, j) <= Running(p, order, t + 1)
  {
    hide Running, LargestStep, Weigh;
    PermutationCovers(order, j);
    var u :| 0 <= u < |order| && order[u] == j;
    var s := FirstPosition(p, order, u);
    TailCount(p, order, s);
    assert s <= t;
    RunningBounds(p, order, t + 1, s);
  }

  lemma RunningWithinStep(p: seq<real>, order: seq<nat>, t: nat)
    requires Ascending(p, order) && t < |order|
    ensures Running(p, order, t + 1) <= LargestStep(p, p[order[t]], |p|)
  {
    hide Running, LargestStep, Weigh;
    var s := RunningAttained(p, order, t + 1);
    if Running(p, order, t + 1) != 0.0 {
      assert p[order[s]] <= p[order[t]];
      TailCount(p, order, s);
      WeighOrder(|order| - s, |AtLeast(p, p[order[s]])|, p[order[s]]);
      assert Step(p, order[s]) <= LargestStep(p, p[order[t]], |p|);
    }
  }

  /** The running maximum is the order-free definition. */
  lemma RunningIsLargestStep(p: seq<real>, order: seq<nat>, t: nat)
    requires Ascending(p, order) && t < |order|
    ensures Running(p, order, t + 1) == LargestStep(p, p[order[t]], |p|)
  {
    hide Running, LargestStep, Weigh, AtLeast;
    var top := LargestStep(p, p[order[t]], |p|);
    RunningWithinStep(p, order, t);
    RunningBounds(p, order, t + 1, t);
    if top != 0.0 {
      var j :| 0 <= j < |p| && p[j] <= p[order[t]] && Step(p, j) == top;
      StepWithinRunning(p, order, t, j);
    }
  }

  /** One turn of a loop: the next running maximum, and the adjusted value it gives. */
  lemma RunningNext(p: seq<real>, order: seq<nat>, t: nat)
    requires Ascending(p, order) && t < |order|
    ensures Running(p, order, t + 1) == Max(Running(p, order, t), Weigh(|order| - t, p[order[t]]))
    ensures Adjusted(p, order[t]) == Min(1.0, Running(p, order, t + 1))
  {
    hide LargestStep, Weigh;
    RunningIsLargestStep(p, order, t);
  }

  /** numpy's stable argsort is one such order. */
  lemma ArgSortAscends(p: seq<real>)
    ensures Ascending(p, ArgSort(p))
  {
  }

  /** paper/build_selection_robustness_assets.py: adjusted values written into an array through the order. */
  method AdjustArray(p: seq<real>) returns (adjusted: array<real>)
    ensures adjusted.Length == |p|
    ensures forall i :: 0 <= i < |p| ==> adjusted[i] == Adjusted(p, i)
  {
    hide Weigh, Adjusted;
    var order := ArgSort(p);
    ArgSortAscends(p);
    adjusted := new real[|p|];
    var running := 0.0;
    var count := |p|;
    for position := 0 to count
      invariant running == Running(p, order, position)
      invariant forall t :: 0 <= t < position ==> adjusted[order[t]] == Adjusted(p, order[t])
    {
      var index := order[position];
      running := Max(running, Weigh(count - position, p[index]));
      RunningNext(p, order, position);
      adjusted[index] := Min(1.0, running);
    }
    forall i | 0 <= i < |p| ensures adjusted[i] == Adjusted(p, i) {
      PermutationCovers(order, i);
      var t :| 0 <= t < |order| && order[t] == i;
    }
  }

  /** The p-values of a dict's keys, listed in some order. */
  function Values<K>(p: map<K, real>, keys: seq<K>): (v: seq<real>)
    requires forall k :: k in keys ==> k in p
    ensures |v| == |keys| && forall t :: 0 <= t < |keys| ==> v[t] == p[keys[t]]
  {
    seq(|keys|, t requires 0 <= t < |keys| => p[keys[t]])
  }

  /** What `sorted` over a dict's keys by p-value returns, whatever breaks the ties. */
  ghost predicate SortedKeys<K(!new)>(p: map<K, real>, keys: seq<K>) {
    && Distinct(keys) && (forall k :: k in keys <==> k in p)
    && forall s, t :: 0 <= s < t < |keys| ==> p[keys[s]] <= p[keys[t]]
  }

  /** paper/build_external_substitution_validation_assets.py: a dict, filled key by key in sorted order. */
  method AdjustMap<K(!new, ==)>(p: map<K, real>, ordered: seq<K>) returns (adjusted: map<K, real>)
    requires SortedKeys(p, ordered)
    ensures adjusted.Keys == p.Keys
    ensures forall i :: 0 <= i < |ordered| ==> adjusted[ordered[i]] == Adjusted(Values(p, ordered), i)
  {
    hide Weigh, Running, Adjusted, Ascending;
    adjusted := map[];
    var running := 0.0;
    var total := |ordered|;
    ghost var v := Values(p, ordered);
    ListedAscends(p, ordered);
    for index := 0 to total
      invariant running == Running(v, Iota(total), index)
      invariant adjusted.Keys <= p.Keys
      invariant forall t :: 0 <= t < index ==> ordered[t] in adjusted && adjusted[ordered[t]] == Adjusted(v, t)
    {
      var key := ordered[index];
      running := Max(running, Weigh(total - index, p[key]));
      RunningNext(v, Iota(total), index);
      adjusted := adjusted[key := Min(1.0, running)];
    }
  }

  lemma ListedAscends<K(!new)>(p: map<K, real>, keys: seq<K>)
    requires SortedKeys(p, keys)
    ensures Ascending(Values(p, keys), Iota(|keys|))
    ensures Running(Values(p, keys), Iota(|keys|), 0) == 0.0
  {
  }

  lemma {:induction false} CappedRunning(p: seq<real>, order: seq<nat>, n: nat)
    requires n < |order| && forall s :: 0 <= s < |order| ==> order[s] < |p|
    ensures Max(Min(1.0, Running(p, order, n)), Min(1.0, Weigh(|order| - n, p[order[n]])))
         == Min(1.0, Running(p, order, n + 1))
  {
    hide Weigh;
  }

  /** paper/build_epicure_native_assets.py: each candidate is capped before the maximum, and pairs are listed. */
  method AdjustPairs<R>(pairwise: seq<(real, R)>) returns (adjusted: seq<(real, R)>)
    ensures |adjusted| == |pairwise|
    ensures forall p: seq<real> :: |p| == |pairwise| && (forall i :: 0 <= i < |p| ==> p[i] == pairwise[i].0) ==>
              forall t :: 0 <= t < |p| ==> adjusted[t] == (Adjusted(p, ArgSort(p)[t]), pairwise[ArgSort(p)[t]].1)
  {
    hide Weigh, Adjusted;
    var p := seq(|pairwise|, i requires 0 <= i < |pairwise| => pairwise[i].0);
    var order := ArgSort(p);
    adjusted := [];
    var running := 0.0;
    for position := 0 to |pairwise|
      invariant running == Min(1.0, Running(p, order, position))
      invariant |adjusted| == position
      invariant forall t :: 0 <= t < position ==> adjusted[t] == (Adjusted(p, order[t]), pairwise[order[t]].1)
    {
      var (raw, row) := pairwise[order[position]];
      var candidate := Min(1.0, Weigh(|pairwise| - position, raw));
      running := Max(running, candidate);
      CappedRunning(p, order, position);
      RunningNext(p, order, position);
      adjusted := adjusted + [(running, row)];
    }
    forall q: seq<real> | |q| == |pairwise| && (forall i :: 0 <= i < |q| ==> q[i] == pairwise[i].0)
      ensures q == p
    {
    }
  }

  /** Whether an adjusted or raw value clears a level: `<` in one source, `<=` in another. */
  predicate Clears(x: real, alpha: real, strict: bool): (clears: bool)
    ensures x < alpha ==> clears
    ensures x > alpha ==> !clears
    ensures x == alpha ==> clears == !strict
  {
    if strict then x < alpha else x <= alpha
  }

  predicate IsLevel(alpha: real, strict: bool) {
    if strict then 0.0 < alpha <= 1.0 else 0.0 <= alpha < 1.0
  }

  /** The textbook procedure: go through ascending p-values and stop at the first that misses alpha/(m-k). */
  function StepDown(p: seq<real>, order: seq<nat>, alpha: real, strict: bool, k: nat): nat
    requires k <= |order| && forall t :: 0 <= t < |order| ==> order[t] < |p|
    decreases |order| - k
  {
    if k < |order| && Clears(p[order[k]], alpha / (|order| - k) as real, strict)
    then StepDown(p, order, alpha, strict, k + 1) else k
  }

  lemma {:induction false} StepDownStops(p: seq<real>, order: seq<nat>, alpha: real, strict: bool, k: nat, t: nat)
    requires k <= t < |order| && forall s :: 0 <= s < |order| ==> order[s] < |p|
    ensures t < StepDown(p, order, alpha, strict, k)
       <==> forall s :: k <= s <= t ==> Clears(p[order[s]], alpha / (|order| - s) as real, strict)
    ensures StepDown(p, order, alpha, strict, k) >= k
    decreases |order| - k
  {
    if Clears(p[order[k]], alpha / (|order| - k) as real, strict) {
      if k < t {
        StepDownStops(p, order, alpha, strict, k + 1, t);
      } else {
        StepDownGrows(p, order, alpha, strict, k + 1);
      }
    }
  }

  lemma {:induction false} StepDownGrows(p: seq<real>, order: seq<nat>, alpha: real, strict: bool, k: nat)
    requires k <= |order| && forall s :: 0 <= s < |order| ==> order[s] < |p|
    ensures StepDown(p, order, alpha, strict, k) >= k
    decreases |order| - k
  {
    if k < |order| && Clears(p[order[k]], alpha / (|order| - k) as real, strict) {
      StepDownGrows(p, order, alpha, strict, k + 1);
    }
  }

  lemma DivideLevel(x: real, alpha: real, c: nat, strict: bool)
    requires c > 0
    ensures Clears(x, alpha / c as real, strict) <==> Clears(Weigh(c, x), alpha, strict)
  {
    var q := alpha / c as real;
    assert q * c as real == alpha;
    if x < q {
      assert c as real * (q - x) > 0.0;
    } else if x > q {
      assert c as real * (x - q) > 0.0;
    }
  }

  /** Rejecting what clears the level after adjustment is the textbook step-down procedure. */
  lemma RejectedIsStepDown(p: seq<real>, order: seq<nat>, alpha: real, strict: bool, t: nat)
    requires Ascending(p, order) && t < |order| && IsLevel(alpha, strict)
    ensures Clears(Adjusted(p, order[t]), alpha, strict) <==> t < StepDown(p, order, alpha, strict, 0)
  {
    hide Running, LargestStep, StepDown, Weigh;
    RunningIsLargestStep(p, order, t);
    StepDownStops(p, order, alpha, strict, 0, t);
    var run := Running(p, order, t + 1);
    forall s | 0 <= s <= t
      ensures Clears(p[order[s]], alpha / (|order| - s) as real, strict) <==>
                Clears(Weigh(|order| - s, p[order[s]]), alpha, strict)
      ensures Weigh(|order| - s, p[order[s]]) <= run
    {
      DivideLevel(p[order[s]], alpha, |order| - s, strict);
      RunningBounds(p, order, t + 1, s);
    }
    var s := RunningAttained(p, order, t + 1);
  }

  /** A nonempty set of hypotheses has one of least p-value. */
  lemma {:induction false} Smallest(p: seq<real>, hyp: set<nat>) returns (s: nat)
    requires hyp != {} && forall k :: k in hyp ==> k < |p|
    ensures s in hyp && forall k :: k in hyp ==> p[s] <= p[k]
    decreases |hyp|
  {
    var x :| x in hyp;
    if hyp == {x} {
      s := x;
    } else {
      s := Smallest(p, hyp - {x});
      if p[x] < p[s] {
        s := x;
      }
      forall k | k in hyp ensures p[s] <= p[k] {
        assert k == x || k in hyp - {x};
      }
    }
  }

  /**
   The core of family-wise error control: whatever set of hypotheses is true, if any of them is rejected
   then the least of their p-values clears alpha divided by how many they are.
   */
  lemma ErrorControl(p: seq<real>, hyp: set<nat>, t: nat, alpha: real, strict: bool) returns (s: nat)
    requires t in hyp && (forall k :: k in hyp ==> k < |p|) && IsLevel(alpha, strict)
    requires Clears(Adjusted(p, t), alpha, strict)
    ensures s in hyp && (forall k :: k in hyp ==> p[s] <= p[k])
    ensures |hyp| > 0 && Clears(p[s], alpha / |hyp| as real, strict)
  {
    hide LargestStep, Weigh;
    s := Smallest(p, hyp);
    SubsetSize(hyp, AtLeast(p, p[s]));
    assert hyp != {};
    assert Step(p, s) <= LargestStep(p, p[t], |p|);
    WeighOrder(|hyp|, |AtLeast(p, p[s])|, p[s]);
    DivideLevel(p[s], alpha, |hyp|, strict);
  }

  /** Adjusted values follow the raw order, so ties stay ties. */
  lemma AdjustedFollowsRaw(p: seq<real>, i: nat, j: nat)
    requires i < |p| && j < |p| && p[i] <= p[j]
    ensures Adjusted(p, i) <= Adjusted(p, j)
    ensures p[i] == p[j] ==> Adjusted(p, i) == Adjusted(p, j)
  {
  }

  lemma CountBound(p: seq<real>, v: real)
    ensures |AtLeast(p, v)| <= |p|
  {
    ElementsSize(Iota(|p|));
    forall k | k in AtLeast(p, v) ensures k in Elements(Iota(|p|)) {
      assert Iota(|p|)[k] == k;
    }
    SubsetSize(AtLeast(p, v), Elements(Iota(|p|)));
  }

  lemma WeighGrows(a: nat, x: real, y: real)
    requires x <= y
    ensures Weigh(a, x) <= Weigh(a, y)
  {
    assert a as real * (y - x) >= 0.0;
  }

  /** For genuine p-values: raw <= adjusted <= min(1, m * raw). */
  lemma AdjustedBounds(p: seq<real>, i: nat)
    requires i < |p| && forall k :: 0 <= k < |p| ==> 0.0 <= p[k] <= 1.0
    ensures p[i] <= Adjusted(p, i) <= 1.0 && Adjusted(p, i) <= |p| as real * p[i]
  {
    hide LargestStep, Weigh, Step;
    var top := LargestStep(p, p[i], |p|);
    OwnStep(p, i);
    WeighOrder(0, |p|, p[i]);
    WeighIsProduct(|p|, p[i]);
    if top != 0.0 {
      var j :| 0 <= j < |p| && p[j] <= p[i] && Step(p, j) == top;
      StepBound(p, i, j);
    }
  }

  lemma OwnStep(p: seq<real>, i: nat)
    requires i < |p| && 0.0 <= p[i]
    ensures p[i] <= Step(p, i)
  {
    hide Weigh;
    SubsetSize({i}, AtLeast(p, p[i]));
    WeighOrder(1, |AtLeast(p, p[i])|, p[i]);
    WeighIsProduct(1, p[i]);
  }

  lemma StepBound(p: seq<real>, i: nat, j: nat)
    requires i < |p| && j < |p| && 0.0 <= p[j] <= p[i]
    ensures Step(p, j) <= Weigh(|p|, p[i])
  {
    hide Weigh;
    CountBound(p, p[j]);
    WeighOrder(|AtLeast(p, p[j])|, |p|, p[j]);
    WeighGrows(|p|, p[j], p[i]);
  }

  /** Listing the same hypotheses in another order changes nothing. */
  lemma Relabelled(p: seq<real>, q: seq<real>, order: seq<nat>, i: nat)
    requires |q| == |p| == |order| && IsPermutation(order) && i < |q|
    requires forall t :: 0 <= t < |q| ==> order[t] < |p| && q[t] == p[order[t]]
    ensures Adjusted(q, i) == Adjusted(p, order[i])
  {
    hide LargestStep, Weigh;
    var v := q[i];
    forall t | 0 <= t < |q| ensures |AtLeast(q, q[t])| == |AtLeast(p, p[order[t]])| {
      SameCount(p, q, order, q[t]);
    }
    if LargestStep(p, v, |p|) != 0.0 {
      var j :| 0 <= j < |p| && p[j] <= v && Step(p, j) == LargestStep(p, v, |p|);
      PermutationCovers(order, j);
      var t :| 0 <= t < |order| && order[t] == j;
      assert Step(q, t) == Step(p, j);
    }
    if LargestStep(q, v, |q|) != 0.0 {
      var t :| 0 <= t < |q| && q[t] <= v && Step(q, t) == LargestStep(q, v, |q|);
      assert Step(q, t) == Step(p, order[t]);
    }
  }

  lemma {:induction false} ImageSize(s: set<nat>, order: seq<nat>)
    requires Distinct(order) && forall t :: t in s ==> t < |order|
    ensures |set t | t in s :: order[t]| == |s|
  {
    var image := set t | t in s :: order[t];
    if s != {} {
      var t :| t in s;
      ImageSize(s - {t}, order);
      var rest := set u | u in s - {t} :: order[u];
      assert order[t] !in rest;
      assert image == rest + {order[t]};
    }
  }

  lemma SameCount(p: seq<real>, q: seq<real>, order: seq<nat>, v: real)
    requires |q| == |p| == |order| && IsPermutation(order)
    requires forall t :: 0 <= t < |q| ==> order[t] < |p| && q[t] == p[order[t]]
    ensures |AtLeast(q, v)| == |AtLeast(p, v)|
  {
    ImageSize(AtLeast(q, v), order);
    var image := set t | t in AtLeast(q, v) :: order[t];
    forall k | k in AtLeast(p, v) ensures k in image {
      PermutationCovers(order, k);
      var t :| 0 <= t < |order| && order[t] == k;
      assert t in AtLeast(q, v);
    }
    assert image == AtLeast(p, v);
  }
}
