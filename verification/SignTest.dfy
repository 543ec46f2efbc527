/**
 The exact two-sided paired test (paper/build_epicure_native_assets.py, _paired_exact_p): a binomial
 tail in closed form, against the count of sign assignments it stands for.
 */
module SignTest {
  import opened Finite
  import opened Outcomes

  function Pow2(n: nat): (r: nat)
    ensures r > 0
  {
    if n == 0 then 1 else 2 * Pow2(n - 1)
  }

  /** `math.comb`. */
  function Comb(n: nat, k: nat): nat {
    if k == 0 then 1 else if n == 0 then 0 else Comb(n - 1, k - 1) + Comb(n - 1, k)
  }

  /** `sum(math.comb(n, i) for i in range(r + 1))`. */
  function TailCount(n: nat, r: nat): nat {
    if r == 0 then Comb(n, 0) else TailCount(n, r - 1) + Comb(n, r)
  }

  function Smaller(a: nat, b: nat): nat {
    if a <= b then a else b
  }

  function Doubled(left: nat, right: nat): real {
    2.0 * (TailCount(left + right, Smaller(left, right)) as real / Pow2(left + right) as real)
  }

  function PValue(left: nat, right: nat): real {
    if left + right == 0 then 1.0
    else if Doubled(left, right) <= 1.0 then Doubled(left, right) else 1.0
  }

  /** One sign for each discordant task: true where the left model is credited. */
  type Signs = seq<bool>

  ghost function Prepend(b: bool, s: set<Signs>): (r: set<Signs>)
    ensures forall x :: x in r <==> |x| > 0 && x[0] == b && x[1..] in s
    ensures |r| == |s|
  {
    var r := set x | x in s :: [b] + x;
    PrependMembers(b, s, r);
    PrependSize(b, s, r);
    r
  }

  lemma PrependMembers(b: bool, s: set<Signs>, r: set<Signs>)
    requires r == set x | x in s :: [b] + x
    ensures forall x :: x in r <==> |x| > 0 && x[0] == b && x[1..] in s
  {
    forall x | |x| > 0 && x[0] == b && x[1..] in s ensures x in r {
      assert x == [b] + x[1..];
    }
  }

  lemma {:induction false} PrependSize(b: bool, s: set<Signs>, r: set<Signs>)
    requires r == set x | x in s :: [b] + x
    ensures |r| == |s|
  {
    if s != {} {
      var x :| x in s;
      var rest := set y | y in s - {x} :: [b] + y;
      PrependSize(b, s - {x}, rest);
      PrependMembers(b, s - {x}, rest);
      assert ([b] + x)[1..] == x;
      assert [b] + x !in rest;
      assert r == rest + {[b] + x};
    }
  }

  ghost function PrependEither(s: set<Signs>): (r: set<Signs>)
    ensures forall x :: x in r <==> |x| > 0 && x[1..] in s
    ensures |r| == 2 * |s|
  {
    var t, f := Prepend(true, s), Prepend(false, s);
    assert t !! f;
    assert |t + f| == |t| + |f|;
    t + f
  }

  /** Every sign assignment to d tasks; there are 2^d. */
  ghost function Assignments(d: nat): (all: set<Signs>)
    ensures forall s :: s in all <==> |s| == d
    ensures |all| == Pow2(d)
  {
    if d == 0 then {[]} else PrependEither(Assignments(d - 1))
  }

  function Trues(s: Signs): (n: nat)
    ensures n <= |s|
  {
    if s == [] then 0 else (if s[0] then 1 else 0) + Trues(s[1..])
  }

  ghost function Exactly(d: nat, k: nat): set<Signs> {
    set s | s in Assignments(d) && Trues(s) == k
  }

  ghost function AtMost(d: nat, r: nat): set<Signs> {
    set s | s in Assignments(d) && Trues(s) <= r
  }

  /** The assignments whose two sides differ by at least `gap`. */
  ghost function AtLeastAsUnbalanced(d: nat, gap: int): set<Signs> {
    set s | s in Assignments(d) && (2 * Trues(s) - d >= gap || d - 2 * Trues(s) >= gap)
  }

  lemma ExactlySplit(d: nat, k: nat)
    requires d > 0
    ensures Exactly(d, k)
              == (if k == 0 then {} else Prepend(true, Exactly(d - 1, k - 1))) + Prepend(false, Exactly(d - 1, k))
  {
    hide Prepend, Exactly;
    var won := if k == 0 then {} else Prepend(true, Exactly(d - 1, k - 1));
    var lost := Prepend(false, Exactly(d - 1, k));
    forall s ensures s in Exactly(d, k) <==> s in won + lost {
      ExactlyMember(d, k, s);
    }
  }

  lemma ExactlyMember(d: nat, k: nat, s: Signs)
    requires d > 0
    ensures s in Exactly(d, k) <==>
            && |s| > 0
            && if s[0] then k > 0 && s[1..] in Exactly(d - 1, k - 1) else s[1..] in Exactly(d - 1, k)
  {
    hide Assignments, Pow2;
    if |s| > 0 {
      assert Trues(s) == (if s[0] then 1 else 0) + Trues(s[1..]);
    }
  }

  lemma PrependApart(a: set<Signs>, b: set<Signs>)
    ensures |Prepend(true, a) + Prepend(false, b)| == |a| + |b|
  {
    hide Prepend;
    assert Prepend(true, a) !! Prepend(false, b);
  }

  lemma CombStep(d: nat, k: nat)
    requires d > 0
    ensures Comb(d, k) == if k == 0 then Comb(d - 1, 0) else Comb(d - 1, k - 1) + Comb(d - 1, k)
  {
    CombZero(d);
    CombZero(d - 1);
  }

  lemma ExactlyStep(d: nat, k: nat)
    requires d > 0
    ensures |Exactly(d, k)| == (if k == 0 then 0 else |Exactly(d - 1, k - 1)|) + |Exactly(d - 1, k)|
  {
    hide Exactly, Prepend;
    ExactlySplit(d, k);
    if k > 0 {
      PrependApart(Exactly(d - 1, k - 1), Exactly(d - 1, k));
    } else {
      assert {} + Prepend(false, Exactly(d - 1, 0)) == Prepend(false, Exactly(d - 1, 0));
    }
  }

  /** Comb(d, k) assignments credit the left model with exactly k tasks. */
  lemma {:induction false} ExactlyCount(d: nat, k: nat)
    ensures |Exactly(d, k)| == Comb(d, k)
  {
    hide *;
    if d == 0 {
      ExactlyNone(k);
    } else {
      ExactlyStep(d, k);
      CombStep(d, k);
      ExactlyCount(d - 1, k);
      if k > 0 {
        ExactlyCount(d - 1, k - 1);
      }
    }
  }

  lemma CombZero(d: nat)
    ensures Comb(d, 0) == 1
  {
  }

  lemma ExactlyNone(k: nat)
    ensures |Exactly(0, k)| == Comb(0, k)
  {
    assert Trues([]) == 0;
    if k == 0 {
      assert Exactly(0, 0) == {[]};
    } else {
      assert Exactly(0, k) == {};
    }
  }

  lemma {:induction false} AtMostCount(d: nat, r: nat)
    ensures |AtMost(d, r)| == TailCount(d, r)
  {
    hide Assignments, Comb, Trues;
    ExactlyCount(d, r);
    if r == 0 {
      assert AtMost(d, 0) == Exactly(d, 0);
    } else {
      AtMostCount(d, r - 1);
      assert AtMost(d, r) == AtMost(d, r - 1) + Exactly(d, r);
      assert AtMost(d, r - 1) !! Exactly(d, r);
    }
  }

  /** Crediting each task to the other model. */
  function Flip(s: Signs): (r: Signs)
    ensures |r| == |s|
  {
    seq(|s|, i requires 0 <= i < |s| => !s[i])
  }

  lemma {:induction false} FlipTrues(s: Signs)
    ensures Trues(Flip(s)) == |s| - Trues(s)
    ensures Flip(Flip(s)) == s
  {
    if s != [] {
      assert Flip(s)[1..] == Flip(s[1..]);
      FlipTrues(s[1..]);
    }
  }

  lemma {:induction false} FlipSize(s: set<Signs>)
    ensures |set x | x in s :: Flip(x)| == |s|
  {
    var image := set x | x in s :: Flip(x);
    if s != {} {
      var x :| x in s;
      FlipSize(s - {x});
      var rest := set y | y in s - {x} :: Flip(y);
      if Flip(x) in rest {
        var y :| y in s - {x} && Flip(y) == Flip(x);
        FlipTrues(x);
        FlipTrues(y);
        assert false;
      }
      assert image == rest + {Flip(x)};
    }
  }

  /** The two tails: at most m credited to the left, and at most m credited to the right. */
  ghost function UpperTail(d: nat, m: nat): set<Signs> {
    set s | s in Assignments(d) && d - Trues(s) <= m
  }

  lemma TailsMirror(d: nat, m: nat)
    ensures |UpperTail(d, m)| == |AtMost(d, m)|
  {
    var image := set x | x in AtMost(d, m) :: Flip(x);
    FlipSize(AtMost(d, m));
    forall s ensures s in UpperTail(d, m) <==> s in image {
      FlipTrues(s);
      if s in UpperTail(d, m) {
        assert Flip(s) in AtMost(d, m);
        assert Flip(Flip(s)) in image;
      }
      if s in image {
        var x :| x in AtMost(d, m) && s == Flip(x);
        FlipTrues(x);
      }
    }
    assert image == UpperTail(d, m);
  }

  /** The assignments at least as unbalanced as left against right are the two tails together. */
  lemma UnbalancedIsTails(left: nat, right: nat)
    ensures AtLeastAsUnbalanced(left + right, if left <= right then right - left else left - right)
         == AtMost(left + right, Smaller(left, right)) + UpperTail(left + right, Smaller(left, right))
  {
  }

  lemma UnionSize<T>(a: set<T>, b: set<T>)
    ensures |a + b| == |a| + |b| - |a * b|
  {
    assert a + b == a + (b - a);
    assert b == (b - a) + (a * b);
  }

  /** A split that is as even as possible; it belongs to both tails when the counts are equal. */
  function Even(m: nat): (s: Signs)
    ensures |s| == 2 * m && Trues(s) == m
  {
    if m == 0 then [] else
      var s := [true, false] + Even(m - 1);
      assert s[1..] == [false] + Even(m - 1) && s[1..][1..] == Even(m - 1);
      s
  }

  lemma TailsApart(left: nat, right: nat)
    requires left != right
    ensures AtMost(left + right, Smaller(left, right)) !! UpperTail(left + right, Smaller(left, right))
  {
    hide Assignments, Trues, Pow2;
  }

  lemma TailsOverlap(m: nat)
    ensures Even(m) in AtMost(m + m, m) * UpperTail(m + m, m)
    ensures AtMost(m + m, m) + UpperTail(m + m, m) == Assignments(m + m)
  {
    hide Assignments, Trues, Pow2;
  }

  /** How the two tails fill the assignments: exactly doubled when apart, overlapping only when the counts are equal. */
  lemma TailsFill(left: nat, right: nat)
    ensures left != right ==>
              |AtLeastAsUnbalanced(left + right, if left <= right then right - left else left - right)|
                == 2 * TailCount(left + right, Smaller(left, right)) <= Pow2(left + right)
    ensures left == right ==>
              |AtLeastAsUnbalanced(left + right, 0)| == Pow2(left + right) < 2 * TailCount(left + right, left)
  {
    hide Assignments, TailCount, Trues, Pow2, AtMost, UpperTail, AtLeastAsUnbalanced;
    var d, m := left + right, Smaller(left, right);
    var lower, upper := AtMost(d, m), UpperTail(d, m);
    UnbalancedIsTails(left, right);
    TailsMirror(d, m);
    AtMostCount(d, m);
    UnionSize(lower, upper);
    if left != right {
      TailsApart(left, right);
      assert lower * upper == {};
      TailsInside(d, m);
    } else {
      TailsOverlap(m);
    }
  }

  lemma TailsInside(d: nat, m: nat)
    ensures |AtMost(d, m) + UpperTail(d, m)| <= Pow2(d)
  {
    hide Assignments, Trues, Pow2;
    SubsetSize(AtMost(d, m) + UpperTail(d, m), Assignments(d));
  }

  /** The share of all sign assignments at least as unbalanced as the observed one. */
  ghost function ExtremeShare(left: nat, right: nat): real {
    |AtLeastAsUnbalanced(left + right, if left <= right then right - left else left - right)| as real
      / Pow2(left + right) as real
  }

  /** The closed form is that share, whatever the counts. */
  lemma PValueIsExtremeShare(left: nat, right: nat)
    ensures PValue(left, right) == ExtremeShare(left, right)
  {
    hide TailCount, AtLeastAsUnbalanced, Pow2;
    TailsFill(left, right);
    var all, tail := Pow2(left + right), TailCount(left + right, Smaller(left, right));
    Double(tail, all);
    if left + right == 0 {
      PowZero();
    }
  }

  lemma PowZero()
    ensures Pow2(0) == 1
  {
  }

  lemma Double(tail: nat, all: nat)
    requires all > 0
    ensures 2.0 * (tail as real / all as real) == (2 * tail) as real / all as real
    ensures 2 * tail > all <==> (2 * tail) as real / all as real > 1.0
    ensures all as real / all as real == 1.0
  {
    DoubleQuotient(tail as real, all as real);
    AboveOne((2 * tail) as real, all as real);
  }

  lemma DoubleQuotient(t: real, a: real)
    requires a > 0.0
    ensures 2.0 * (t / a) == (2.0 * t) / a
  {
  }

  lemma AboveOne(x: real, a: real)
    requires a > 0.0
    ensures x > a <==> x / a > 1.0
    ensures a / a == 1.0
  {
    var q := x / a;
    assert q * a == x;
    var gap := (q - 1.0) * a;
    assert gap == x - a;
    assert q > 1.0 ==> gap > 0.0;
    assert q <= 1.0 ==> gap <= 0.0;
  }

  /** Exchanging the models changes nothing. */
  lemma PValueSymmetric(left: nat, right: nat)
    ensures PValue(left, right) == PValue(right, left)
  {
    hide TailCount, Pow2;
    assert left + right == right + left;
    assert Smaller(left, right) == Smaller(right, left);
  }

  /** With discordant tasks, the cap at 1 takes effect exactly when the counts are equal. */
  lemma CapBindsOnTies(left: nat, right: nat)
    requires left + right > 0
    ensures Doubled(left, right) > 1.0 <==> left == right
  {
    hide TailCount, AtLeastAsUnbalanced, Pow2;
    TailsFill(left, right);
    Double(TailCount(left + right, Smaller(left, right)), Pow2(left + right));
  }

  // ---- the paired test over a release ----

  datatype Observation = Observation(model: string, task: string, condition: string, correct: bool)

  datatype TestError = DuplicateObservation | WrongPanel | MissingObservation

  const MODEL_ONLY := "epicure_off"
  const PANEL_TASKS := 32

  predicate Is(o: Observation, model: string, task: string) {
    o.condition == "epicure_off" && o.model == model && o.task == task
  }

  ghost predicate Repeats(obs: seq<Observation>) {
    exists i, j :: 0 <= i < j < |obs| && obs[i].condition == "epicure_off" && Is(obs[j], obs[i].model, obs[i].task)
  }

  ghost predicate Recorded(obs: seq<Observation>, model: string, task: string, correct: bool) {
    exists i :: 0 <= i < |obs| && Is(obs[i], model, task) && obs[i].correct == correct
  }

  ghost predicate Covered(obs: seq<Observation>, model: string, task: string) {
    Recorded(obs, model, task, true) || Recorded(obs, model, task, false)
  }

  /** The tasks one model solves and the other does not. */
  ghost function Only(obs: seq<Observation>, tasks: seq<string>, winner: string, loser: string): set<string> {
    set t | t in tasks && Recorded(obs, winner, t, true) && Recorded(obs, loser, t, false)
  }

  /** The dict the first loop builds. */
  ghost predicate Indexes(outcomes: map<(string, string), bool>, obs: seq<Observation>) {
    && (forall m, t :: (m, t) in outcomes <==> Covered(obs, m, t))
    && forall m, t :: (m, t) in outcomes ==>
      Recorded(obs, m, t, outcomes[(m, t)]) && !Recorded(obs, m, t, !outcomes[(m, t)])
  }

  lemma RecordedSnoc(obs: seq<Observation>, o: Observation, m: string, t: string, c: bool)
    ensures Recorded(obs + [o], m, t, c) <==> Recorded(obs, m, t, c) || (Is(o, m, t) && o.correct == c)
  {
    var all := obs + [o];
    if Recorded(obs, m, t, c) {
      var i :| 0 <= i < |obs| && Is(obs[i], m, t) && obs[i].correct == c;
      assert all[i] == obs[i];
    }
    if Is(o, m, t) && o.correct == c {
      assert all[|obs|] == o;
    }
  }

  method IndexOutcomes(obs: seq<Observation>) returns (r: Result<map<(string, string), bool>, TestError>)
    ensures r == Err(DuplicateObservation) <==> Repeats(obs)
    ensures r.Err? ==> r.error == DuplicateObservation
    ensures r.Ok? ==> Indexes(r.value, obs)
  {
    var outcomes: map<(string, string), bool> := map[];
    for n := 0 to |obs|
      invariant !Repeats(obs[..n])
      invariant Indexes(outcomes, obs[..n])
    {
      var o := obs[n];
      assert obs[..n + 1] == obs[..n] + [o];
      forall m, t, c
        ensures Recorded(obs[..n + 1], m, t, c) <==> Recorded(obs[..n], m, t, c) || (Is(o, m, t) && o.correct == c)
      {
        RecordedSnoc(obs[..n], o, m, t, c);
      }
      if o.condition == MODEL_ONLY {
        var key := (o.model, o.task);
        if key in outcomes {
          assert Covered(obs[..n], o.model, o.task);
          return Err(DuplicateObservation);
        }
        outcomes := outcomes[key := o.correct];
      }
    }
    assert obs[..|obs|] == obs;
    return Ok(outcomes);
  }

  lemma NoTasks(obs: seq<Observation>, winner: string, loser: string)
    ensures Only(obs, [], winner, loser) == {}
  {
  }

  method PairedExactP(obs: seq<Observation>, tasks: seq<string>, left: string, right: string)
    returns (r: Result<real, TestError>)
    ensures r == Err(DuplicateObservation) <==> Repeats(obs)
    ensures r == Err(WrongPanel) <==> !Repeats(obs) && !(|tasks| == 32 && Distinct(tasks))
    ensures r == Err(MissingObservation) <==>
              && !Repeats(obs) && |tasks| == 32 && Distinct(tasks)
              && exists t :: t in tasks && !(Covered(obs, left, t) && Covered(obs, right, t))
    ensures r.Ok? ==> r.value == ExtremeShare(|Only(obs, tasks, left, right)|, |Only(obs, tasks, right, left)|)
  {
    hide PValue, ExtremeShare, Repeats, Recorded, Only;
    var index := IndexOutcomes(obs);
    if index.Err? {
      return Err(index.error);
    }
    var outcomes := index.value;
    ElementsSize(tasks);
    if |tasks| != PANEL_TASKS || |Elements(tasks)| != |tasks| {
      return Err(WrongPanel);
    }
    var leftOnly, rightOnly := 0, 0;
    NoTasks(obs, left, right);
    NoTasks(obs, right, left);
    assert tasks[..0] == [];
    for n := 0 to |tasks|
      invariant forall t :: t in tasks[..n] ==> Covered(obs, left, t) && Covered(obs, right, t)
      invariant leftOnly == |Only(obs, tasks[..n], left, right)|
      invariant rightOnly == |Only(obs, tasks[..n], right, left)|
    {
      var t := tasks[n];
      if (left, t) !in outcomes || (right, t) !in outcomes {
        return Err(MissingObservation);
      }
      OnlySnoc(obs, tasks, n, left, right);
      OnlySnoc(obs, tasks, n, right, left);
      var l, r := outcomes[(left, t)], outcomes[(right, t)];
      leftOnly := leftOnly + if l && !r then 1 else 0;
      rightOnly := rightOnly + if r && !l then 1 else 0;
    }
    assert tasks[..|tasks|] == tasks;
    PValueIsExtremeShare(leftOnly, rightOnly);
    return Ok(PValue(leftOnly, rightOnly));
  }

  lemma OnlySnoc(obs: seq<Observation>, tasks: seq<string>, n: nat, winner: string, loser: string)
    requires n < |tasks| && Distinct(tasks)
    ensures |Only(obs, tasks[..n + 1], winner, loser)|
         == |Only(obs, tasks[..n], winner, loser)|
          + if Recorded(obs, winner, tasks[n], true) && Recorded(obs, loser, tasks[n], false) then 1 else 0
  {
    var before, after := Only(obs, tasks[..n], winner, loser), Only(obs, tasks[..n + 1], winner, loser);
    assert tasks[..n + 1] == tasks[..n] + [tasks[n]];
    assert tasks[n] !in tasks[..n];
    if Recorded(obs, winner, tasks[n], true) && Recorded(obs, loser, tasks[n], false) {
      assert after == before + {tasks[n]};
    } else {
      assert after == before;
    }
  }
}
