/**
 The complete-response task selection (paper/build_selection_robustness_assets.py, _select_for_roster): in each
 panel and family, the first tasks in a frozen order that every model of a roster answered. Tasks are known by
 their position in the panel; the order key is a parameter, ties going by position as a stable sort leaves them.
 */
module Selection {
  import opened Finite
  import opened Outcomes
  import opened Sorting

  const TASKS_PER_STRATUM := 89

  /** One panel: its tasks, and per model and task whether the response completed and parsed. */
  datatype Panel = Panel(
    name: string,
    taskIds: seq<string>,
    completed: seq<seq<bool>>,
    parseable: seq<seq<bool>>,
    families: map<string, string>)

  ghost predicate Shaped(d: Panel) {
    && |d.completed| == |d.parseable|
    && forall m :: 0 <= m < |d.completed| ==> |d.completed[m]| == |d.parseable[m]| == |d.taskIds|
  }

  ghost predicate InRange(d: Panel, roster: seq<nat>) {
    forall i :: 0 <= i < |roster| ==> roster[i] < |d.completed|
  }

  type OrderKey = (string, string, string) -> string

  datatype SelectionError = UnknownTask(panel: string, task: string) | TooFew(panel: string, family: string, count: nat)

  // ---- one stratum ----

  /** Every model of the roster completed the task and parsed. */
  predicate TaskValid(d: Panel, roster: seq<nat>, j: nat)
    requires Shaped(d) && InRange(d, roster) && j < |d.taskIds|
  {
    forall i :: 0 <= i < |roster| ==> d.completed[roster[i]][j] && d.parseable[roster[i]][j]
  }

  /** A valid task of the family; the family is looked up only for valid tasks. */
  predicate Candidate(d: Panel, roster: seq<nat>, family: string, j: nat)
    requires Shaped(d) && InRange(d, roster)
  {
    && j < |d.taskIds|
    && TaskValid(d, roster, j)
    && d.taskIds[j] in d.families
    && d.families[d.taskIds[j]] == family
  }

  /** The candidates below n, in the panel's order. */
  function Candidates(d: Panel, roster: seq<nat>, family: string, n: nat): (s: seq<nat>)
    requires Shaped(d) && InRange(d, roster) && n <= |d.taskIds|
    ensures Distinct(s)
    ensures forall j: nat :: j in s <==> j < n && Candidate(d, roster, family, j)
  {
    if n == 0 then [] else
      var front := Candidates(d, roster, family, n - 1);
      if Candidate(d, roster, family, n - 1) then front + [n - 1] else front
  }

  function KeyAt(d: Panel, family: string, key: OrderKey, j: nat): string {
    if j < |d.taskIds| then key(d.name, family, d.taskIds[j]) else ""
  }

  /** Task a comes no later than task b: by key, ties by position. */
  predicate NoLater(d: Panel, family: string, key: OrderKey, a: nat, b: nat) {
    var x, y := KeyAt(d, family, key, a), KeyAt(d, family, key, b);
    LexLeq(x, y) && (x == y ==> a <= b)
  }

  function Order(d: Panel, family: string, key: OrderKey): (nat, nat) -> bool {
    (a: nat, b: nat) => NoLater(d, family, key, a, b)
  }

  lemma OrderIsTotal(d: Panel, family: string, key: OrderKey)
    ensures TotalPreorder(Order(d, family, key))
    ensures forall a: nat, b: nat :: NoLater(d, family, key, a, b) && NoLater(d, family, key, b, a) ==> a == b
  {
    forall a: nat, b: nat
      ensures NoLater(d, family, key, a, b) || NoLater(d, family, key, b, a)
      ensures NoLater(d, family, key, a, b) && NoLater(d, family, key, b, a) ==> a == b
    {
      var x, y := KeyAt(d, family, key, a), KeyAt(d, family, key, b);
      LexTotal(x, y);
      if LexLeq(x, y) && LexLeq(y, x) {
        LexAntisymmetric(x, y);
      }
    }
    forall a: nat, b: nat, c: nat | NoLater(d, family, key, a, b) && NoLater(d, family, key, b, c)
      ensures NoLater(d, family, key, a, c)
    {
      var x, y, z := KeyAt(d, family, key, a), KeyAt(d, family, key, b), KeyAt(d, family, key, c);
      LexTransitive(x, y, z);
      if x == z {
        LexAntisymmetric(x, y);
      }
    }
  }

  /** The stratum's candidates in the frozen order. */
  function Pool(d: Panel, roster: seq<nat>, family: string, key: OrderKey): seq<nat>
    requires Shaped(d) && InRange(d, roster)
  {
    SortBy(Order(d, family, key), Candidates(d, roster, family, |d.taskIds|))
  }

  function Chosen(d: Panel, roster: seq<nat>, family: string, key: OrderKey, k: nat): seq<nat>
    requires Shaped(d) && InRange(d, roster)
  {
    var pool := Pool(d, roster, family, key);
    if |pool| < k then pool else pool[..k]
  }

  /** The pool holds each candidate once, earlier ones first. */
  lemma PoolExact(d: Panel, roster: seq<nat>, family: string, key: OrderKey)
    requires Shaped(d) && InRange(d, roster)
    ensures Distinct(Pool(d, roster, family, key))
    ensures forall j: nat :: j in Pool(d, roster, family, key) <==> Candidate(d, roster, family, j)
    ensures SortedBy(Order(d, family, key), Pool(d, roster, family, key))
  {
    hide SortBy, NoLater;
    var s := Candidates(d, roster, family, |d.taskIds|);
    OrderIsTotal(d, family, key);
    SortDistinct(Order(d, family, key), s);
    SortSorts(Order(d, family, key), s);
    assert forall j: nat :: Candidate(d, roster, family, j) ==> j < |d.taskIds|;
  }

  /** Task i has a smaller order key than task j, or an equal one and comes earlier in the panel. */
  predicate KeyedBefore(d: Panel, family: string, key: OrderKey, i: nat, j: nat)
    requires i < |d.taskIds| && j < |d.taskIds|
  {
    var x, y := key(d.name, family, d.taskIds[i]), key(d.name, family, d.taskIds[j]);
    (LexLeq(x, y) && x != y) || (x == y && i < j)
  }

  /** The candidates that come before a task in the frozen order. */
  function Ahead(d: Panel, roster: seq<nat>, family: string, key: OrderKey, j: nat): set<nat>
    requires Shaped(d) && InRange(d, roster) && j < |d.taskIds|
  {
    set i | 0 <= i < |d.taskIds| && Candidate(d, roster, family, i) && KeyedBefore(d, family, key, i, j)
  }

  lemma KeyedMeans(d: Panel, family: string, key: OrderKey, i: nat, j: nat)
    requires i < |d.taskIds| && j < |d.taskIds|
    ensures KeyedBefore(d, family, key, i, j) <==> i != j && Order(d, family, key)(i, j)
  {
    LexTotal(KeyAt(d, family, key, i), KeyAt(d, family, key, i));
  }

  /** The pool stands by order key, equal keys in the panel's order. */
  lemma PoolByKey(d: Panel, roster: seq<nat>, family: string, key: OrderKey, p: nat, q: nat)
    requires Shaped(d) && InRange(d, roster) && p < q < |Pool(d, roster, family, key)|
    ensures var i, j := Pool(d, roster, family, key)[p], Pool(d, roster, family, key)[q];
            i < |d.taskIds| && j < |d.taskIds| && KeyedBefore(d, family, key, i, j)
  {
    hide Pool, NoLater, KeyedBefore;
    PoolExact(d, roster, family, key);
    PoolInRange(d, roster, family, key);
    KeyedMeans(d, family, key, Pool(d, roster, family, key)[p], Pool(d, roster, family, key)[q]);
  }

  /** A pool position is the number of candidates ahead. */
  lemma PoolPosition(d: Panel, roster: seq<nat>, family: string, key: OrderKey, p: nat)
    requires Shaped(d) && InRange(d, roster) && p < |Pool(d, roster, family, key)|
    ensures Pool(d, roster, family, key)[p] < |d.taskIds|
    ensures |Ahead(d, roster, family, key, Pool(d, roster, family, key)[p])| == p
  {
    hide SortBy, NoLater, Candidate, Pool, KeyedBefore;
    var pool := Pool(d, roster, family, key);
    PoolInRange(d, roster, family, key);
    var j := pool[p];
    PoolExact(d, roster, family, key);
    forall i ensures i in Ahead(d, roster, family, key, j) <==> i in pool[..p] {
      if i in pool[..p] {
        var q :| 0 <= q < p && pool[q] == i;
        PoolByKey(d, roster, family, key, q, p);
        assert i in pool;
        CandidateInRange(d, roster, family, i);
      }
      if i in Ahead(d, roster, family, key, j) {
        assert i in pool;
        var q :| 0 <= q < |pool| && pool[q] == i;
        if q > p {
          PoolByKey(d, roster, family, key, p, q);
          NotBothBefore(d, family, key, i, j);
        } else if q == p {
          NotBothBefore(d, family, key, i, i);
        }
        assert q < p && pool[..p][q] == i;
      }
    }
    assert Ahead(d, roster, family, key, j) == Elements(pool[..p]);
    ElementsSize(pool[..p]);
  }

  lemma NotBothBefore(d: Panel, family: string, key: OrderKey, i: nat, j: nat)
    requires i < |d.taskIds| && j < |d.taskIds|
    ensures !(KeyedBefore(d, family, key, i, j) && KeyedBefore(d, family, key, j, i))
  {
    var x, y := key(d.name, family, d.taskIds[i]), key(d.name, family, d.taskIds[j]);
    if LexLeq(x, y) && LexLeq(y, x) {
      LexAntisymmetric(x, y);
    }
  }

  lemma CandidateInRange(d: Panel, roster: seq<nat>, family: string, j: nat)
    requires Shaped(d) && InRange(d, roster) && Candidate(d, roster, family, j)
    ensures j < |d.taskIds|
  {
  }

  /** Sorting and slicing choose exactly the candidates with fewer than k candidates ahead of them. */
  lemma ChosenMeans(d: Panel, roster: seq<nat>, family: string, key: OrderKey, k: nat, j: nat)
    requires Shaped(d) && InRange(d, roster)
    ensures Candidate(d, roster, family, j) ==> j < |d.taskIds|
    ensures j in Chosen(d, roster, family, key, k) <==>
            Candidate(d, roster, family, j) && |Ahead(d, roster, family, key, j)| < k
  {
    if Candidate(d, roster, family, j) {
      CandidateInRange(d, roster, family, j);
    }
    hide SortBy, NoLater, Candidate, Pool, Ahead;
    var pool := Pool(d, roster, family, key);
    PoolExact(d, roster, family, key);
    if j in pool {
      var p :| 0 <= p < |pool| && pool[p] == j;
      PoolPosition(d, roster, family, key, p);
      if p < k {
        assert Chosen(d, roster, family, key, k)[p] == j;
      }
    }
  }

  // ---- a smaller roster ----

  ghost predicate Within(smaller: seq<nat>, larger: seq<nat>) {
    forall m :: m in smaller ==> m in larger
  }

  /** Dropping models only makes tasks valid. */
  lemma CandidatesGrow(d: Panel, smaller: seq<nat>, larger: seq<nat>, family: string, j: nat)
    requires Shaped(d) && InRange(d, larger) && InRange(d, smaller) && Within(smaller, larger)
    ensures Candidate(d, larger, family, j) ==> Candidate(d, smaller, family, j)
  {
    if Candidate(d, larger, family, j) {
      forall i | 0 <= i < |smaller| ensures d.completed[smaller[i]][j] && d.parseable[smaller[i]][j] {
        assert smaller[i] in smaller;
        var q :| 0 <= q < |larger| && larger[q] == smaller[i];
      }
    }
  }

  /** A task passed over for want of room stays passed over when models are dropped. */
  lemma PassedOverStaysOut(
    d: Panel, smaller: seq<nat>, larger: seq<nat>, family: string, key: OrderKey, k: nat, j: nat)
    requires Shaped(d) && InRange(d, larger) && InRange(d, smaller) && Within(smaller, larger)
    requires Candidate(d, larger, family, j) && j !in Chosen(d, larger, family, key, k)
    ensures j !in Chosen(d, smaller, family, key, k)
  {
    hide NoLater, Candidate, Chosen;
    ChosenMeans(d, larger, family, key, k, j);
    ChosenMeans(d, smaller, family, key, k, j);
    CandidateInRange(d, larger, family, j);
    forall i | i in Ahead(d, larger, family, key, j) ensures i in Ahead(d, smaller, family, key, j) {
      CandidatesGrow(d, smaller, larger, family, i);
    }
    SubsetSize(Ahead(d, larger, family, key, j), Ahead(d, smaller, family, key, j));
  }

  /** The tasks that only the dropped models kept out. */
  function NewlyValid(d: Panel, smaller: seq<nat>, larger: seq<nat>, family: string): set<nat>
    requires Shaped(d) && InRange(d, larger) && InRange(d, smaller)
  {
    set j | 0 <= j < |d.taskIds| && Candidate(d, smaller, family, j) && !Candidate(d, larger, family, j)
  }

  lemma ChosenSize(d: Panel, roster: seq<nat>, family: string, key: OrderKey, k: nat)
    requires Shaped(d) && InRange(d, roster)
    ensures |Elements(Chosen(d, roster, family, key, k))| == |Chosen(d, roster, family, key, k)|
  {
    hide Pool;
    PoolExact(d, roster, family, key);
    ElementsSize(Chosen(d, roster, family, key, k));
  }

  lemma PoolGrows(d: Panel, smaller: seq<nat>, larger: seq<nat>, family: string, key: OrderKey)
    requires Shaped(d) && InRange(d, larger) && InRange(d, smaller) && Within(smaller, larger)
    ensures |Pool(d, larger, family, key)| <= |Pool(d, smaller, family, key)|
  {
    hide Pool, Candidate;
    var a, b := Pool(d, larger, family, key), Pool(d, smaller, family, key);
    PoolExact(d, larger, family, key);
    PoolExact(d, smaller, family, key);
    forall j | j in a ensures j in b {
      CandidatesGrow(d, smaller, larger, family, j);
    }
    ElementsSize(a);
    ElementsSize(b);
    SubsetSize(Elements(a), Elements(b));
  }

  /**
   From a full stratum, dropping models displaces exactly as many tasks as enter; those that enter are the newly
   valid tasks the smaller roster chooses, so no more are displaced than become valid.
   */
  lemma Displacement(d: Panel, smaller: seq<nat>, larger: seq<nat>, family: string, key: OrderKey, k: nat)
    requires Shaped(d) && InRange(d, larger) && InRange(d, smaller) && Within(smaller, larger)
    requires |Pool(d, larger, family, key)| >= k
    ensures |Chosen(d, smaller, family, key, k)| == k
    ensures var was, now := Elements(Chosen(d, larger, family, key, k)), Elements(Chosen(d, smaller, family, key, k));
            && now - was == NewlyValid(d, smaller, larger, family) * now
            && |was - now| == |now - was|
            && |was - now| <= |NewlyValid(d, smaller, larger, family)|
  {
    hide Candidate, Pool;
    var was, now := Elements(Chosen(d, larger, family, key, k)), Elements(Chosen(d, smaller, family, key, k));
    PoolGrows(d, smaller, larger, family, key);
    ChosenSize(d, larger, family, key, k);
    ChosenSize(d, smaller, family, key, k);
    hide Chosen;
    forall j ensures j in now - was <==> j in NewlyValid(d, smaller, larger, family) * now {
      ChosenMeans(d, larger, family, key, k, j);
      ChosenMeans(d, smaller, family, key, k, j);
      if j in now - was {
        CandidateInRange(d, smaller, family, j);
        if Candidate(d, larger, family, j) {
          PassedOverStaysOut(d, smaller, larger, family, key, k, j);
        }
      }
    }
    SplitSize(was, now);
    SplitSize(now, was);
    assert was * now == now * was;
    SubsetSize(now - was, NewlyValid(d, smaller, larger, family));
  }

  lemma SplitSize(a: set<nat>, b: set<nat>)
    ensures |a| == |a - b| + |a * b|
  {
    assert a == (a - b) + (a * b);
  }

  /** Leaving one model out, a task becomes valid exactly when it was that model alone that failed it. */
  lemma LeaveOneOut(d: Panel, roster: seq<nat>, omitted: nat, family: string, j: nat)
    requires Shaped(d) && InRange(d, roster) && omitted < |roster| && Distinct(roster)
    ensures InRange(d, roster[..omitted] + roster[omitted + 1..])
    ensures Within(roster[..omitted] + roster[omitted + 1..], roster)
    ensures j in NewlyValid(d, roster[..omitted] + roster[omitted + 1..], roster, family) <==>
            && Candidate(d, roster[..omitted] + roster[omitted + 1..], family, j)
            && !(d.completed[roster[omitted]][j] && d.parseable[roster[omitted]][j])
  {
    var rest := roster[..omitted] + roster[omitted + 1..];
    assert forall i :: 0 <= i < |rest| ==> rest[i] == roster[if i < omitted then i else i + 1];
    if Candidate(d, rest, family, j) && d.completed[roster[omitted]][j] && d.parseable[roster[omitted]][j] {
      forall i | 0 <= i < |roster| ensures d.completed[roster[i]][j] && d.parseable[roster[i]][j] {
        if i != omitted {
          assert rest[if i < omitted then i else i - 1] == roster[i];
        }
      }
    }
  }

  // ---- every stratum ----

  /** A valid task the task set does not know, which makes the family lookup raise. */
  ghost predicate Unknown(d: Panel, roster: seq<nat>, j: nat)
    requires Shaped(d) && InRange(d, roster)
  {
    j < |d.taskIds| && TaskValid(d, roster, j) && d.taskIds[j] !in d.families
  }

  ghost predicate FirstUnknown(d: Panel, roster: seq<nat>, j: nat)
    requires Shaped(d) && InRange(d, roster)
  {
    Unknown(d, roster, j) && forall i: nat :: i < j ==> !Unknown(d, roster, i)
  }

  /** What building one stratum's pool comes to. */
  ghost predicate StratumOk(d: Panel, roster: seq<nat>, family: string, key: OrderKey)
    requires Shaped(d) && InRange(d, roster)
  {
    (forall j: nat :: !Unknown(d, roster, j)) && |Pool(d, roster, family, key)| >= TASKS_PER_STRATUM
  }

  ghost predicate StratumFails(d: Panel, roster: seq<nat>, family: string, key: OrderKey, e: SelectionError)
    requires Shaped(d) && InRange(d, roster)
  {
    match e
    case UnknownTask(panel, task) =>
      && panel == d.name
      && exists j: nat :: FirstUnknown(d, roster, j) && d.taskIds[j] == task
    case TooFew(panel, f, count) =>
      && panel == d.name && f == family && (forall j: nat :: !Unknown(d, roster, j))
      && count == |Pool(d, roster, family, key)| < TASKS_PER_STRATUM
  }

  function TaskNames(d: Panel, positions: seq<nat>): (s: seq<string>)
    requires forall i :: 0 <= i < |positions| ==> positions[i] < |d.taskIds|
    ensures |s| == |positions|
    ensures forall i :: 0 <= i < |s| ==> s[i] == d.taskIds[positions[i]]
  {
    seq(|positions|, i requires 0 <= i < |positions| => d.taskIds[positions[i]])
  }

  /** The pool loop of one stratum: valid tasks of the family, in the panel's order. */
  method BuildPool(d: Panel, roster: seq<nat>, family: string, key: OrderKey)
    returns (r: Result<seq<nat>, SelectionError>)
    requires Shaped(d) && InRange(d, roster)
    ensures r.Ok? ==> (forall j: nat :: !Unknown(d, roster, j)) && r.value == Pool(d, roster, family, key)
    ensures r.Err? ==> r.error.UnknownTask? && StratumFails(d, roster, family, key, r.error)
  {
    var pool: seq<nat> := [];
    for j := 0 to |d.taskIds|
      invariant pool == Candidates(d, roster, family, j)
      invariant forall i: nat :: i < j ==> !Unknown(d, roster, i)
    {
      if TaskValid(d, roster, j) {
        if d.taskIds[j] !in d.families {
          assert FirstUnknown(d, roster, j);
          return Err(UnknownTask(d.name, d.taskIds[j]));
        }
        if d.families[d.taskIds[j]] == family {
          pool := pool + [j];
        }
      }
    }
    return Ok(SortBy(Order(d, family, key), pool));
  }

  datatype Selected = Selected(tasks: map<(string, string), seq<string>>, available: map<(string, string), nat>)

  ghost predicate AllShaped(panels: seq<Panel>, roster: seq<nat>) {
    forall i :: 0 <= i < |panels| ==> Shaped(panels[i]) && InRange(panels[i], roster)
  }

  /** The stratum's entry is its first tasks by name, and its pool size. */
  ghost predicate Filled(s: Selected, d: Panel, family: string, roster: seq<nat>, key: OrderKey)
    requires Shaped(d) && InRange(d, roster)
  {
    var k := (d.name, family);
    var chosen := Chosen(d, roster, family, key, TASKS_PER_STRATUM);
    && k in s.tasks && k in s.available
    && StratumOk(d, roster, family, key)
    && (forall i :: 0 <= i < |chosen| ==> chosen[i] < |d.taskIds|)
    && s.tasks[k] == TaskNames(d, chosen)
    && s.available[k] == |Pool(d, roster, family, key)|
  }

  ghost predicate AllFilled(
    s: Selected, panels: seq<Panel>, families: seq<string>, roster: seq<nat>, key: OrderKey, p: nat, f: nat)
    requires AllShaped(panels, roster)
    requires p <= |panels| && f <= |families|
  {
    && (forall a, b :: 0 <= a < p && 0 <= b < |families| ==> Filled(s, panels[a], families[b], roster, key))
    && (p < |panels| ==> forall b :: 0 <= b < f ==> Filled(s, panels[p], families[b], roster, key))
  }

  /** Every stratum visited before the b-th of the a-th panel was filled. */
  ghost predicate Before(panels: seq<Panel>, families: seq<string>, roster: seq<nat>, key: OrderKey, a: int, b: int)
    requires AllShaped(panels, roster)
    requires 0 <= a < |panels| && 0 <= b < |families|
  {
    && (forall i, j :: 0 <= i < a && 0 <= j < |families| ==> StratumOk(panels[i], roster, families[j], key))
    && (forall j :: 0 <= j < b ==> StratumOk(panels[a], roster, families[j], key))
  }

  /** Nothing else has an entry. */
  ghost predicate OnlyVisited(s: Selected, panels: seq<Panel>, families: seq<string>, p: nat, f: nat)
    requires p <= |panels| && f <= |families|
  {
    forall k :: k in s.tasks || k in s.available ==>
      exists a, b :: 0 <= a < |panels| && 0 <= b < |families| && (a < p || (a == p && b < f))
        && k == (panels[a].name, families[b])
  }

  lemma PoolInRange(d: Panel, roster: seq<nat>, family: string, key: OrderKey)
    requires Shaped(d) && InRange(d, roster)
    ensures forall i :: 0 <= i < |Pool(d, roster, family, key)| ==> Pool(d, roster, family, key)[i] < |d.taskIds|
  {
    hide Pool;
    PoolExact(d, roster, family, key);
    forall i | 0 <= i < |Pool(d, roster, family, key)| ensures Pool(d, roster, family, key)[i] < |d.taskIds| {
      assert Pool(d, roster, family, key)[i] in Pool(d, roster, family, key);
    }
  }

  lemma FewFails(d: Panel, roster: seq<nat>, family: string, key: OrderKey)
    requires Shaped(d) && InRange(d, roster)
    requires forall j: nat :: !Unknown(d, roster, j)
    requires |Pool(d, roster, family, key)| < TASKS_PER_STRATUM
    ensures StratumFails(d, roster, family, key, TooFew(d.name, family, |Pool(d, roster, family, key)|))
  {
    hide Pool;
  }

  /** The state with one more entry. */
  ghost predicate Entered(was: Selected, s: Selected, k: (string, string)) {
    k in s.tasks && k in s.available && s == Selected(was.tasks[k := s.tasks[k]], was.available[k := s.available[k]])
  }

  lemma NothingFilled(panels: seq<Panel>, families: seq<string>, roster: seq<nat>, key: OrderKey)
    requires AllShaped(panels, roster)
    ensures AllFilled(Selected(map[], map[]), panels, families, roster, key, 0, 0)
    ensures OnlyVisited(Selected(map[], map[]), panels, families, 0, 0)
  {
  }

  lemma PanelDone(s: Selected, panels: seq<Panel>, families: seq<string>, roster: seq<nat>, key: OrderKey, p: nat)
    requires AllShaped(panels, roster) && p < |panels|
    requires AllFilled(s, panels, families, roster, key, p, |families|)
    requires OnlyVisited(s, panels, families, p, |families|)
    ensures AllFilled(s, panels, families, roster, key, p + 1, 0) && OnlyVisited(s, panels, families, p + 1, 0)
  {
    hide Filled;
  }

  lemma FilledBefore(
    s: Selected, panels: seq<Panel>, families: seq<string>, roster: seq<nat>, key: OrderKey, p: nat, f: nat)
    requires AllShaped(panels, roster) && p < |panels| && f < |families|
    requires AllFilled(s, panels, families, roster, key, p, f)
    ensures Before(panels, families, roster, key, p, f)
  {
    hide StratumOk, TaskNames, Chosen, Pool;
  }

  /** Entering one more stratum leaves the others as they were. */
  lemma FillStep(
    was: Selected, s: Selected, panels: seq<Panel>, families: seq<string>, roster: seq<nat>, key: OrderKey,
    p: nat, f: nat)
    requires AllShaped(panels, roster) && p < |panels| && f < |families|
    requires forall i, j :: 0 <= i < j < |panels| ==> panels[i].name != panels[j].name
    requires Distinct(families)
    requires AllFilled(was, panels, families, roster, key, p, f) && OnlyVisited(was, panels, families, p, f)
    requires Filled(s, panels[p], families[f], roster, key)
    requires Entered(was, s, (panels[p].name, families[f]))
    ensures AllFilled(s, panels, families, roster, key, p, f + 1) && OnlyVisited(s, panels, families, p, f + 1)
  {
    hide Filled;
    forall a, b | 0 <= a < |panels| && 0 <= b < |families| && (a < p || (a == p && b < f))
      ensures Filled(s, panels[a], families[b], roster, key)
    {
      assert Filled(was, panels[a], families[b], roster, key);
      FilledKept(was, s, panels[a], families[b], roster, key, (panels[p].name, families[f]));
    }
    VisitStep(was, s, panels, families, p, f);
  }

  lemma FilledKept(
    was: Selected, s: Selected, d: Panel, family: string, roster: seq<nat>, key: OrderKey, k: (string, string))
    requires Shaped(d) && InRange(d, roster)
    requires Filled(was, d, family, roster, key)
    requires k != (d.name, family) && Entered(was, s, k)
    ensures Filled(s, d, family, roster, key)
  {
    hide StratumOk, TaskNames, Chosen, Pool;
  }

  lemma VisitStep(was: Selected, s: Selected, panels: seq<Panel>, families: seq<string>, p: nat, f: nat)
    requires p < |panels| && f < |families|
    requires OnlyVisited(was, panels, families, p, f)
    requires Entered(was, s, (panels[p].name, families[f]))
    ensures OnlyVisited(s, panels, families, p, f + 1)
  {
  }

  lemma NowFilled(s: Selected, d: Panel, family: string, roster: seq<nat>, key: OrderKey)
    requires Shaped(d) && InRange(d, roster) && StratumOk(d, roster, family, key)
    requires var k := (d.name, family);
             var first := Pool(d, roster, family, key)[..TASKS_PER_STRATUM];
             && k in s.tasks && k in s.available
             && (forall i :: 0 <= i < |first| ==> first[i] < |d.taskIds|)
             && s.tasks[k] == TaskNames(d, first) && s.available[k] == |Pool(d, roster, family, key)|
    ensures Filled(s, d, family, roster, key)
  {
    hide TaskNames, Pool;
  }

  /** The strata, one after the other, until one cannot be filled. */
  method SelectForRoster(panels: seq<Panel>, families: seq<string>, roster: seq<nat>, key: OrderKey)
    returns (r: Result<Selected, SelectionError>)
    requires AllShaped(panels, roster)
    requires forall i, j :: 0 <= i < j < |panels| ==> panels[i].name != panels[j].name
    requires Distinct(families)
    ensures r.Ok? ==> AllFilled(r.value, panels, families, roster, key, |panels|, 0)
    ensures r.Ok? ==> OnlyVisited(r.value, panels, families, |panels|, 0)
    ensures r.Ok? ==> forall k :: k in r.value.tasks ==> |r.value.tasks[k]| == 89
    ensures r.Err? ==> exists a, b :: 0 <= a < |panels| && 0 <= b < |families|
                         && StratumFails(panels[a], roster, families[b], key, r.error)
                         && Before(panels, families, roster, key, a, b)
  {
    hide StratumFails, Before, AllFilled, OnlyVisited, Filled, Pool, NoLater, TaskNames;
    var s := Selected(map[], map[]);
    NothingFilled(panels, families, roster, key);
    for p := 0 to |panels|
      invariant AllFilled(s, panels, families, roster, key, p, 0)
      invariant OnlyVisited(s, panels, families, p, 0)
    {
      for f := 0 to |families|
        invariant AllFilled(s, panels, families, roster, key, p, f)
        invariant OnlyVisited(s, panels, families, p, f)
      {
        ghost var s0 := s;
        FilledBefore(s, panels, families, roster, key, p, f);
        var built := BuildPool(panels[p], roster, families[f], key);
        if built.Err? {
          return Err(built.error);
        }
        var stratum := (panels[p].name, families[f]);
        s := s.(available := s.available[stratum := |built.value|]);
        if |built.value| < TASKS_PER_STRATUM {
          FewFails(panels[p], roster, families[f], key);
          return Err(TooFew(panels[p].name, families[f], |built.value|));
        }
        PoolInRange(panels[p], roster, families[f], key);
        var first := built.value[..TASKS_PER_STRATUM];
        s := s.(tasks := s.tasks[stratum := TaskNames(panels[p], first)]);
        NowFilled(s, panels[p], families[f], roster, key);
        FillStep(s0, s, panels, families, roster, key, p, f);
      }
      PanelDone(s, panels, families, roster, key, p);
    }
    StrataSize(s, panels, families, roster, key);
    return Ok(s);
  }

  lemma StrataSize(s: Selected, panels: seq<Panel>, families: seq<string>, roster: seq<nat>, key: OrderKey)
    requires AllShaped(panels, roster)
    requires AllFilled(s, panels, families, roster, key, |panels|, 0) && OnlyVisited(s, panels, families, |panels|, 0)
    ensures forall k :: k in s.tasks ==> |s.tasks[k]| == 89
  {
    hide Filled;
    forall k | k in s.tasks ensures |s.tasks[k]| == 89 {
      var a, b :| 0 <= a < |panels| && 0 <= b < |families| && k == (panels[a].name, families[b]);
      StratumSize(s, panels[a], families[b], roster, key);
    }
  }

  lemma StratumSize(s: Selected, d: Panel, family: string, roster: seq<nat>, key: OrderKey)
    requires Shaped(d) && InRange(d, roster) && Filled(s, d, family, roster, key)
    ensures (d.name, family) in s.tasks && |s.tasks[(d.name, family)]| == 89
  {
    hide Pool;
  }
}
