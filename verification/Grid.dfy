/**
 The release grid checks: complete pair graphs (paper/reproduce_powered_release.py and
 paper/verify_complete_core_release.py, verify_release), contiguous ranks (paper/reproduce_powered_release.py)
 and the paired observation grid (paper/reproduce_epicure_native.py, replay).
 Each check is a length and a set comparison; the results say what coverage that amounts to.
 */
module Grid {
  import opened Finite
  import opened Outcomes
  import opened Sorting

  type PairRow = (string, string)

  // ---- complete pair graphs ----

  /** `{frozenset(pair) for pair in combinations(ids, 2)}`. */
  function ExpectedPairs(ids: seq<string>): (s: set<set<string>>)
    ensures forall p :: p in s <==> exists i, j :: 0 <= i < j < |ids| && p == {ids[i], ids[j]}
  {
    set i, j | 0 <= i < j < |ids| :: {ids[i], ids[j]}
  }

  function Unordered(rows: seq<PairRow>): (s: seq<set<string>>)
    ensures |s| == |rows| && forall k :: 0 <= k < |rows| ==> s[k] == {rows[k].0, rows[k].1}
  {
    seq(|rows|, k requires 0 <= k < |rows| => {rows[k].0, rows[k].1})
  }

  function Choose2(n: nat): nat {
    n * (n - 1) / 2
  }

  /** The roster and pair-grid requirements of the powered release. */
  predicate PoweredCheck(ids: seq<string>, rows: seq<PairRow>) {
    && |ids| >= 2
    && |rows| == Choose2(|ids|)
    && |Elements(ids)| == |ids|
    && Elements(Unordered(rows)) == ExpectedPairs(ids)
  }

  /** Some row compares a with b. */
  ghost predicate Compared(rows: seq<PairRow>, a: string, b: string) {
    exists k :: 0 <= k < |rows| && Unordered(rows)[k] == {a, b}
  }

  /** Every two distinct models are compared, no two rows compare the same ones, and every row compares two of them. */
  ghost predicate ExactPairGrid(ids: seq<string>, rows: seq<PairRow>) {
    && (forall i, j :: 0 <= i < j < |ids| ==> Compared(rows, ids[i], ids[j]))
    && Distinct(Unordered(rows))
    && (forall k :: 0 <= k < |rows| ==> rows[k].0 != rows[k].1 && rows[k].0 in ids && rows[k].1 in ids)
  }

  function PairsWith(ids: seq<string>, x: string): (s: set<set<string>>) {
    set i | 0 <= i < |ids| :: {ids[i], x}
  }

  lemma {:induction false} PairsWithSize(ids: seq<string>, x: string)
    requires Distinct(ids) && x !in ids
    ensures |PairsWith(ids, x)| == |ids|
  {
    if ids != [] {
      var n := |ids| - 1;
      var front := ids[..n];
      PairsWithSize(front, x);
      assert PairsWith(ids, x) == PairsWith(front, x) + {{ids[n], x}};
      assert forall i :: 0 <= i < n ==> ids[n] !in {front[i], x};
    }
  }

  lemma PairsSplit(ids: seq<string>)
    requires |ids| > 0
    ensures ExpectedPairs(ids) == ExpectedPairs(ids[..|ids| - 1]) + PairsWith(ids[..|ids| - 1], ids[|ids| - 1])
  {
    var n := |ids| - 1;
    var front, x := ids[..n], ids[n];
    forall p ensures p in ExpectedPairs(ids) <==> p in ExpectedPairs(front) + PairsWith(front, x) {
      if p in ExpectedPairs(ids) {
        var i, j :| 0 <= i < j < |ids| && p == {ids[i], ids[j]};
        if j < n {
          assert p == {front[i], front[j]};
        } else {
          assert p == {front[i], x};
        }
      }
      if p in ExpectedPairs(front) {
        var i, j :| 0 <= i < j < n && p == {front[i], front[j]};
        assert p == {ids[i], ids[j]};
      }
      if p in PairsWith(front, x) {
        var i :| 0 <= i < n && p == {front[i], x};
        assert p == {ids[i], ids[n]};
      }
    }
  }

  /** n distinct ids have n(n-1)/2 pairs. */
  lemma {:induction false} ExpectedPairsSize(ids: seq<string>)
    requires Distinct(ids)
    ensures |ExpectedPairs(ids)| == Choose2(|ids|)
  {
    hide Choose2, ExpectedPairs;
    if ids == [] {
      NoPairs();
    } else {
      ExpectedPairsSize(ids[..|ids| - 1]);
      OneMorePairs(ids);
      ChooseStep(|ids| - 1);
    }
  }

  lemma NoPairs()
    ensures |ExpectedPairs([])| == Choose2(0)
  {
    assert ExpectedPairs([]) == {};
  }

  lemma OneMorePairs(ids: seq<string>)
    requires |ids| > 0 && Distinct(ids)
    ensures |ExpectedPairs(ids)| == |ExpectedPairs(ids[..|ids| - 1])| + (|ids| - 1)
  {
    hide ExpectedPairs, PairsWith;
    var front, x := ids[..|ids| - 1], ids[|ids| - 1];
    PairsSplit(ids);
    PairsWithSize(front, x);
    PairsApart(front, x);
  }

  lemma PairsApart(ids: seq<string>, x: string)
    requires x !in ids
    ensures ExpectedPairs(ids) !! PairsWith(ids, x)
  {
    assert forall p :: p in ExpectedPairs(ids) ==> x !in p;
    assert forall p :: p in PairsWith(ids, x) ==> x in p;
  }

  lemma ChooseStep(n: nat)
    ensures Choose2(n + 1) == Choose2(n) + n
  {
    assert (n + 1) * n == n * (n - 1) + 2 * n;
  }

  lemma RowWithinRoster(ids: seq<string>, row: PairRow)
    requires Distinct(ids) && {row.0, row.1} in ExpectedPairs(ids)
    ensures row.0 != row.1 && row.0 in ids && row.1 in ids
  {
    var i, j :| 0 <= i < j < |ids| && {row.0, row.1} == {ids[i], ids[j]};
    PairMembers(row.0, row.1, ids[i], ids[j]);
  }

  lemma GridFromCheck(ids: seq<string>, rows: seq<PairRow>)
    requires PoweredCheck(ids, rows)
    ensures Distinct(ids) && ExactPairGrid(ids, rows)
  {
    var pairs := Unordered(rows);
    ElementsSize(ids);
    ElementsSize(pairs);
    ExpectedPairsSize(ids);
    hide Distinct, Choose2, ExpectedPairs;
    forall i, j | 0 <= i < j < |ids| ensures Compared(rows, ids[i], ids[j]) {
      assert {ids[i], ids[j]} in Elements(pairs);
    }
    forall k | 0 <= k < |rows| ensures rows[k].0 != rows[k].1 && rows[k].0 in ids && rows[k].1 in ids {
      assert pairs[k] in Elements(pairs);
      RowWithinRoster(ids, rows[k]);
    }
  }

  lemma PairMembers(a: string, b: string, c: string, d: string)
    requires {a, b} == {c, d}
    ensures (a == c && b == d) || (a == d && b == c)
  {
    assert a in {c, d} && b in {c, d} && c in {a, b} && d in {a, b};
  }

  lemma RosterPair(ids: seq<string>, a: string, b: string)
    requires a in ids && b in ids && a != b
    ensures {a, b} in ExpectedPairs(ids)
  {
    var i :| 0 <= i < |ids| && ids[i] == a;
    var j :| 0 <= j < |ids| && ids[j] == b;
    assert {a, b} == {b, a};
    if j < i {
      assert {a, b} == {ids[j], ids[i]};
    }
  }

  lemma RowsAreExpected(ids: seq<string>, rows: seq<PairRow>, p: set<string>)
    requires ExactPairGrid(ids, rows)
    ensures p in Elements(Unordered(rows)) ==> p in ExpectedPairs(ids)
  {
    hide Distinct, ExpectedPairs;
    if p in Elements(Unordered(rows)) {
      var k :| 0 <= k < |rows| && Unordered(rows)[k] == p;
      RosterPair(ids, rows[k].0, rows[k].1);
    }
  }

  lemma ExpectedAreRows(ids: seq<string>, rows: seq<PairRow>, p: set<string>)
    requires ExactPairGrid(ids, rows)
    ensures p in ExpectedPairs(ids) ==> p in Elements(Unordered(rows))
  {
    hide Distinct;
    if p in ExpectedPairs(ids) {
      var i, j :| 0 <= i < j < |ids| && p == {ids[i], ids[j]};
      assert Compared(rows, ids[i], ids[j]);
    }
  }

  lemma CheckFromGrid(ids: seq<string>, rows: seq<PairRow>)
    requires |ids| >= 2 && Distinct(ids) && ExactPairGrid(ids, rows)
    ensures PoweredCheck(ids, rows)
  {
    hide Choose2, ExpectedPairs, Unordered;
    ElementsSize(ids);
    ElementsSize(Unordered(rows));
    ExpectedPairsSize(ids);
    forall p ensures p in Elements(Unordered(rows)) <==> p in ExpectedPairs(ids) {
      RowsAreExpected(ids, rows, p);
      ExpectedAreRows(ids, rows, p);
    }
    assert Elements(Unordered(rows)) == ExpectedPairs(ids);
  }

  /** The length and set comparison accept exactly the complete pair graphs, for any roster size. */
  lemma PairCheckExact(ids: seq<string>, rows: seq<PairRow>)
    ensures PoweredCheck(ids, rows) <==> |ids| >= 2 && Distinct(ids) && ExactPairGrid(ids, rows)
  {
    if PoweredCheck(ids, rows) {
      GridFromCheck(ids, rows);
    }
    if |ids| >= 2 && Distinct(ids) && ExactPairGrid(ids, rows) {
      CheckFromGrid(ids, rows);
    }
  }

  /** `tuple(sorted((left, right)))`. */
  function SortedPair(a: string, b: string): (p: PairRow)
    ensures LexLeq(p.0, p.1)
  {
    LexTotal(a, b);
    if LexLeq(a, b) then (a, b) else (b, a)
  }

  function SortedPairs(rows: seq<PairRow>): set<PairRow> {
    set k | 0 <= k < |rows| :: SortedPair(rows[k].0, rows[k].1)
  }

  function ExpectedSortedPairs(ids: seq<string>): set<PairRow> {
    set i, j | 0 <= i < j < |ids| :: SortedPair(ids[i], ids[j])
  }

  const CORE_MODELS := 27
  const CORE_PAIRS := 351

  /** The roster and pair-graph requirements of the complete-core release, which compare sorted tuples. */
  predicate CoreCheck(ids: seq<string>, rows: seq<PairRow>) {
    && |ids| == CORE_MODELS && |rows| == CORE_PAIRS
    && |Elements(ids)| == CORE_MODELS && (forall i :: 0 <= i < |ids| ==> ids[i] != "")
    && SortedPairs(rows) == ExpectedSortedPairs(ids)
  }

  lemma SortedPairIsUnordered(a: string, b: string, c: string, d: string)
    ensures SortedPair(a, b) == SortedPair(c, d) <==> {a, b} == {c, d}
  {
    LexTotal(a, b);
    LexTotal(c, d);
    if {a, b} == {c, d} {
      PairMembers(a, b, c, d);
      if LexLeq(a, b) && LexLeq(b, a) {
        LexAntisymmetric(a, b);
      }
    }
  }

  lemma SortedSetsAgree(ids: seq<string>, rows: seq<PairRow>)
    ensures SortedPairs(rows) == ExpectedSortedPairs(ids) <==> Elements(Unordered(rows)) == ExpectedPairs(ids)
  {
    hide SortedPair;
    var pairs := Unordered(rows);
    forall k, i, j | 0 <= k < |rows| && 0 <= i < |ids| && 0 <= j < |ids|
      ensures SortedPair(rows[k].0, rows[k].1) == SortedPair(ids[i], ids[j]) <==> pairs[k] == {ids[i], ids[j]}
    {
      SortedPairIsUnordered(rows[k].0, rows[k].1, ids[i], ids[j]);
    }
    if SortedPairs(rows) == ExpectedSortedPairs(ids) {
      SortedToUnordered(ids, rows);
    }
    if Elements(pairs) == ExpectedPairs(ids) {
      UnorderedToSorted(ids, rows);
    }
  }

  lemma SortedToUnordered(ids: seq<string>, rows: seq<PairRow>)
    requires SortedPairs(rows) == ExpectedSortedPairs(ids)
    ensures Elements(Unordered(rows)) == ExpectedPairs(ids)
  {
    hide SortedPair;
    var pairs := Unordered(rows);
    forall p ensures p in Elements(pairs) <==> p in ExpectedPairs(ids) {
      if p in Elements(pairs) {
        var k :| 0 <= k < |pairs| && pairs[k] == p;
        assert SortedPair(rows[k].0, rows[k].1) in ExpectedSortedPairs(ids);
        var i, j :| 0 <= i < j < |ids| && SortedPair(ids[i], ids[j]) == SortedPair(rows[k].0, rows[k].1);
        SortedPairIsUnordered(rows[k].0, rows[k].1, ids[i], ids[j]);
      }
      if p in ExpectedPairs(ids) {
        var i, j :| 0 <= i < j < |ids| && p == {ids[i], ids[j]};
        assert SortedPair(ids[i], ids[j]) in SortedPairs(rows);
        var k :| 0 <= k < |rows| && SortedPair(rows[k].0, rows[k].1) == SortedPair(ids[i], ids[j]);
        SortedPairIsUnordered(rows[k].0, rows[k].1, ids[i], ids[j]);
        assert pairs[k] == p;
      }
    }
  }

  lemma UnorderedToSorted(ids: seq<string>, rows: seq<PairRow>)
    requires Elements(Unordered(rows)) == ExpectedPairs(ids)
    ensures SortedPairs(rows) == ExpectedSortedPairs(ids)
  {
    hide SortedPair;
    var pairs := Unordered(rows);
    forall t ensures t in SortedPairs(rows) <==> t in ExpectedSortedPairs(ids) {
      if t in SortedPairs(rows) {
        var k :| 0 <= k < |rows| && SortedPair(rows[k].0, rows[k].1) == t;
        assert pairs[k] in ExpectedPairs(ids);
        var i, j :| 0 <= i < j < |ids| && pairs[k] == {ids[i], ids[j]};
        SortedPairIsUnordered(rows[k].0, rows[k].1, ids[i], ids[j]);
      }
      if t in ExpectedSortedPairs(ids) {
        var i, j :| 0 <= i < j < |ids| && t == SortedPair(ids[i], ids[j]);
        assert {ids[i], ids[j]} in Elements(pairs);
        var k :| 0 <= k < |pairs| && pairs[k] == {ids[i], ids[j]};
        SortedPairIsUnordered(rows[k].0, rows[k].1, ids[i], ids[j]);
      }
    }
  }

  /** The complete-core check is the same check at 27 models, plus nonempty ids. */
  lemma CoreCheckExact(ids: seq<string>, rows: seq<PairRow>)
    ensures CoreCheck(ids, rows) <==>
            |ids| == 27 && "" !in ids && Distinct(ids) && ExactPairGrid(ids, rows)
  {
    PairCheckExact(ids, rows);
    SortedSetsAgree(ids, rows);
    ElementsSize(ids);
    assert Choose2(27) == 351;
  }

  const CORE_TASKS := 534

  datatype CoreModel = CoreModel(id: string, scheduled: Option<int>, validScored: Option<int>, validRate: Option<real>)

  datatype CoreRow = CoreRow(left: string, right: string, shared: Option<int>, significant: bool)

  /** The stated numbers of models, tasks and resolved pairs. */
  datatype CoreDesign = CoreDesign(models: Option<int>, tasks: Option<int>, resolved: Option<int>)

  function ModelIds(models: seq<CoreModel>): (ids: seq<string>)
    ensures |ids| == |models| && forall i :: 0 <= i < |ids| ==> ids[i] == models[i].id
  {
    seq(|models|, i requires 0 <= i < |models| => models[i].id)
  }

  function PairRows(rows: seq<CoreRow>): (pairs: seq<PairRow>)
    ensures |pairs| == |rows| && forall k :: 0 <= k < |pairs| ==> pairs[k] == (rows[k].left, rows[k].right)
  {
    seq(|rows|, k requires 0 <= k < |rows| => (rows[k].left, rows[k].right))
  }

  /** `sum(bool(row.get("holm_significant")) for row in pairs)`. */
  function SignificantRows(rows: seq<CoreRow>): nat {
    if rows == [] then 0
    else SignificantRows(rows[..|rows| - 1]) + if rows[|rows| - 1].significant then 1 else 0
  }

  predicate CompleteModel(m: CoreModel) {
    m.scheduled == Some(CORE_TASKS) && m.validScored == Some(CORE_TASKS) && m.validRate == Some(1.0)
  }

  /** All the requirements on the roster, the pairs and their counts. */
  predicate CoreRelease(design: CoreDesign, models: seq<CoreModel>, rows: seq<CoreRow>) {
    && design.models == Some(CORE_MODELS) && design.tasks == Some(CORE_TASKS)
    && design.resolved == Some(SignificantRows(rows))
    && CoreCheck(ModelIds(models), PairRows(rows))
    && (forall i :: 0 <= i < |models| ==> CompleteModel(models[i]))
    && (forall k :: 0 <= k < |rows| ==> rows[k].shared == Some(CORE_TASKS))
  }

  /** The pairs of models some row finds significant. */
  ghost function ResolvedPairs(rows: seq<CoreRow>): (s: set<set<string>>)
    ensures forall p :: p in s <==>
              exists k :: 0 <= k < |rows| && rows[k].significant && {rows[k].left, rows[k].right} == p
  {
    set k | 0 <= k < |rows| && rows[k].significant :: {rows[k].left, rows[k].right}
  }

  /** When no two rows compare the same models, significant rows and resolved pairs are equally many. */
  lemma {:induction false} SignificantCount(rows: seq<CoreRow>)
    requires Distinct(Unordered(PairRows(rows)))
    ensures |ResolvedPairs(rows)| == SignificantRows(rows)
  {
    if rows == [] {
      assert ResolvedPairs(rows) == {};
    } else {
      var front := rows[..|rows| - 1];
      hide ResolvedPairs, Distinct, PairRows, Unordered;
      LastPairIsNew(rows);
      SignificantCount(front);
      ResolvedSnoc(rows);
    }
  }

  lemma LastPairIsNew(rows: seq<CoreRow>)
    requires rows != [] && Distinct(Unordered(PairRows(rows)))
    ensures var front, last := rows[..|rows| - 1], rows[|rows| - 1];
            Distinct(Unordered(PairRows(front))) && {last.left, last.right} !in ResolvedPairs(front)
  {
    var n := |rows| - 1;
    assert PairRows(rows[..n]) == PairRows(rows)[..n];
    assert Unordered(PairRows(rows[..n])) == Unordered(PairRows(rows))[..n];
    forall k | 0 <= k < n ensures {rows[k].left, rows[k].right} != {rows[n].left, rows[n].right} {
      assert Unordered(PairRows(rows))[k] != Unordered(PairRows(rows))[n];
    }
  }

  lemma ResolvedSnoc(rows: seq<CoreRow>)
    requires rows != []
    ensures var front, last := rows[..|rows| - 1], rows[|rows| - 1];
            ResolvedPairs(rows) == ResolvedPairs(front) + if last.significant then {{last.left, last.right}} else {}
  {
    var n := |rows| - 1;
    var front := rows[..n];
    forall k | 0 <= k < n ensures front[k] == rows[k] {
    }
    forall p | p in ResolvedPairs(front) ensures p in ResolvedPairs(rows) {
      var k :| 0 <= k < n && front[k].significant && {front[k].left, front[k].right} == p;
      assert rows[k] == front[k];
    }
  }

  /**
   A complete-core release passes exactly when 27 distinctly named models, each complete on all 534 tasks, are
   compared pairwise exactly once, on all tasks, and the stated count is the number of pairs found significant.
   */
  lemma CoreReleaseExact(design: CoreDesign, models: seq<CoreModel>, rows: seq<CoreRow>)
    ensures CoreRelease(design, models, rows) <==>
            && design == CoreDesign(Some(27), Some(534), Some(|ResolvedPairs(rows)|))
            && |models| == 27 && "" !in ModelIds(models) && Distinct(ModelIds(models))
            && ExactPairGrid(ModelIds(models), PairRows(rows))
            && (forall i :: 0 <= i < |models| ==> models[i] == CoreModel(models[i].id, Some(534), Some(534), Some(1.0)))
            && (forall k :: 0 <= k < |rows| ==> rows[k].shared == Some(534))
  {
    hide CoreCheck, SignificantRows, ResolvedPairs;
    CoreCheckExact(ModelIds(models), PairRows(rows));
    if ExactPairGrid(ModelIds(models), PairRows(rows)) {
      SignificantCount(rows);
    }
  }

  // ---- paired observation grid ----

  type Key = (string, string, string)

  function Cells(models: seq<string>, tasks: seq<string>, conditions: seq<string>): set<Key> {
    set m, t, c | m in models && t in tasks && c in conditions :: (m, t, c)
  }

  /** The grid requirement of the replay: as many keys as cells, and the same set. */
  predicate GridCheck(keys: seq<Key>, models: seq<string>, tasks: seq<string>, conditions: seq<string>) {
    |keys| == |models| * |tasks| * |conditions| && Elements(keys) == Cells(models, tasks, conditions)
  }

  function Slab(m: string, tasks: seq<string>, conditions: seq<string>): set<Key> {
    set t, c | t in tasks && c in conditions :: (m, t, c)
  }

  function Bar(m: string, t: string, conditions: seq<string>): set<Key> {
    set c | c in conditions :: (m, t, c)
  }

  lemma {:induction false} BarSize(m: string, t: string, conditions: seq<string>)
    requires Distinct(conditions)
    ensures |Bar(m, t, conditions)| == |conditions|
  {
    if conditions != [] {
      var n := |conditions| - 1;
      var front := conditions[..n];
      BarSize(m, t, front);
      assert conditions == front + [conditions[n]];
      assert Bar(m, t, conditions) == Bar(m, t, front) + {(m, t, conditions[n])};
    }
  }

  lemma {:induction false} SlabSize(m: string, tasks: seq<string>, conditions: seq<string>)
    requires Distinct(tasks) && Distinct(conditions)
    ensures |Slab(m, tasks, conditions)| == |tasks| * |conditions|
  {
    if tasks != [] {
      var n := |tasks| - 1;
      var front := tasks[..n];
      SlabSize(m, front, conditions);
      BarSize(m, tasks[n], conditions);
      assert tasks == front + [tasks[n]];
      assert Slab(m, tasks, conditions) == Slab(m, front, conditions) + Bar(m, tasks[n], conditions);
      assert Slab(m, front, conditions) !! Bar(m, tasks[n], conditions);
      Step(n, |conditions|);
    }
  }

  lemma Step(n: nat, k: nat)
    ensures (n + 1) * k == n * k + k
  {
  }

  /** The product grid has as many cells as its sides multiplied. */
  lemma {:induction false} CellsSize(models: seq<string>, tasks: seq<string>, conditions: seq<string>)
    requires Distinct(models) && Distinct(tasks) && Distinct(conditions)
    ensures |Cells(models, tasks, conditions)| == |models| * (|tasks| * |conditions|)
  {
    if models != [] {
      var n := |models| - 1;
      var front := models[..n];
      CellsSize(front, tasks, conditions);
      SlabSize(models[n], tasks, conditions);
      assert models == front + [models[n]];
      assert Cells(models, tasks, conditions) == Cells(front, tasks, conditions) + Slab(models[n], tasks, conditions);
      assert Cells(front, tasks, conditions) !! Slab(models[n], tasks, conditions);
      Step(n, |tasks| * |conditions|);
    }
  }

  lemma Regroup(a: nat, b: nat, c: nat)
    ensures a * b * c == a * (b * c)
  {
  }

  /** The check accepts exactly the key lists that hold every cell once and nothing else. */
  lemma GridCheckExact(keys: seq<Key>, models: seq<string>, tasks: seq<string>, conditions: seq<string>)
    requires Distinct(models) && Distinct(tasks) && Distinct(conditions)
    ensures GridCheck(keys, models, tasks, conditions) <==>
            Distinct(keys) && forall m, t, c :: (m, t, c) in keys <==> m in models && t in tasks && c in conditions
  {
    hide Distinct;
    ElementsSize(keys);
    CellsSize(models, tasks, conditions);
    Regroup(|models|, |tasks|, |conditions|);
    if forall m, t, c :: (m, t, c) in keys <==> m in models && t in tasks && c in conditions {
      forall k ensures k in Elements(keys) <==> k in Cells(models, tasks, conditions) {
        assert k == (k.0, k.1, k.2);
      }
      assert Elements(keys) == Cells(models, tasks, conditions);
    }
    if GridCheck(keys, models, tasks, conditions) {
      forall m, t, c ensures (m, t, c) in keys <==> m in models && t in tasks && c in conditions {
        assert (m, t, c) in Elements(keys) <==> (m, t, c) in Cells(models, tasks, conditions);
      }
    }
  }

  // ---- contiguous ranks ----

  function Ascending(a: int, b: int): bool {
    a <= b
  }

  /**
   Some row is ranked, and `[rank for row in sorted(rows)] == list(range(1, n + 1))`; the second sort key only
   orders equal ranks.
   */
  predicate RankCheck(ranks: seq<int>) {
    var sorted := SortBy(Ascending, ranks);
    ranks != [] && |sorted| == |ranks| && forall i :: 0 <= i < |sorted| ==> sorted[i] == i + 1
  }

  lemma {:induction false} SortedDistinctGap(s: seq<int>, i: nat)
    requires i < |s| && (forall a, b :: 0 <= a < b < |s| ==> s[a] < s[b]) && s[0] >= 1
    ensures s[i] >= i + 1
  {
    if i > 0 {
      SortedDistinctGap(s, i - 1);
    }
  }

  lemma {:induction false} SortedDistinctRoom(s: seq<int>, i: nat)
    requires i < |s| && (forall a, b :: 0 <= a < b < |s| ==> s[a] < s[b]) && s[|s| - 1] <= |s|
    ensures s[i] <= i + 1
    decreases |s| - i
  {
    if i < |s| - 1 {
      SortedDistinctRoom(s, i + 1);
    }
  }

  /** Ranks pass exactly when each of 1..n is held by exactly one row. */
  lemma RankCheckExact(ranks: seq<int>)
    ensures RankCheck(ranks) <==>
            ranks != [] && Distinct(ranks) && forall i :: 0 <= i < |ranks| ==> 1 <= ranks[i] <= |ranks|
  {
    hide SortBy, Distinct;
    var sorted := SortBy(Ascending, ranks);
    SortedRanks(ranks, sorted);
    SameRange(ranks, sorted);
    ContiguousExactly(sorted);
  }

  /** The same numbers lie in the same range. */
  lemma SameRange(a: seq<int>, b: seq<int>)
    requires |a| == |b| && forall x :: x in a <==> x in b
    ensures (forall i :: 0 <= i < |a| ==> 1 <= a[i] <= |a|) <==> forall x :: x in b ==> 1 <= x <= |b|
  {
    if forall x :: x in b ==> 1 <= x <= |b| {
      forall i | 0 <= i < |a| ensures 1 <= a[i] <= |a| {
        assert a[i] in a;
      }
    }
  }

  lemma ContiguousExactly(s: seq<int>)
    requires forall a, b :: 0 <= a < b < |s| ==> s[a] <= s[b]
    ensures (forall i :: 0 <= i < |s| ==> s[i] == i + 1) <==> Distinct(s) && forall x :: x in s ==> 1 <= x <= |s|
  {
    if Distinct(s) && forall x :: x in s ==> 1 <= x <= |s| {
      DistinctAreContiguous(s);
    }
  }

  lemma SortedRanks(ranks: seq<int>, sorted: seq<int>)
    requires sorted == SortBy(Ascending, ranks)
    ensures |sorted| == |ranks| && (forall x :: x in ranks <==> x in sorted)
    ensures Distinct(ranks) <==> Distinct(sorted)
    ensures forall a, b :: 0 <= a < b < |sorted| ==> sorted[a] <= sorted[b]
  {
    SortKeeps(Ascending, ranks);
    SortSorts(Ascending, ranks);
    forall x ensures x in ranks <==> x in sorted {
      assert x in multiset(ranks) <==> x in multiset(sorted);
    }
    ElementsSize(ranks);
    ElementsSize(sorted);
    assert Elements(ranks) == Elements(sorted);
    assert forall a, b :: 0 <= a < b < |sorted| ==> Ascending(sorted[a], sorted[b]);
  }

  /** Distinct ascending ranks within 1..n are 1 to n. */
  lemma DistinctAreContiguous(s: seq<int>)
    requires Distinct(s) && (forall a, b :: 0 <= a < b < |s| ==> s[a] <= s[b])
    requires forall x :: x in s ==> 1 <= x <= |s|
    ensures forall i :: 0 <= i < |s| ==> s[i] == i + 1
  {
    forall i | 0 <= i < |s| ensures s[i] == i + 1 {
      assert s[0] in s && s[|s| - 1] in s;
      SortedDistinctGap(s, i);
      SortedDistinctRoom(s, i);
    }
  }
}
