/**
 The pass that withdraws duplicate publications before the unique indexes are built
 (alembic/versions/0012_snapshot_publication_integrity.py, _withdraw_duplicate_publications).
 */
module Withdrawal {
  import opened Finite
  import opened Outcomes
  import opened Sorting
  import opened SqlLogic
  import opened SnapshotGuards
  import opened SnapshotTable

  /** The grouping key of the pass; unlike the controlled index it includes the season. */
  datatype Scope = Scope(season: Text, run: Text, track: Text, cohort: Text, category: Text, stratum: Text)

  function ScopeOf(s: Snapshot): Scope {
    Scope(
      s.content.season, s.content.controlledRun, s.content.track, s.content.cohort, s.content.category,
      s.content.stratum)
  }

  /** Rows as the table holds them: constraints in force and ids unique. */
  ghost predicate Keyed(rows: seq<Snapshot>) {
    && (forall i :: 0 <= i < |rows| ==> ColumnsHold(rows[i]))
    && forall i, j :: 0 <= i < j < |rows| ==> rows[i].id != rows[j].id
  }

  /** Strict order on publication times; a null is the greatest in PostgreSQL and the least in SQLite. */
  predicate TimeBelow(dialect: Dialect, a: Option<int>, b: Option<int>) {
    if a.Some? && b.Some? then a.value < b.value
    else if dialect.PostgreSQL? then a.Some? && b.None? else a.None? && b.Some?
  }

  function IdText(s: Snapshot): string {
    if s.id.Some? then s.id.value else ""
  }

  function CreatedAt(s: Snapshot): int {
    if s.content.createdAt.Some? then s.content.createdAt.value else 0
  }

  /** b comes no later than a by (published_at, created_at, id), each descending. */
  predicate AtLeastAsNew(dialect: Dialect, a: Snapshot, b: Snapshot) {
    || TimeBelow(dialect, b.publishedAt, a.publishedAt)
    || (a.publishedAt == b.publishedAt &&
        (CreatedAt(b) < CreatedAt(a) || (CreatedAt(a) == CreatedAt(b) && LexLeq(IdText(b), IdText(a)))))
  }

  function NewestFirst(dialect: Dialect): (Snapshot, Snapshot) -> bool {
    (a: Snapshot, b: Snapshot) => AtLeastAsNew(dialect, a, b)
  }

  lemma NewestFirstIsTotal(dialect: Dialect)
    ensures TotalPreorder(NewestFirst(dialect))
  {
    var before := NewestFirst(dialect);
    forall a, b ensures before(a, b) || before(b, a) {
      LexTotal(IdText(a), IdText(b));
    }
    forall a, b, c | before(a, b) && before(b, c) ensures before(a, c) {
      LexTransitive(IdText(c), IdText(b), IdText(a));
    }
  }

  /** Different rows are never equally new. */
  lemma NewnessStrict(dialect: Dialect, a: Snapshot, b: Snapshot)
    requires a.id.Some? && b.id.Some? && AtLeastAsNew(dialect, a, b) && AtLeastAsNew(dialect, b, a)
    ensures a.id == b.id
  {
    if LexLeq(IdText(a), IdText(b)) && LexLeq(IdText(b), IdText(a)) {
      LexAntisymmetric(IdText(a), IdText(b));
    }
  }

  /** The six columns the pass groups by are the same. */
  predicate SameGroup(a: Content, b: Content) {
    && a.season == b.season && a.controlledRun == b.controlledRun
    && a.track == b.track && a.cohort == b.cohort && a.category == b.category && a.stratum == b.stratum
  }

  /**
   What it takes, column by column, for the pass to prefer a row: a later publication time, then a later creation
   time, then the greater id; a missing publication time counts as latest in PostgreSQL and as earliest in SQLite.
   */
  predicate Preferred(dialect: Dialect, a: Snapshot, b: Snapshot)
    requires a.content.createdAt.Some? && b.content.createdAt.Some? && a.id.Some? && b.id.Some?
  {
    && (a.publishedAt.Some? && b.publishedAt.Some? ==> b.publishedAt.value <= a.publishedAt.value)
    && (b.publishedAt.None? && dialect.PostgreSQL? ==> a.publishedAt.None?)
    && (a.publishedAt.None? && dialect.SQLite? ==> b.publishedAt.None?)
    && (a.publishedAt == b.publishedAt ==> b.content.createdAt.value <= a.content.createdAt.value)
    && (a.publishedAt == b.publishedAt && a.content.createdAt == b.content.createdAt ==>
          LexLeq(b.id.value, a.id.value))
  }

  lemma NewnessMeans(dialect: Dialect, a: Snapshot, b: Snapshot)
    requires a.content.createdAt.Some? && b.content.createdAt.Some? && a.id.Some? && b.id.Some?
    ensures AtLeastAsNew(dialect, a, b) <==> Preferred(dialect, a, b)
    ensures ScopeOf(a) == ScopeOf(b) <==> SameGroup(a.content, b.content)
  {
  }

  function PublishedRows(rows: seq<Snapshot>): (r: seq<Snapshot>)
    ensures forall s :: s in r <==> s in rows && IsPublished(s)
  {
    if rows == [] then [] else
      var front, last := PublishedRows(rows[..|rows| - 1]), rows[|rows| - 1];
      assert rows == rows[..|rows| - 1] + [last];
      if IsPublished(last) then front + [last] else front
  }

  lemma {:induction false} PublishedDistinct(rows: seq<Snapshot>)
    requires Keyed(rows)
    ensures Distinct(PublishedRows(rows))
  {
    if rows != [] {
      var front, last := rows[..|rows| - 1], rows[|rows| - 1];
      PublishedDistinct(front);
      forall s | s in PublishedRows(front) ensures s != last {
        var i :| 0 <= i < |front| && front[i] == s;
        assert rows[i].id != last.id;
      }
    }
  }

  /** The SELECT: published rows, newest first. */
  function Selected(dialect: Dialect, rows: seq<Snapshot>): seq<Snapshot> {
    SortBy(NewestFirst(dialect), PublishedRows(rows))
  }

  /** The ids of the rows of one scope, in the order given. */
  function IdsIn(selected: seq<Snapshot>, scope: Scope): seq<Text> {
    if selected == [] then [] else
      var front, last := IdsIn(selected[..|selected| - 1], scope), selected[|selected| - 1];
      if ScopeOf(last) == scope then front + [last.id] else front
  }

  /** Row u of the selection follows another of its scope. */
  ghost predicate Follows(selected: seq<Snapshot>, u: nat)
    requires u < |selected|
  {
    exists s :: 0 <= s < u && ScopeOf(selected[s]) == ScopeOf(selected[u])
  }

  lemma {:induction false} IdsInNonempty(selected: seq<Snapshot>, scope: Scope)
    ensures IdsIn(selected, scope) != [] <==> exists s :: 0 <= s < |selected| && ScopeOf(selected[s]) == scope
  {
    if selected != [] {
      var front := selected[..|selected| - 1];
      IdsInNonempty(front, scope);
      assert forall s :: 0 <= s < |front| ==> front[s] == selected[s];
    }
  }

  lemma FollowsNonempty(selected: seq<Snapshot>, scope: Scope)
    requires |selected| > 0 && ScopeOf(selected[|selected| - 1]) == scope
    ensures Follows(selected, |selected| - 1) <==> IdsIn(selected[..|selected| - 1], scope) != []
  {
    hide IdsIn;
    IdsInNonempty(selected[..|selected| - 1], scope);
  }

  lemma TailSnoc(ids: seq<Text>, id: Text)
    ensures (ids + [id])[1..] == if ids == [] then [] else ids[1..] + [id]
  {
  }

  /** Row u of the selection has this scope and id, and follows another of the scope. */
  ghost predicate TailRow(selected: seq<Snapshot>, scope: Scope, id: Text, u: nat)
    requires u < |selected|
  {
    ScopeOf(selected[u]) == scope && selected[u].id == id && Follows(selected, u)
  }

  /** Behind the first id of a scope come exactly the ids of the rows that follow another of that scope. */
  lemma {:induction false} TailIds(selected: seq<Snapshot>, scope: Scope, id: Text)
    ensures |IdsIn(selected, scope)| > 0 && id in IdsIn(selected, scope)[1..] <==>
            exists u :: 0 <= u < |selected| && TailRow(selected, scope, id, u)
  {
    if selected != [] {
      hide ScopeOf, Follows;
      var n := |selected| - 1;
      var front, last := selected[..n], selected[n];
      TailIds(front, scope, id);
      forall u | 0 <= u < n ensures TailRow(front, scope, id, u) <==> TailRow(selected, scope, id, u) {
        FollowsPrefix(selected, n, u);
      }
      var ids := IdsIn(front, scope);
      if ScopeOf(last) == scope {
        FollowsNonempty(selected, scope);
        TailSnoc(ids, last.id);
        assert TailRow(selected, scope, id, n) <==> last.id == id && ids != [];
        assert IdsIn(selected, scope) == ids + [last.id];
      } else {
        assert !TailRow(selected, scope, id, n);
      }
    }
  }

  lemma FollowsPrefix(selected: seq<Snapshot>, n: nat, u: nat)
    requires u < n <= |selected|
    ensures Follows(selected[..n], u) <==> Follows(selected, u)
  {
    var front := selected[..n];
    assert forall s :: 0 <= s < n ==> front[s] == selected[s];
    if Follows(selected, u) {
      var s :| 0 <= s < u && ScopeOf(selected[s]) == ScopeOf(selected[u]);
      assert ScopeOf(front[s]) == ScopeOf(front[u]);
    }
  }

  predicate Supersedes(dialect: Dialect, a: Snapshot, b: Snapshot) {
    IsPublished(a) && a.id != b.id && ScopeOf(a) == ScopeOf(b) && AtLeastAsNew(dialect, a, b)
  }

  /** A published row is superseded when a newer published row has its scope. */
  ghost predicate Superseded(dialect: Dialect, rows: seq<Snapshot>, s: Snapshot) {
    IsPublished(s) && exists j :: 0 <= j < |rows| && Supersedes(dialect, rows[j], s)
  }

  /** The table the pass leaves behind. */
  ghost function Withdrawn(dialect: Dialect, rows: seq<Snapshot>): (r: seq<Snapshot>)
    ensures |r| == |rows|
    ensures forall i :: 0 <= i < |rows| ==>
              r[i] == if Superseded(dialect, rows, rows[i]) then rows[i].(status := Some(WITHDRAWN)) else rows[i]
  {
    seq(|rows|, i requires 0 <= i < |rows| =>
      if Superseded(dialect, rows, rows[i]) then rows[i].(status := Some(WITHDRAWN)) else rows[i])
  }

  lemma SelectedFacts(dialect: Dialect, rows: seq<Snapshot>)
    requires Keyed(rows)
    ensures Distinct(Selected(dialect, rows))
    ensures SortedBy(NewestFirst(dialect), Selected(dialect, rows))
    ensures forall s :: s in Selected(dialect, rows) <==> s in rows && IsPublished(s)
  {
    PublishedDistinct(rows);
    NewestFirstIsTotal(dialect);
    SortSorts(NewestFirst(dialect), PublishedRows(rows));
    SortDistinct(NewestFirst(dialect), PublishedRows(rows));
  }

  lemma SameIdSameRow(rows: seq<Snapshot>, a: Snapshot, b: Snapshot)
    requires Keyed(rows) && a in rows && b in rows && a.id == b.id
    ensures a == b
  {
    var i :| 0 <= i < |rows| && rows[i] == a;
    var j :| 0 <= j < |rows| && rows[j] == b;
  }

  /** Following another row of one's scope in the selection is being superseded. */
  lemma FollowsIsSuperseded(dialect: Dialect, rows: seq<Snapshot>, u: nat)
    requires Keyed(rows) && u < |Selected(dialect, rows)|
    ensures Follows(Selected(dialect, rows), u) <==> Superseded(dialect, rows, Selected(dialect, rows)[u])
  {
    hide Selected, AtLeastAsNew, ColumnsHold, Keyed;
    var selected := Selected(dialect, rows);
    SelectedFacts(dialect, rows);
    var x := selected[u];
    assert x in selected;
    if Follows(selected, u) {
      var s :| 0 <= s < u && ScopeOf(selected[s]) == ScopeOf(x);
      assert selected[s] in selected;
      var j :| 0 <= j < |rows| && rows[j] == selected[s];
      if rows[j].id == x.id {
        SameIdSameRow(rows, rows[j], x);
      }
      assert NewestFirst(dialect)(selected[s], x);
    }
    if Superseded(dialect, rows, x) {
      var j :| 0 <= j < |rows| && Supersedes(dialect, rows[j], x);
      SupersederFirst(dialect, rows, selected, u, rows[j]);
    }
  }

  lemma SupersederFirst(dialect: Dialect, rows: seq<Snapshot>, selected: seq<Snapshot>, u: nat, y: Snapshot)
    requires Keyed(rows) && u < |selected| && SortedBy(NewestFirst(dialect), selected)
    requires forall s :: s in selected <==> s in rows && IsPublished(s)
    requires y in rows && IsPublished(y) && y.id != selected[u].id && ScopeOf(y) == ScopeOf(selected[u])
    requires AtLeastAsNew(dialect, y, selected[u])
    ensures Follows(selected, u)
  {
    hide AtLeastAsNew, ColumnsHold;
    assert y in selected && selected[u] in selected;
    var s :| 0 <= s < |selected| && selected[s] == y;
    if u < s {
      assert NewestFirst(dialect)(selected[u], selected[s]);
      HaveIds(rows, y);
      HaveIds(rows, selected[u]);
      NewnessStrict(dialect, y, selected[u]);
    }
  }

  lemma HaveIds(rows: seq<Snapshot>, s: Snapshot)
    requires Keyed(rows) && s in rows
    ensures s.id.Some?
  {
  }

  /**
   `_withdraw_duplicate_publications`: group the selected rows by scope, then withdraw all but the first of each
   group.
   */
  method WithdrawDuplicates(dialect: Dialect, rows: array<Snapshot>)
    requires Keyed(rows[..])
    modifies rows
    ensures rows[..] == Withdrawn(dialect, old(rows[..]))
  {
    hide Selected, AtLeastAsNew, Superseded, ColumnsHold, IdsIn, Follows, Keyed;
    ghost var before := rows[..];
    var selected := Selected(dialect, rows[..]);
    var grouped: map<Scope, seq<Text>> := map[];
    NothingGrouped();
    for t := 0 to |selected|
      invariant rows[..] == before
      invariant forall scope :: Group(grouped, scope) == IdsIn(selected[..t], scope)
    {
      var scope := ScopeOf(selected[t]);
      GroupStep(selected, t);
      ghost var was := grouped;
      grouped := grouped[scope := Group(grouped, scope) + [selected[t].id]];
      assert forall other ::
        Group(grouped, other) == Group(was, other) + if scope == other then [selected[t].id] else [];
    }
    assert selected[..|selected|] == selected;
    var duplicates := set scope, id | scope in grouped && |grouped[scope]| > 0 && id in grouped[scope][1..] :: id;
    forall i | 0 <= i < |before| && IsPublished(before[i])
      ensures before[i].id in duplicates <==> Superseded(dialect, before, before[i])
    {
      DuplicatesAreSuperseded(dialect, before, selected, grouped, duplicates, i);
    }
    for i := 0 to rows.Length
      invariant forall k :: 0 <= k < i ==> rows[k] == Withdrawn(dialect, before)[k]
      invariant forall k :: i <= k < rows.Length ==> rows[k] == before[k]
    {
      UnpublishedKept(dialect, before, selected, grouped, duplicates, i);
      if rows[i].id in duplicates {
        rows[i] := rows[i].(status := Some(WITHDRAWN));
      }
    }
  }

  lemma NothingGrouped()
    ensures forall scope :: IdsIn([], scope) == []
  {
  }

  /** A default-dict lookup. */
  function Group(grouped: map<Scope, seq<Text>>, scope: Scope): seq<Text> {
    if scope in grouped then grouped[scope] else []
  }

  lemma GroupStep(selected: seq<Snapshot>, t: nat)
    requires t < |selected|
    ensures forall scope :: IdsIn(selected[..t + 1], scope)
              == IdsIn(selected[..t], scope) + if ScopeOf(selected[t]) == scope then [selected[t].id] else []
  {
    assert selected[..t + 1][..t] == selected[..t];
  }

  lemma DuplicateIds(selected: seq<Snapshot>, grouped: map<Scope, seq<Text>>, duplicates: set<Text>, id: Text)
    requires forall scope :: Group(grouped, scope) == IdsIn(selected, scope)
    requires duplicates == set scope, id | scope in grouped && |grouped[scope]| > 0 && id in grouped[scope][1..] :: id
    ensures id in duplicates <==> exists u :: 0 <= u < |selected| && selected[u].id == id && Follows(selected, u)
  {
    hide IdsIn, Follows;
    if id in duplicates {
      var scope :| scope in grouped && |grouped[scope]| > 0 && id in grouped[scope][1..];
      assert Group(grouped, scope) == grouped[scope];
      TailIds(selected, scope, id);
      var u :| 0 <= u < |selected| && TailRow(selected, scope, id, u);
    }
    if exists u :: 0 <= u < |selected| && selected[u].id == id && Follows(selected, u) {
      var u :| 0 <= u < |selected| && selected[u].id == id && Follows(selected, u);
      var scope := ScopeOf(selected[u]);
      assert TailRow(selected, scope, id, u);
      TailIds(selected, scope, id);
      assert Group(grouped, scope) == IdsIn(selected, scope);
      assert scope in grouped;
    }
  }

  lemma DuplicatesAreSuperseded(dialect: Dialect, rows: seq<Snapshot>, selected: seq<Snapshot>,
    grouped: map<Scope, seq<Text>>, duplicates: set<Text>, i: nat)
    requires Keyed(rows) && selected == Selected(dialect, rows) && i < |rows| && IsPublished(rows[i])
    requires forall scope :: Group(grouped, scope) == IdsIn(selected, scope)
    requires duplicates == set scope, id | scope in grouped && |grouped[scope]| > 0 && id in grouped[scope][1..] :: id
    ensures rows[i].id in duplicates <==> Superseded(dialect, rows, rows[i])
  {
    hide Selected, AtLeastAsNew, Superseded, ColumnsHold, IdsIn, Follows, Keyed;
    SelectedFacts(dialect, rows);
    DuplicateIds(selected, grouped, duplicates, rows[i].id);
    assert rows[i] in selected;
    var u :| 0 <= u < |selected| && selected[u] == rows[i];
    FollowsIsSuperseded(dialect, rows, u);
    if rows[i].id in duplicates {
      var v :| 0 <= v < |selected| && selected[v].id == rows[i].id && Follows(selected, v);
      assert selected[v] in selected;
      SameIdSameRow(rows, selected[v], rows[i]);
      FollowsIsSuperseded(dialect, rows, v);
    }
  }

  /** Rows that were not published are not among the duplicates. */
  lemma UnpublishedKept(dialect: Dialect, rows: seq<Snapshot>, selected: seq<Snapshot>,
    grouped: map<Scope, seq<Text>>, duplicates: set<Text>, i: nat)
    requires Keyed(rows) && selected == Selected(dialect, rows) && i < |rows|
    requires forall scope :: Group(grouped, scope) == IdsIn(selected, scope)
    requires duplicates == set scope, id | scope in grouped && |grouped[scope]| > 0 && id in grouped[scope][1..] :: id
    ensures !IsPublished(rows[i]) ==> rows[i].id !in duplicates && !Superseded(dialect, rows, rows[i])
  {
    hide Selected, AtLeastAsNew, ColumnsHold, IdsIn, Follows, Keyed;
    SelectedFacts(dialect, rows);
    DuplicateIds(selected, grouped, duplicates, rows[i].id);
    if rows[i].id in duplicates {
      var v :| 0 <= v < |selected| && selected[v].id == rows[i].id && Follows(selected, v);
      assert selected[v] in selected;
      SameIdSameRow(rows, selected[v], rows[i]);
    }
  }

  // ---- what the pass achieves ----

  /** The newest of some published rows of one scope. */
  lemma {:induction false} NewestExists(dialect: Dialect, rows: seq<Snapshot>, n: nat, i: nat) returns (k: nat)
    requires Keyed(rows) && i < n <= |rows| && IsPublished(rows[i])
    ensures k < n && IsPublished(rows[k]) && ScopeOf(rows[k]) == ScopeOf(rows[i])
    ensures forall j :: 0 <= j < n && IsPublished(rows[j]) && ScopeOf(rows[j]) == ScopeOf(rows[i]) ==>
              AtLeastAsNew(dialect, rows[k], rows[j])
  {
    hide AtLeastAsNew, ScopeOf, Keyed;
    NewestFirstIsTotal(dialect);
    var before := NewestFirst(dialect);
    var last := n - 1;
    if i == last {
      k := last;
      if exists j :: 0 <= j < last && IsPublished(rows[j]) && ScopeOf(rows[j]) == ScopeOf(rows[i]) {
        var j :| 0 <= j < last && IsPublished(rows[j]) && ScopeOf(rows[j]) == ScopeOf(rows[i]);
        k := NewestExists(dialect, rows, last, j);
      }
    } else {
      k := NewestExists(dialect, rows, last, i);
    }
    assert before(rows[last], rows[last]) && (before(rows[k], rows[last]) || before(rows[last], rows[k]));
    if IsPublished(rows[last]) && ScopeOf(rows[last]) == ScopeOf(rows[i]) && !before(rows[k], rows[last]) {
      forall j | 0 <= j < n && IsPublished(rows[j]) && ScopeOf(rows[j]) == ScopeOf(rows[i])
        ensures AtLeastAsNew(dialect, rows[last], rows[j])
      {
        assert j < last ==> before(rows[k], rows[j]);
        assert before(rows[last], rows[j]);
      }
      k := last;
    }
  }

  lemma ColumnsPresent(rows: seq<Snapshot>)
    requires Keyed(rows)
    ensures forall i :: 0 <= i < |rows| ==> rows[i].id.Some? && rows[i].content.createdAt.Some?
    ensures forall i, j :: 0 <= i < |rows| && 0 <= j < |rows| ==> (rows[i].id == rows[j].id <==> i == j)
  {
  }

  /** A published row is withdrawn exactly when another published row of its group is preferred; the rest stays. */
  lemma WithdrawnExact(dialect: Dialect, rows: seq<Snapshot>, i: nat)
    requires Keyed(rows) && i < |rows|
    ensures forall j :: 0 <= j < |rows| ==> rows[j].id.Some? && rows[j].content.createdAt.Some?
    ensures Withdrawn(dialect, rows)[i] ==
            if && rows[i].status == Some("published")
               && exists j :: && 0 <= j < |rows| && j != i && rows[j].status == Some("published")
                              && SameGroup(rows[j].content, rows[i].content) && Preferred(dialect, rows[j], rows[i])
            then rows[i].(status := Some("withdrawn")) else rows[i]
  {
    hide Keyed, AtLeastAsNew, ScopeOf, SameGroup, Preferred;
    ColumnsPresent(rows);
    forall j | 0 <= j < |rows|
      ensures Supersedes(dialect, rows[j], rows[i]) <==>
              && j != i && rows[j].status == Some("published")
              && SameGroup(rows[j].content, rows[i].content) && Preferred(dialect, rows[j], rows[i])
    {
      NewnessMeans(dialect, rows[j], rows[i]);
    }
  }

  /** Row k is what the pass keeps published of the group of row i. */
  ghost predicate Keeps(dialect: Dialect, rows: seq<Snapshot>, i: nat, k: nat)
    requires i < |rows| && k < |rows|
  {
    && IsPublished(Withdrawn(dialect, rows)[k]) && SameGroup(rows[k].content, rows[i].content)
  }

  /** Every group that had a published row keeps exactly one, preferred to all others. */
  lemma OneKeptPerScope(dialect: Dialect, rows: seq<Snapshot>, i: nat) returns (k: nat)
    requires Keyed(rows) && i < |rows| && IsPublished(rows[i])
    ensures forall j :: 0 <= j < |rows| ==> rows[j].id.Some? && rows[j].content.createdAt.Some?
    ensures k < |rows| && Keeps(dialect, rows, i, k) && Withdrawn(dialect, rows)[k] == rows[k]
    ensures forall l :: 0 <= l < |rows| && Keeps(dialect, rows, i, l) ==> l == k
    ensures forall j :: 0 <= j < |rows| && IsPublished(rows[j]) && SameGroup(rows[j].content, rows[i].content) ==>
              Preferred(dialect, rows[k], rows[j])
  {
    hide AtLeastAsNew, ScopeOf, Preferred, SameGroup, Keyed;
    ColumnsPresent(rows);
    k := NewestExists(dialect, rows, |rows|, i);
    if Superseded(dialect, rows, rows[k]) {
      var j :| 0 <= j < |rows| && Supersedes(dialect, rows[j], rows[k]);
      NewnessStrict(dialect, rows[j], rows[k]);
    }
    forall j | 0 <= j < |rows|
      ensures ScopeOf(rows[j]) == ScopeOf(rows[i]) <==> SameGroup(rows[j].content, rows[i].content)
      ensures AtLeastAsNew(dialect, rows[k], rows[j]) <==> Preferred(dialect, rows[k], rows[j])
    {
      NewnessMeans(dialect, rows[j], rows[i]);
      NewnessMeans(dialect, rows[k], rows[j]);
    }
    forall l | 0 <= l < |rows| && Keeps(dialect, rows, i, l) ensures l == k {
      assert IsPublished(rows[l]) && !Superseded(dialect, rows, rows[l]);
      assert AtLeastAsNew(dialect, rows[k], rows[l]);
    }
  }

  /** Two rows still published with one scope are one row. */
  lemma KeptAlone(dialect: Dialect, rows: seq<Snapshot>, i: nat, j: nat)
    requires Keyed(rows) && i < |rows| && j < |rows| && ScopeOf(rows[i]) == ScopeOf(rows[j])
    requires IsPublished(Withdrawn(dialect, rows)[i]) && IsPublished(Withdrawn(dialect, rows)[j])
    ensures i == j
  {
    hide Keyed, Superseded, AtLeastAsNew, ScopeOf;
    ColumnsPresent(rows);
    NewnessMeans(dialect, rows[j], rows[i]);
    var k := OneKeptPerScope(dialect, rows, i);
    assert Keeps(dialect, rows, i, i) && Keeps(dialect, rows, i, j);
  }

  ghost predicate PublicIndexHolds(rows: seq<Snapshot>) {
    forall i, j :: 0 <= i < j < |rows| ==>
      !(IsPublished(rows[i]) && IsPublished(rows[j]) && SamePublicScope(rows[i], rows[j]))
  }

  ghost predicate ControlledIndexHolds(rows: seq<Snapshot>) {
    forall i, j :: 0 <= i < j < |rows| ==>
      !(IsPublished(rows[i]) && IsPublished(rows[j]) && SameControlledScope(rows[i], rows[j]))
  }

  /** The public index can be built afterwards, always. */
  lemma PublicIndexBuildable(dialect: Dialect, rows: seq<Snapshot>)
    requires Keyed(rows)
    ensures PublicIndexHolds(Withdrawn(dialect, rows))
  {
    hide Keyed, Superseded, AtLeastAsNew;
    var r := Withdrawn(dialect, rows);
    forall i, j | 0 <= i < j < |r| ensures !(IsPublished(r[i]) && IsPublished(r[j]) && SamePublicScope(r[i], r[j])) {
      if IsPublished(r[i]) && IsPublished(r[j]) && SamePublicScope(r[i], r[j]) {
        KeptAlone(dialect, rows, i, j);
      }
    }
  }

  /** Published rows of one controlled scope all belong to one season. */
  ghost predicate RunsKeepToASeason(rows: seq<Snapshot>) {
    forall i, j ::
      0 <= i < j < |rows| && IsPublished(rows[i]) && IsPublished(rows[j]) && SameControlledScope(rows[i], rows[j])
      ==> rows[i].content.season == rows[j].content.season
  }

  lemma ControlledBuildable(dialect: Dialect, rows: seq<Snapshot>)
    requires Keyed(rows) && RunsKeepToASeason(rows)
    ensures ControlledIndexHolds(Withdrawn(dialect, rows))
  {
    hide Keyed, Superseded, AtLeastAsNew;
    var r := Withdrawn(dialect, rows);
    forall i, j | 0 <= i < j < |r|
      ensures !(IsPublished(r[i]) && IsPublished(r[j]) && SameControlledScope(r[i], r[j]))
    {
      if IsPublished(r[i]) && IsPublished(r[j]) && SameControlledScope(r[i], r[j]) {
        assert SameControlledScope(rows[i], rows[j]);
        KeptAlone(dialect, rows, i, j);
      }
    }
  }

  lemma ControlledClash(rows: seq<Snapshot>, k: nat, l: nat)
    requires ControlledIndexHolds(rows) && k < |rows| && l < |rows| && IsPublished(rows[k]) && IsPublished(rows[l])
    requires SameControlledScope(rows[k], rows[l]) && SameControlledScope(rows[l], rows[k])
    ensures k == l
  {
  }

  /**
   The controlled index, which has no season column, can be built afterwards exactly if no scope of a run was
   published in two seasons.
   */
  lemma ControlledIndexExact(dialect: Dialect, rows: seq<Snapshot>)
    requires Keyed(rows)
    ensures ControlledIndexHolds(Withdrawn(dialect, rows)) <==> RunsKeepToASeason(rows)
  {
    hide Keyed, Superseded, AtLeastAsNew, ControlledIndexHolds;
    var r := Withdrawn(dialect, rows);
    if RunsKeepToASeason(rows) {
      ControlledBuildable(dialect, rows);
    }
    if ControlledIndexHolds(r) {
      forall i, j | 0 <= i < j < |rows| && IsPublished(rows[i]) && IsPublished(rows[j])
        && SameControlledScope(rows[i], rows[j])
        ensures rows[i].content.season == rows[j].content.season
      {
        var k := OneKeptPerScope(dialect, rows, i);
        var l := OneKeptPerScope(dialect, rows, j);
        KeptClash(rows[i], rows[j], r[k], r[l]);
        ControlledClash(r, k, l);
      }
    }
  }

  lemma KeptClash(a: Snapshot, b: Snapshot, x: Snapshot, y: Snapshot)
    requires SameControlledScope(a, b) && ScopeOf(x) == ScopeOf(a) && ScopeOf(y) == ScopeOf(b)
    ensures SameControlledScope(x, y) && SameControlledScope(y, x)
  {
  }

  /**
   After the pass the primary key and both indexes hold on the same condition; once every row has its evidence
   cutoff, the rows are those the guarded table starts from.
   */
  lemma PassReadiesTable(dialect: Dialect, rows: seq<Snapshot>)
    requires Keyed(rows)
    ensures IndexesHold(Withdrawn(dialect, rows)) <==> RunsKeepToASeason(rows)
    ensures Stored(Withdrawn(dialect, rows)) <==> forall i :: 0 <= i < |rows| ==> rows[i].content.cutoff.Some?
  {
    hide Superseded, AtLeastAsNew;
    var r := Withdrawn(dialect, rows);
    PublicIndexBuildable(dialect, rows);
    ControlledIndexExact(dialect, rows);
    forall i, j | 0 <= i < j < |r| ensures Equals(r[i].id, r[j].id) != True {
      assert rows[i].id != rows[j].id;
    }
    if IndexesHold(r) {
      forall i, j | 0 <= i < j < |r|
        ensures !(IsPublished(r[i]) && IsPublished(r[j]) && SameControlledScope(r[i], r[j]))
      {
        assert !Conflict(r[i], r[j]);
      }
    }
    assert forall i :: 0 <= i < |rows| ==> r[i].content == rows[i].content;
  }

  /** A published snapshot of a controlled run, in one of two seasons. */
  function InSeason(id: string, season: string): Snapshot {
    var content := Content(
      Some(season), Some("track"), Some("cohort"), Some("category"), Some("stratum"), Some("run"), Some("input"),
      None, None, None, Some("payload"), None, None, Some(0));
    Snapshot(Some(id), content, Some(PUBLISHED), None, Some(0))
  }

  /** One run published in two seasons: the pass keeps both rows, and the controlled index cannot be built. */
  lemma TwoSeasonsClash(dialect: Dialect)
    ensures var rows := [InSeason("a", "first"), InSeason("b", "second")];
            Keyed(rows) && Withdrawn(dialect, rows) == rows && !ControlledIndexHolds(Withdrawn(dialect, rows))
  {
    hide AtLeastAsNew;
    var rows := [InSeason("a", "first"), InSeason("b", "second")];
    assert "first"[0] != "second"[0] && "a"[0] != "b"[0];
    assert ScopeOf(rows[0]) != ScopeOf(rows[1]);
    assert Withdrawn(dialect, rows) == rows;
    assert SameControlledScope(rows[0], rows[1]);
  }
}
