/**
 The leaderboard_snapshots table as mutable state under its guards, constraints and partial unique indexes,
 and what holds over every run of statements (alembic/versions/0012_snapshot_publication_integrity.py,
 alembic/versions/0013_snapshot_evidence_seal.py). A row is known by its position: rows are only appended.
 A statement that names no row changes nothing and counts as not accepted.
 */
module SnapshotTable {
  import opened Outcomes
  import opened SqlLogic
  import opened SnapshotGuards

  datatype Statement = Insert(row: Snapshot) | Update(target: nat, row: Snapshot) | Delete(target: nat)

  predicate IsPublished(s: Snapshot) {
    s.status == Some(PUBLISHED)
  }

  /** Equal keys of the public index, which covers published rows without a controlled run. */
  predicate SamePublicScope(a: Snapshot, b: Snapshot) {
    && a.content.controlledRun.None? && b.content.controlledRun.None?
    && Equals(a.content.season, b.content.season) == True
    && SameBoard(a, b)
  }

  /** Equal keys of the controlled index, which leaves the season out. */
  predicate SameControlledScope(a: Snapshot, b: Snapshot) {
    Equals(a.content.controlledRun, b.content.controlledRun) == True && SameBoard(a, b)
  }

  predicate SameBoard(a: Snapshot, b: Snapshot) {
    && Equals(a.content.track, b.content.track) == True
    && Equals(a.content.cohort, b.content.cohort) == True
    && Equals(a.content.category, b.content.category) == True
    && Equals(a.content.stratum, b.content.stratum) == True
  }

  /** Two rows the primary key or a partial unique index will not admit together. */
  predicate Conflict(a: Snapshot, b: Snapshot) {
    || Equals(a.id, b.id) == True
    || (IsPublished(a) && IsPublished(b) && (SamePublicScope(a, b) || SameControlledScope(a, b)))
  }

  ghost predicate IndexesHold(rows: seq<Snapshot>) {
    forall i, j :: 0 <= i < j < |rows| ==> !Conflict(rows[i], rows[j])
  }

  /** Some row has this id. */
  ghost predicate HasId(rows: seq<Snapshot>, id: string) {
    exists j :: 0 <= j < |rows| && rows[j].id == Some(id)
  }

  /** The self reference: what a row supersedes is in the table. Both dialects check it when the statement ends. */
  ghost predicate ReferencesHold(rows: seq<Snapshot>) {
    forall i :: 0 <= i < |rows| && rows[i].content.supersedes.Some? ==> HasId(rows, rows[i].content.supersedes.value)
  }

  /** What a table must satisfy once a statement has ended. */
  ghost predicate TableHolds(rows: seq<Snapshot>) {
    IndexesHold(rows) && ReferencesHold(rows)
  }

  /** The new row fits beside every other row. */
  ghost predicate Fits(rows: seq<Snapshot>, n: Snapshot, except: int) {
    forall i :: 0 <= i < |rows| && i != except ==> !Conflict(rows[i], n)
  }

  ghost predicate Accepts(dialect: Dialect, rows: seq<Snapshot>, s: Statement) {
    match s
    case Insert(n) => !InsertRaises(dialect, n) && ConstraintsHold(dialect, n) && TableHolds(rows + [n])
    case Update(t, n) =>
      t < |rows| && !UpdateRaises(dialect, rows[t], n) && ConstraintsHold(dialect, n) && TableHolds(rows[t := n])
    case Delete(_) => false
  }

  /** The table after a statement; a rejected one changes nothing. */
  ghost function Apply(dialect: Dialect, rows: seq<Snapshot>, s: Statement): seq<Snapshot> {
    if !Accepts(dialect, rows, s) then rows
    else match s
      case Insert(n) => rows + [n]
      case Update(t, n) => rows[t := n]
      case Delete(_) => rows
  }

  ghost function Run(dialect: Dialect, rows: seq<Snapshot>, statements: seq<Statement>): seq<Snapshot> {
    if statements == [] then rows
    else Apply(dialect, Run(dialect, rows, statements[..|statements| - 1]), statements[|statements| - 1])
  }

  lemma ConflictSymmetric(a: Snapshot, b: Snapshot)
    ensures Conflict(a, b) == Conflict(b, a)
  {
  }

  lemma InsertKeepsIndexes(rows: seq<Snapshot>, n: Snapshot)
    requires IndexesHold(rows)
    ensures IndexesHold(rows + [n]) <==> Fits(rows, n, -1)
  {
    hide Conflict;
    var all := rows + [n];
    if IndexesHold(all) {
      forall i | 0 <= i < |rows| ensures !Conflict(rows[i], n) {
        assert !Conflict(all[i], all[|rows|]);
      }
    }
  }

  lemma UpdateKeepsIndexes(rows: seq<Snapshot>, t: nat, n: Snapshot)
    requires IndexesHold(rows) && t < |rows|
    ensures IndexesHold(rows[t := n]) <==> Fits(rows, n, t)
  {
    hide Conflict;
    var all := rows[t := n];
    forall i | 0 <= i < |rows| ensures Conflict(rows[i], n) == Conflict(n, rows[i]) {
      ConflictSymmetric(rows[i], n);
    }
    if IndexesHold(all) {
      forall i | 0 <= i < |rows| && i != t ensures !Conflict(rows[i], n) {
        assert i < t ==> !Conflict(all[i], all[t]);
        assert t < i ==> !Conflict(all[t], all[i]);
      }
    }
  }

  class Table {
    const dialect: Dialect
    var rows: seq<Snapshot>

    ghost predicate Valid()
      reads this
    {
      TableHolds(rows)
    }

    constructor (dialect: Dialect)
      ensures Valid() && this.dialect == dialect && rows == []
    {
      this.dialect := dialect;
      rows := [];
    }

    /** The uniqueness probe an index makes before it admits a row. */
    method Probe(n: Snapshot, except: int) returns (ok: bool)
      ensures ok <==> Fits(rows, n, except)
    {
      hide Conflict;
      for i := 0 to |rows|
        invariant forall k :: 0 <= k < i && k != except ==> !Conflict(rows[k], n)
      {
        if i != except && Conflict(rows[i], n) {
          return false;
        }
      }
      return true;
    }

    /** The reference check at the end of a statement. */
    static method CheckReferences(rows: seq<Snapshot>) returns (ok: bool)
      ensures ok <==> ReferencesHold(rows)
    {
      for i := 0 to |rows|
        invariant forall k :: 0 <= k < i && rows[k].content.supersedes.Some? ==>
                    HasId(rows, rows[k].content.supersedes.value)
      {
        if rows[i].content.supersedes.Some? {
          ok := FindId(rows, rows[i].content.supersedes.value);
          if !ok {
            return;
          }
        }
      }
      return true;
    }

    static method FindId(rows: seq<Snapshot>, id: string) returns (found: bool)
      ensures found <==> HasId(rows, id)
    {
      for i := 0 to |rows|
        invariant forall k :: 0 <= k < i ==> rows[k].id != Some(id)
      {
        if rows[i].id == Some(id) {
          return true;
        }
      }
      return false;
    }

    method Insert(n: Snapshot) returns (ok: bool)
      requires Valid()
      modifies this
      ensures Valid()
      ensures ok <==> Accepts(dialect, old(rows), Statement.Insert(n))
      ensures rows == Apply(dialect, old(rows), Statement.Insert(n))
      ensures rows == if ok then old(rows) + [n] else old(rows)
    {
      hide InsertRaises, ConstraintsHold, Conflict, ReferencesHold;
      if InsertRaises(dialect, n) || !ConstraintsHold(dialect, n) {
        return false;
      }
      InsertKeepsIndexes(rows, n);
      ok := Probe(n, -1);
      if ok {
        ok := CheckReferences(rows + [n]);
        if ok {
          rows := rows + [n];
        }
      }
    }

    method Update(t: nat, n: Snapshot) returns (ok: bool)
      requires Valid()
      modifies this
      ensures Valid()
      ensures ok <==> Accepts(dialect, old(rows), Statement.Update(t, n))
      ensures rows == Apply(dialect, old(rows), Statement.Update(t, n))
      ensures ok ==> t < |old(rows)| && rows == old(rows)[t := n]
      ensures !ok ==> rows == old(rows)
    {
      hide UpdateRaises, ConstraintsHold, Conflict, ReferencesHold;
      if t >= |rows| || UpdateRaises(dialect, rows[t], n) || !ConstraintsHold(dialect, n) {
        return false;
      }
      UpdateKeepsIndexes(rows, t, n);
      ok := Probe(n, t);
      if ok {
        ok := CheckReferences(rows[t := n]);
        if ok {
          rows := rows[t := n];
        }
      }
    }

    /** The delete trigger raises whatever the row. */
    method Delete(t: nat) returns (ok: bool)
      requires Valid()
      ensures !ok && !Accepts(dialect, rows, Statement.Delete(t))
      ensures Apply(dialect, rows, Statement.Delete(t)) == rows
    {
      return false;
    }
  }

  // ---- which statements pass ----

  /** One board: the same run, or the same season where there is no run. */
  predicate SharesScope(a: Content, b: Content) {
    && a.track == b.track && a.cohort == b.cohort && a.category == b.category && a.stratum == b.stratum
    && a.controlledRun == b.controlledRun && (a.controlledRun.None? ==> a.season == b.season)
  }

  /** No row but the t-th is published in the scope of this one. */
  ghost predicate AloneInScope(rows: seq<Snapshot>, t: nat, n: Snapshot) {
    forall i :: 0 <= i < |rows| && i != t && rows[i].status == Some(PUBLISHED) ==>
      !SharesScope(rows[i].content, n.content)
  }

  lemma ConflictMeans(a: Snapshot, b: Snapshot)
    requires ColumnsHold(a) && ColumnsHold(b)
    ensures Conflict(a, b) <==>
            || a.id == b.id
            || (a.status == Some(PUBLISHED) && b.status == Some(PUBLISHED) && SharesScope(a.content, b.content))
  {
  }

  /** Once its id is changed, a row's old id names nothing. */
  lemma OldIdGone(rows: seq<Snapshot>, t: nat, n: Snapshot)
    requires t < |rows| && IndexesHold(rows) && rows[t].id.Some? && rows[t].id != n.id
    ensures !HasId(rows[t := n], rows[t].id.value)
  {
    var all := rows[t := n];
    forall j | 0 <= j < |all| ensures all[j].id != rows[t].id {
      if j != t && rows[j].id == rows[t].id {
        UniqueId(rows, j, t);
      }
    }
  }

  lemma UniqueId(rows: seq<Snapshot>, i: nat, t: nat)
    requires IndexesHold(rows) && i < |rows| && t < |rows| && rows[i].id == rows[t].id && rows[t].id.Some?
    ensures i == t
  {
  }

  /** References survive an update that keeps the content exactly if it keeps the id or nothing refers to the row. */
  lemma UpdateReferences(rows: seq<Snapshot>, t: nat, n: Snapshot)
    requires t < |rows| && TableHolds(rows) && rows[t].id.Some? && n.content == rows[t].content
    ensures ReferencesHold(rows[t := n]) <==>
            n.id == rows[t].id || forall i :: 0 <= i < |rows| ==> rows[i].content.supersedes != rows[t].id
  {
    hide IndexesHold;
    var all := rows[t := n];
    if n.id != rows[t].id {
      OldIdGone(rows, t, n);
    }
    forall i | 0 <= i < |rows| && rows[i].content.supersedes.Some?
      && (n.id == rows[t].id || rows[i].content.supersedes != rows[t].id)
      ensures HasId(all, rows[i].content.supersedes.value)
    {
      var j :| 0 <= j < |rows| && rows[j].id == rows[i].content.supersedes;
      assert all[j].id == rows[i].content.supersedes;
    }
    forall i | 0 <= i < |rows| ensures all[i].content == rows[i].content {
    }
  }

  lemma HasIdSnoc(rows: seq<Snapshot>, n: Snapshot, id: string)
    ensures HasId(rows + [n], id) <==> HasId(rows, id) || n.id == Some(id)
  {
    var all := rows + [n];
    assert all[|rows|] == n;
    if HasId(rows, id) {
      var j :| 0 <= j < |rows| && rows[j].id == Some(id);
      assert all[j].id == Some(id);
    }
  }

  lemma InsertReferences(rows: seq<Snapshot>, n: Snapshot)
    requires ReferencesHold(rows)
    ensures ReferencesHold(rows + [n]) <==>
            (n.content.supersedes.Some? ==> n.content.supersedes == n.id || HasId(rows, n.content.supersedes.value))
  {
    hide HasId;
    var all := rows + [n];
    assert all[|rows|] == n;
    forall i | 0 <= i < |all| && all[i].content.supersedes.Some?
      ensures HasId(all, all[i].content.supersedes.value) <==>
              HasId(rows, all[i].content.supersedes.value) || n.id == all[i].content.supersedes
    {
      HasIdSnoc(rows, n, all[i].content.supersedes.value);
    }
    forall i | 0 <= i < |rows| ensures all[i] == rows[i] {
    }
  }

  /** An insert passes exactly for a sealed draft with a new id that supersedes nothing, itself or a row there. */
  lemma InsertExact(dialect: Dialect, rows: seq<Snapshot>, n: Snapshot)
    requires Stored(rows) && TableHolds(rows)
    ensures Accepts(dialect, rows, Insert(n)) <==>
            && n.id.Some? && n.content.season.Some? && n.content.track.Some? && n.content.cohort.Some?
            && n.content.category.Some? && n.content.stratum.Some? && n.content.payloadJson.Some?
            && n.content.createdAt.Some? && n.content.cutoff.Some? && Sealed(n.content)
            && n.status == Some("draft") && n.referenceSha.None? && n.publishedAt.None?
            && (forall i :: 0 <= i < |rows| ==> rows[i].id != n.id)
            && (n.content.supersedes.Some? ==>
                  n.content.supersedes == n.id || HasId(rows, n.content.supersedes.value))
  {
    hide InsertRaises, WellFormedDigest, Conflict, ReferencesHold, HasId;
    if ColumnsHold(n) {
      InsertMeans(dialect, n);
      InsertKeepsIndexes(rows, n);
      InsertReferences(rows, n);
      forall i | 0 <= i < |rows| && n.status == Some(DRAFT) ensures Conflict(rows[i], n) <==> rows[i].id == n.id {
        ConflictMeans(rows[i], n);
      }
    }
  }

  /**
   An update passes exactly when it keeps the content, moves the status forward, publishes properly and alone in the
   scope, and leaves ids unique and references whole; PostgreSQL also wants the id kept.
   */
  lemma UpdateExact(dialect: Dialect, rows: seq<Snapshot>, t: nat, n: Snapshot)
    requires Stored(rows) && TableHolds(rows) && t < |rows|
    ensures Accepts(dialect, rows, Update(t, n)) <==>
            && n.id.Some? && n.content == rows[t].content
            && MovesOn(rows[t].status, n.status)
            && (if rows[t].status == Some("draft") && n.status == Some("published")
                then PublishedProperly(n) && Sealed(n.content)
                else n.referenceSha == rows[t].referenceSha && n.publishedAt == rows[t].publishedAt)
            && (n.status == Some(PUBLISHED) ==> AloneInScope(rows, t, n))
            && (n.id == rows[t].id || (
                  && dialect.SQLite?
                  && (forall i :: 0 <= i < |rows| ==> rows[i].id != n.id)
                  && (forall i :: 0 <= i < |rows| ==> rows[i].content.supersedes != rows[t].id)))
  {
    hide UpdateRaises, Sealed, PublishedProperly, Conflict, SharesScope;
    if ColumnsHold(n) {
      UpdateMeans(dialect, rows[t], n);
      UpdateKeepsIndexes(rows, t, n);
      if n.content == rows[t].content {
        UpdateReferences(rows, t, n);
        FitsMeans(rows, n, t);
      }
    }
  }

  /** The status stays, or goes from draft to published or withdrawn, or from published to withdrawn. */
  predicate MovesOn(a: Text, b: Text) {
    || b == a
    || (a == Some("draft") && (b == Some("published") || b == Some("withdrawn")))
    || (a == Some("published") && b == Some("withdrawn"))
  }

  lemma FitsMeans(rows: seq<Snapshot>, n: Snapshot, t: nat)
    requires Stored(rows) && IndexesHold(rows) && t < |rows| && ColumnsHold(n)
    ensures Fits(rows, n, t) <==>
            && (n.status == Some(PUBLISHED) ==> AloneInScope(rows, t, n))
            && (n.id == rows[t].id || forall i :: 0 <= i < |rows| ==> rows[i].id != n.id)
  {
    hide ColumnsHold, SharesScope, Conflict;
    forall i | 0 <= i < |rows| && i != t
      ensures Conflict(rows[i], n) <==>
              || rows[i].id == n.id
              || (rows[i].status == Some(PUBLISHED) && n.status == Some(PUBLISHED)
                  && SharesScope(rows[i].content, n.content))
    {
      ConflictMeans(rows[i], n);
    }
    if n.id == rows[t].id {
      forall i | 0 <= i < |rows| && i != t ensures rows[i].id != n.id {
        IdsPresent(rows, t);
        if rows[i].id == n.id {
          UniqueId(rows, i, t);
        }
      }
    }
  }

  lemma IdsPresent(rows: seq<Snapshot>, t: nat)
    requires Stored(rows) && t < |rows|
    ensures rows[t].id.Some?
  {
  }

  /** From nothing: a sealed draft is inserted, published and withdrawn, in either dialect. */
  lemma Lifecycle(dialect: Dialect, id: string, content: Content, sha: string, at: int)
    requires var d := Snapshot(Some(id), content, Some("draft"), None, None);
             ColumnsHold(d) && content.cutoff.Some? && Sealed(content) && content.supersedes.None?
    requires WellFormedDigest(sha)
    ensures var draft := Snapshot(Some(id), content, Some("draft"), None, None);
            var published := Snapshot(Some(id), content, Some("published"), Some(sha), Some(at));
            var withdrawn := Snapshot(Some(id), content, Some("withdrawn"), Some(sha), Some(at));
            && Apply(dialect, [], Insert(draft)) == [draft]
            && Apply(dialect, [draft], Update(0, published)) == [published]
            && Apply(dialect, [published], Update(0, withdrawn)) == [withdrawn]
            && Run(dialect, [], [Insert(draft), Update(0, published), Update(0, withdrawn)]) == [withdrawn]
  {
    hide Sealed, Accepts;
    var draft := Snapshot(Some(id), content, Some("draft"), None, None);
    var published := Snapshot(Some(id), content, Some("published"), Some(sha), Some(at));
    var withdrawn := Snapshot(Some(id), content, Some("withdrawn"), Some(sha), Some(at));
    InsertExact(dialect, [], draft);
    UpdateExact(dialect, [draft], 0, published);
    UpdateExact(dialect, [published], 0, withdrawn);
    ThreeSteps(dialect, Insert(draft), Update(0, published), Update(0, withdrawn));
  }

  lemma RunSnoc(dialect: Dialect, rows: seq<Snapshot>, statements: seq<Statement>, s: Statement)
    ensures Run(dialect, rows, statements + [s]) == Apply(dialect, Run(dialect, rows, statements), s)
  {
    assert (statements + [s])[..|statements|] == statements;
  }

  lemma ThreeSteps(dialect: Dialect, a: Statement, b: Statement, c: Statement)
    ensures Run(dialect, [], [a, b, c]) == Apply(dialect, Apply(dialect, Apply(dialect, [], a), b), c)
  {
    hide Apply;
    RunSnoc(dialect, [], [], a);
    RunSnoc(dialect, [], [a], b);
    RunSnoc(dialect, [], [a, b], c);
    assert [] + [a] == [a] && [a] + [b] == [a, b] && [a, b] + [c] == [a, b, c];
  }

  // ---- every run ----

  /** What the constraints and the cutoff backfill leave true of stored rows. */
  ghost predicate Stored(rows: seq<Snapshot>) {
    forall i :: 0 <= i < |rows| ==> ColumnsHold(rows[i]) && rows[i].content.cutoff.Some?
  }

  /** No row disappears; content is fixed; status only moves forward; metadata is fixed once a row leaves draft. */
  ghost predicate RowLater(a: Snapshot, b: Snapshot)
    requires a.status.Some? && b.status.Some?
  {
    && b.content == a.content
    && Forward(a.status.value, b.status.value)
    && (a.status != Some(DRAFT) ==> b.referenceSha == a.referenceSha && b.publishedAt == a.publishedAt)
  }

  ghost predicate Later(before: seq<Snapshot>, after: seq<Snapshot>)
    requires Stored(before) && Stored(after)
  {
    |before| <= |after| && forall i :: 0 <= i < |before| ==> RowLater(before[i], after[i])
  }

  lemma InsertStep(dialect: Dialect, rows: seq<Snapshot>, n: Snapshot)
    requires Stored(rows) && Accepts(dialect, rows, Insert(n))
    ensures ColumnsHold(n) && n.content.cutoff.Some? && n.status == Some(DRAFT)
    ensures n.referenceSha.None? && n.publishedAt.None? && Sealed(n.content)
  {
    hide InsertRaises, Sealed, Conflict;
    InsertMeans(dialect, n);
  }

  lemma UpdateStep(dialect: Dialect, rows: seq<Snapshot>, t: nat, n: Snapshot)
    requires Stored(rows) && Accepts(dialect, rows, Update(t, n))
    ensures ColumnsHold(n) && n.content.cutoff.Some? && RowLater(rows[t], n)
    ensures if rows[t].status == Some(DRAFT) && n.status == Some(PUBLISHED)
            then PublishedProperly(n) && Sealed(n.content)
            else n.referenceSha == rows[t].referenceSha && n.publishedAt == rows[t].publishedAt
  {
    hide UpdateRaises, Sealed, PublishedProperly, Conflict;
    UpdateMeans(dialect, rows[t], n);
  }

  lemma StepIsLater(dialect: Dialect, rows: seq<Snapshot>, s: Statement)
    requires Stored(rows)
    ensures Stored(Apply(dialect, rows, s)) && Later(rows, Apply(dialect, rows, s))
  {
    hide Accepts, ColumnsHold;
    match s
    case Insert(n) =>
      if Accepts(dialect, rows, s) {
        InsertStep(dialect, rows, n);
      }
      RowsLaterThemselves(rows);
    case Update(t, n) =>
      RowsLaterThemselves(rows);
      if Accepts(dialect, rows, s) {
        UpdateInRange(dialect, rows, t, n);
        UpdateStep(dialect, rows, t, n);
      }
    case Delete(_) =>
      RowsLaterThemselves(rows);
  }

  lemma UpdateInRange(dialect: Dialect, rows: seq<Snapshot>, t: nat, n: Snapshot)
    requires Accepts(dialect, rows, Update(t, n))
    ensures t < |rows|
  {
  }

  lemma RowsLaterThemselves(rows: seq<Snapshot>)
    requires Stored(rows)
    ensures forall i :: 0 <= i < |rows| ==> rows[i].status.Some? && RowLater(rows[i], rows[i])
  {
  }

  lemma LaterTransitive(a: seq<Snapshot>, b: seq<Snapshot>, c: seq<Snapshot>)
    requires Stored(a) && Stored(b) && Stored(c) && Later(a, b) && Later(b, c)
    ensures Later(a, c)
  {
    forall i | 0 <= i < |a| ensures RowLater(a[i], c[i]) {
      assert RowLater(a[i], b[i]) && RowLater(b[i], c[i]);
      assert b[i].status.value in {DRAFT, PUBLISHED, WITHDRAWN};
    }
  }

  /** Over every run, from any stored table: nothing disappears, nothing sealed changes, nothing moves backward. */
  lemma {:induction false} RunIsLater(dialect: Dialect, rows: seq<Snapshot>, statements: seq<Statement>)
    requires Stored(rows)
    ensures Stored(Run(dialect, rows, statements)) && Later(rows, Run(dialect, rows, statements))
  {
    if statements == [] {
      RowsLaterThemselves(rows);
    } else {
      hide Apply, Stored, Later;
      var front := statements[..|statements| - 1];
      var middle := Run(dialect, rows, front);
      RunIsLater(dialect, rows, front);
      StepIsLater(dialect, middle, statements[|statements| - 1]);
      LaterTransitive(rows, middle, Run(dialect, rows, statements));
    }
  }

  /** A row that came in through the guards: sealed, and with publication metadata exactly as its status allows. */
  predicate RowSound(s: Snapshot) {
    && ColumnsHold(s) && s.content.cutoff.Some? && Sealed(s.content)
    && (s.status == Some(DRAFT) ==> s.referenceSha.None? && s.publishedAt.None?)
    && (s.status == Some(PUBLISHED) ==> PublishedProperly(s))
    && (PublishedProperly(s) || (s.referenceSha.None? && s.publishedAt.None?))
  }

  ghost predicate Sound(rows: seq<Snapshot>) {
    TableHolds(rows) && forall i :: 0 <= i < |rows| ==> RowSound(rows[i])
  }

  lemma UpdateSound(dialect: Dialect, rows: seq<Snapshot>, t: nat, n: Snapshot)
    requires Sound(rows) && Accepts(dialect, rows, Update(t, n))
    ensures RowSound(n)
  {
    hide UpdateRaises, Sealed, WellFormedDigest, Conflict;
    assert RowSound(rows[t]);
    UpdateStep(dialect, rows, t, n);
  }

  lemma StepSound(dialect: Dialect, rows: seq<Snapshot>, s: Statement)
    requires Sound(rows)
    ensures Sound(Apply(dialect, rows, s))
  {
    hide InsertRaises, UpdateRaises, Sealed, WellFormedDigest, Conflict, ColumnsHold;
    if Accepts(dialect, rows, s) {
      match s
      case Insert(n) => InsertStep(dialect, rows, n);
      case Update(t, n) => UpdateSound(dialect, rows, t, n);
      case Delete(_) =>
    }
  }

  /** Over every run of a sound table, the empty one included: it stays sound, with one published row per scope. */
  lemma {:induction false} RunSound(dialect: Dialect, rows: seq<Snapshot>, statements: seq<Statement>)
    requires Sound(rows)
    ensures Sound(Run(dialect, rows, statements))
    ensures var r := Run(dialect, rows, statements);
            forall i, j :: 0 <= i < j < |r| && r[i].status == Some("published") && r[j].status == Some("published") ==>
              !SharesScope(r[i].content, r[j].content)
    ensures forall i :: 0 <= i < |Run(dialect, rows, statements)| ==> RowSound(Run(dialect, rows, statements)[i])
  {
    if statements == [] {
      SoundMeansOne(rows);
    } else {
      hide Apply, Sound, SharesScope, RowSound;
      var front := statements[..|statements| - 1];
      RunSound(dialect, rows, front);
      StepSound(dialect, Run(dialect, rows, front), statements[|statements| - 1]);
      SoundMeansOne(Run(dialect, rows, statements));
    }
  }

  lemma SoundMeansOne(rows: seq<Snapshot>)
    requires Sound(rows)
    ensures forall i, j ::
              0 <= i < j < |rows| && rows[i].status == Some("published") && rows[j].status == Some("published") ==>
              !SharesScope(rows[i].content, rows[j].content)
    ensures forall i :: 0 <= i < |rows| ==> RowSound(rows[i])
  {
    hide SharesScope, Conflict, Sealed, PublishedProperly;
    forall i, j | 0 <= i < j < |rows| && rows[i].status == Some("published") && rows[j].status == Some("published")
      ensures !SharesScope(rows[i].content, rows[j].content)
    {
      assert RowSound(rows[i]) && RowSound(rows[j]);
      assert !Conflict(rows[i], rows[j]);
      ConflictMeans(rows[i], rows[j]);
    }
  }

  // ---- the id column ----

  /** The accepted updates of a run leave the id column alone. */
  ghost predicate LeaveIds(dialect: Dialect, rows: seq<Snapshot>, statements: seq<Statement>) {
    forall k :: 0 <= k < |statements| ==> LeavesId(dialect, Run(dialect, rows, statements[..k]), statements[k])
  }

  ghost predicate LeavesId(dialect: Dialect, rows: seq<Snapshot>, s: Statement) {
    Accepts(dialect, rows, s) && s.Update? ==> s.target < |rows| && s.row.id == rows[s.target].id
  }

  lemma LeaveIdsSnoc(dialect: Dialect, rows: seq<Snapshot>, statements: seq<Statement>)
    requires statements != []
    ensures var k := |statements| - 1;
            LeaveIds(dialect, rows, statements) <==>
            && LeaveIds(dialect, rows, statements[..k])
            && LeavesId(dialect, Run(dialect, rows, statements[..k]), statements[k])
  {
    hide Run, LeavesId;
    var k := |statements| - 1;
    var front := statements[..k];
    forall j | 0 <= j < k ensures front[j] == statements[j] && front[..j] == statements[..j] {
    }
    if LeaveIds(dialect, rows, statements) {
      forall j | 0 <= j < k ensures LeavesId(dialect, Run(dialect, rows, front[..j]), front[j]) {
        assert LeavesId(dialect, Run(dialect, rows, statements[..j]), statements[j]);
      }
    }
  }

  lemma RunLast(dialect: Dialect, rows: seq<Snapshot>, statements: seq<Statement>)
    requires statements != []
    ensures var k := |statements| - 1;
            Run(dialect, rows, statements) == Apply(dialect, Run(dialect, rows, statements[..k]), statements[k])
  {
  }

  lemma StepKeepsIds(dialect: Dialect, rows: seq<Snapshot>, s: Statement)
    requires LeavesId(dialect, rows, s)
    ensures |rows| <= |Apply(dialect, rows, s)|
    ensures forall i :: 0 <= i < |rows| ==> Apply(dialect, rows, s)[i].id == rows[i].id
  {
    hide Conflict, InsertRaises, UpdateRaises, ConstraintsHold;
  }

  /** Then a row's id names the same row for ever. */
  lemma {:induction false} IdsStay(dialect: Dialect, rows: seq<Snapshot>, statements: seq<Statement>)
    requires LeaveIds(dialect, rows, statements)
    ensures |rows| <= |Run(dialect, rows, statements)|
    ensures forall i :: 0 <= i < |rows| ==> Run(dialect, rows, statements)[i].id == rows[i].id
  {
    if statements != [] {
      hide *;
      var k := |statements| - 1;
      var front := statements[..k];
      LeaveIdsSnoc(dialect, rows, statements);
      RunLast(dialect, rows, statements);
      IdsStay(dialect, rows, front);
      StepKeepsIds(dialect, Run(dialect, rows, front), statements[k]);
    }
  }

  /** PostgreSQL's whole-row guard makes every run leave the ids alone. */
  lemma {:induction false} PostgresLeavesIds(rows: seq<Snapshot>, statements: seq<Statement>)
    requires Stored(rows)
    ensures LeaveIds(PostgreSQL, rows, statements)
  {
    if statements != [] {
      hide *;
      var front := statements[..|statements| - 1];
      LeaveIdsSnoc(PostgreSQL, rows, statements);
      RunIsLater(PostgreSQL, rows, front);
      PostgresLeavesIds(rows, front);
      PostgresLeavesId(Run(PostgreSQL, rows, front), statements[|statements| - 1]);
    }
  }

  lemma PostgresLeavesId(rows: seq<Snapshot>, s: Statement)
    requires Stored(rows)
    ensures LeavesId(PostgreSQL, rows, s)
  {
    hide Conflict, InsertRaises, UpdateRaises, ConstraintsHold;
    if s.Update? && s.target < |rows| {
      UpdatesAgree(rows[s.target], s.row);
    }
  }

  /** The row under another id. */
  function Renamed(o: Snapshot, id: string): Snapshot {
    o.(id := Some(id))
  }

  /**
   SQLite has no such guard: it lets a row be renamed exactly when the new id is free and no row supersedes this
   one.
   */
  lemma RenameExact(rows: seq<Snapshot>, t: nat, id: string)
    requires Stored(rows) && TableHolds(rows) && t < |rows|
    ensures Accepts(SQLite, rows, Update(t, Renamed(rows[t], id))) <==>
            || rows[t].id == Some(id)
            || (forall i :: 0 <= i < |rows| ==> rows[i].id != Some(id) && rows[i].content.supersedes != rows[t].id)
  {
    hide *;
    var n := Renamed(rows[t], id);
    RenamedMeans(rows, t, id);
    UpdateExact(SQLite, rows, t, n);
    StaysAlone(rows, t, n);
  }

  lemma RenamedMeans(rows: seq<Snapshot>, t: nat, id: string)
    requires Stored(rows) && t < |rows|
    ensures var o, n := rows[t], Renamed(rows[t], id);
            ColumnsHold(n) && n == o.(id := Some(id)) && o.id.Some? && o.status.Some?
            && MovesOn(o.status, n.status) && !(o.status == Some(DRAFT) && o.status == Some(PUBLISHED))
  {
  }

  /** A row that changes neither scope nor status clashes with no other published row. */
  lemma StaysAlone(rows: seq<Snapshot>, t: nat, n: Snapshot)
    requires Stored(rows) && TableHolds(rows) && t < |rows|
    requires ColumnsHold(n) && n.content == rows[t].content && n.status == rows[t].status
    ensures n.status == Some(PUBLISHED) ==> AloneInScope(rows, t, n)
  {
    hide ColumnsHold, Conflict, SharesScope;
    if n.status == Some(PUBLISHED) {
      forall i | 0 <= i < |rows| && i != t && rows[i].status == Some(PUBLISHED)
        ensures !SharesScope(rows[i].content, n.content)
      {
        ConflictMeans(rows[i], rows[t]);
        ConflictSymmetric(rows[i], rows[t]);
        assert i < t ==> !Conflict(rows[i], rows[t]);
        assert t < i ==> !Conflict(rows[t], rows[i]);
      }
    }
  }

  /** So a row that supersedes nothing may be renamed there when it stands alone, and in PostgreSQL it may not. */
  lemma IdsMayChange(o: Snapshot, id: string)
    requires ColumnsHold(o) && o.content.cutoff.Some? && o.content.supersedes.None?
    ensures Accepts(SQLite, [o], Update(0, Renamed(o, id)))
    ensures Accepts(PostgreSQL, [o], Update(0, Renamed(o, id))) <==> o.id == Some(id)
  {
    hide UpdateRaises, Conflict;
    UpdateMeans(SQLite, o, Renamed(o, id));
    UpdateMeans(PostgreSQL, o, Renamed(o, id));
  }

  // ---- the dialects side by side ----

  /** One statement does the same in both dialects exactly when SQLite does not let it change an id. */
  lemma DialectsStepAlike(rows: seq<Snapshot>, s: Statement)
    requires Stored(rows)
    ensures Apply(PostgreSQL, rows, s) == Apply(SQLite, rows, s) <==> LeavesId(SQLite, rows, s)
  {
    hide InsertRaises, UpdateRaises, ConstraintsHold, Conflict;
    match s
    case Insert(n) => InsertsAgree(n);
    case Update(t, n) =>
      if t < |rows| {
        UpdatesAgree(rows[t], n);
        assert rows[t := n][t] == n;
      }
    case Delete(_) =>
  }

  /** The dialects keep the same table throughout a run. */
  ghost predicate RunAlike(rows: seq<Snapshot>, statements: seq<Statement>) {
    forall k :: 0 <= k <= |statements| ==> Run(PostgreSQL, rows, statements[..k]) == Run(SQLite, rows, statements[..k])
  }

  lemma RunAlikeSnoc(rows: seq<Snapshot>, statements: seq<Statement>)
    requires statements != []
    ensures RunAlike(rows, statements) <==>
            && RunAlike(rows, statements[..|statements| - 1])
            && Run(PostgreSQL, rows, statements) == Run(SQLite, rows, statements)
  {
    hide Run;
    var n := |statements| - 1;
    var front := statements[..n];
    assert statements[..|statements|] == statements;
    forall k | 0 <= k <= n ensures front[..k] == statements[..k] {
    }
    if RunAlike(rows, statements) {
      forall k | 0 <= k <= n ensures Run(PostgreSQL, rows, front[..k]) == Run(SQLite, rows, front[..k]) {
        assert Run(PostgreSQL, rows, statements[..k]) == Run(SQLite, rows, statements[..k]);
      }
    }
    if RunAlike(rows, front) && Run(PostgreSQL, rows, statements) == Run(SQLite, rows, statements) {
      forall k | 0 <= k <= |statements|
        ensures Run(PostgreSQL, rows, statements[..k]) == Run(SQLite, rows, statements[..k])
      {
        if k <= n {
          assert Run(PostgreSQL, rows, front[..k]) == Run(SQLite, rows, front[..k]);
        }
      }
    }
  }

  /** Both dialects take a stored table through the same tables exactly when SQLite's updates leave ids alone. */
  lemma {:induction false} DialectsRunAlike(rows: seq<Snapshot>, statements: seq<Statement>)
    requires Stored(rows)
    ensures RunAlike(rows, statements) <==> LeaveIds(SQLite, rows, statements)
  {
    if statements == [] {
      assert statements[..0] == [];
    } else {
      hide *;
      var k := |statements| - 1;
      var front := statements[..k];
      DialectsRunAlike(rows, front);
      RunAlikeSnoc(rows, statements);
      LeaveIdsSnoc(SQLite, rows, statements);
      RunLast(PostgreSQL, rows, statements);
      RunLast(SQLite, rows, statements);
      RunIsLater(SQLite, rows, front);
      if RunAlike(rows, front) {
        AlikeAtEnd(rows, front);
        DialectsStepAlike(Run(SQLite, rows, front), statements[k]);
      }
    }
  }

  lemma AlikeAtEnd(rows: seq<Snapshot>, statements: seq<Statement>)
    requires RunAlike(rows, statements)
    ensures Run(PostgreSQL, rows, statements) == Run(SQLite, rows, statements)
  {
    hide Run;
    assert statements[..|statements|] == statements;
  }
}
