/**
 Account ledgers and authorization epochs under PostgreSQL's guards
 (alembic/versions/0011_account_billing_integrity.py, alembic/versions/0015_release_integrity_controls.py; the two
 contract triggers in the form of alembic/versions/0016_runtime_budget_authority.py, which fixes the id as well).
 Rows are appended and never deleted, so a row is known by its position.
 */
module Accounts {
  import opened Outcomes
  import opened BudgetGuards

  const PENDING := "pending_verification"
  const ACTIVE := "active"
  const REVOKED := "revoked"

  /** The columns of a ledger its contract trigger compares; `rest` stands for the text columns without a part below. */
  datatype Terms = Terms(backend: string, scope: string, cap: int, openingUsed: int, openingReserved: int,
                         openingSha: string, envelopeSha: string, rest: seq<string>)

  datatype Ledger = Ledger(id: string, terms: Terms, status: string, used: int, reserved: int, revokedAt: Option<int>)

  /** The columns of an authorization its trigger compares. */
  datatype Grant = Grant(ledger: string, backend: string, scope: string, supersedes: Option<string>,
                         used: int, reserved: int, envelopeSha: string, rest: seq<string>)

  datatype Authorization = Authorization(id: string, grant: Grant, status: string, revokedAt: Option<int>)

  const BACKENDS := {"openrouter", "bedrock"}

  // ---- guards ----

  /** The ledger contract trigger on update. */
  predicate LedgerRaises(o: Ledger, n: Ledger) {
    || o.id != n.id || o.terms != n.terms
    || (if o.status == REVOKED && (n.status != o.status || n.revokedAt != o.revokedAt) then true
        else if n.status != o.status || n.revokedAt != o.revokedAt then
          !(|| (o.status == PENDING && n.status == ACTIVE && o.revokedAt.None? && n.revokedAt.None?)
            || (o.status in {PENDING, ACTIVE} && n.status == REVOKED && o.revokedAt.None? && n.revokedAt.Some?))
        else false)
  }

  /** The authorization trigger on update. */
  predicate AuthorizationRaises(o: Authorization, n: Authorization) {
    || o.id != n.id || o.grant != n.grant
    || (if o.status == ACTIVE && n.status == REVOKED && o.revokedAt.None? && n.revokedAt.Some? then false
        else n.status != o.status || n.revokedAt != o.revokedAt)
  }

  function CountersOf(l: Ledger): Counters {
    Counters(Some(l.used), Some(l.reserved))
  }

  predicate LedgerChecks(n: Ledger) {
    && n.terms.backend in BACKENDS
    && n.status in {PENDING, ACTIVE, REVOKED}
    && n.terms.cap > 0 && n.used >= 0 && n.reserved >= 0 && n.terms.openingUsed >= 0 && n.terms.openingReserved >= 0
    && ((n.status == REVOKED && n.revokedAt.Some?) || (n.status != REVOKED && n.revokedAt.None?))
  }

  predicate AuthorizationChecks(n: Authorization) {
    && n.grant.backend in BACKENDS
    && n.status in {ACTIVE, REVOKED}
    && ((n.status == ACTIVE && n.revokedAt.None?) || (n.status == REVOKED && n.revokedAt.Some?))
    && n.grant.used >= 0 && n.grant.reserved >= 0
  }

  predicate LedgerClash(a: Ledger, b: Ledger) {
    || a.id == b.id
    || (a.terms.backend == b.terms.backend && a.terms.scope == b.terms.scope)
    || a.terms.envelopeSha == b.terms.envelopeSha
    || a.terms.openingSha == b.terms.openingSha
  }

  predicate SameActiveScope(a: Authorization, b: Authorization) {
    a.status == ACTIVE && b.status == ACTIVE && a.grant.backend == b.grant.backend && a.grant.scope == b.grant.scope
  }

  predicate AuthorizationClash(a: Authorization, b: Authorization) {
    || a.id == b.id
    || a.grant.envelopeSha == b.grant.envelopeSha
    || (a.grant.supersedes.Some? && a.grant.supersedes == b.grant.supersedes)
    || SameActiveScope(a, b)
  }

  datatype Book = Book(ledgers: seq<Ledger>, grants: seq<Authorization>)

  ghost predicate LedgersUnique(s: seq<Ledger>) {
    forall i, j :: 0 <= i < j < |s| ==> !LedgerClash(s[i], s[j])
  }

  ghost predicate GrantsUnique(s: seq<Authorization>) {
    forall i, j :: 0 <= i < j < |s| ==> !AuthorizationClash(s[i], s[j])
  }

  ghost predicate HasLedger(s: seq<Ledger>, id: string) {
    exists k :: 0 <= k < |s| && s[k].id == id
  }

  /** Some row has this id. */
  ghost predicate HasId(s: seq<Authorization>, id: string) {
    exists i :: 0 <= i < |s| && s[i].id == id
  }

  /** Foreign keys, checked when the statement ends: rows may refer to themselves and to one another. */
  ghost predicate ReferencesHold(b: Book) {
    && (forall i :: 0 <= i < |b.grants| ==> HasLedger(b.ledgers, b.grants[i].grant.ledger))
    && SupersessionsHold(b.grants)
  }

  ghost predicate SupersessionsHold(s: seq<Authorization>) {
    forall i :: 0 <= i < |s| && s[i].grant.supersedes.Some? ==> HasId(s, s[i].grant.supersedes.value)
  }

  /** An insert of authorizations brings any number of rows; the others touch one row. */
  datatype Statement =
    | InsertLedger(ledger: Ledger)
    | UpdateLedger(target: nat, ledger: Ledger)
    | DeleteLedger(target: nat)
    | InsertGrants(rows: seq<Authorization>)
    | UpdateGrant(target: nat, grant: Authorization)
    | DeleteGrant(target: nat)

  /** The tables a statement would leave. */
  function Outcome(b: Book, s: Statement): Book {
    match s
    case InsertLedger(n) => b.(ledgers := b.ledgers + [n])
    case UpdateLedger(t, n) => if t < |b.ledgers| then b.(ledgers := b.ledgers[t := n]) else b
    case InsertGrants(rows) => b.(grants := b.grants + rows)
    case UpdateGrant(t, n) => if t < |b.grants| then b.(grants := b.grants[t := n]) else b
    case DeleteLedger(_) => b
    case DeleteGrant(_) => b
  }

  /** The row triggers and CHECKs. */
  predicate RowAllowed(b: Book, s: Statement) {
    match s
    case InsertLedger(n) => !PgRaises(None, CountersOf(n)) && LedgerChecks(n)
    case UpdateLedger(t, n) =>
      && t < |b.ledgers|
      && !LedgerRaises(b.ledgers[t], n) && !PgRaises(Some(CountersOf(b.ledgers[t])), CountersOf(n)) && LedgerChecks(n)
    case InsertGrants(rows) => forall k :: 0 <= k < |rows| ==> AuthorizationChecks(rows[k])
    case UpdateGrant(t, n) => t < |b.grants| && !AuthorizationRaises(b.grants[t], n) && AuthorizationChecks(n)
    case DeleteLedger(_) => false
    case DeleteGrant(_) => false
  }

  ghost predicate TablesAllowed(b: Book) {
    LedgersUnique(b.ledgers) && GrantsUnique(b.grants) && ReferencesHold(b)
  }

  ghost predicate Accepts(b: Book, s: Statement) {
    RowAllowed(b, s) && TablesAllowed(Outcome(b, s))
  }

  ghost function Apply(b: Book, s: Statement): Book {
    if Accepts(b, s) then Outcome(b, s) else b
  }

  ghost function Run(b: Book, statements: seq<Statement>): Book {
    if statements == [] then b else Apply(Run(b, statements[..|statements| - 1]), statements[|statements| - 1])
  }

  // ---- ledgers over every run ----

  /** pending -> active -> revoked, or pending -> revoked. */
  predicate StatusForward(before: string, after: string) {
    before == after || (before == PENDING && after in {ACTIVE, REVOKED}) || (before == ACTIVE && after == REVOKED)
  }

  predicate LedgerLater(a: Ledger, b: Ledger) {
    && b.id == a.id && b.terms == a.terms
    && b.used >= a.used
    && StatusForward(a.status, b.status)
    && (a.status == REVOKED ==> b.revokedAt == a.revokedAt)
  }

  /** An authorization only ever moves from active to revoked; what it grants and supersedes is fixed. */
  predicate GrantLater(a: Authorization, b: Authorization) {
    && b.id == a.id && b.grant == a.grant
    && (a.status == b.status || (a.status == ACTIVE && b.status == REVOKED))
    && (a.status == REVOKED ==> b.revokedAt == a.revokedAt)
  }

  ghost predicate Later(a: Book, b: Book) {
    && |a.ledgers| <= |b.ledgers| && |a.grants| <= |b.grants|
    && (forall i :: 0 <= i < |a.ledgers| ==> LedgerLater(a.ledgers[i], b.ledgers[i]))
    && (forall i :: 0 <= i < |a.grants| ==> GrantLater(a.grants[i], b.grants[i]))
  }

  /** CHECKs on every row, indexes and references: what any database with this schema satisfies. */
  ghost predicate Consistent(b: Book) {
    && TablesAllowed(b)
    && (forall i :: 0 <= i < |b.ledgers| ==> LedgerChecks(b.ledgers[i]))
    && (forall i :: 0 <= i < |b.grants| ==> AuthorizationChecks(b.grants[i]))
  }

  lemma LedgerUpdateIsLater(o: Ledger, n: Ledger)
    requires LedgerChecks(o) && LedgerChecks(n) && !LedgerRaises(o, n) && !PgRaises(Some(CountersOf(o)), CountersOf(n))
    ensures LedgerLater(o, n)
  {
    BudgetMeans(Some(CountersOf(o)), CountersOf(n));
  }

  lemma StepIsLater(b: Book, s: Statement)
    requires Consistent(b)
    ensures Consistent(Apply(b, s)) && Later(b, Apply(b, s))
  {
    hide TablesAllowed, LedgerRaises, PgRaises, LedgerChecks, AuthorizationChecks;
    if Accepts(b, s) && s.UpdateLedger? {
      LedgerUpdateIsLater(b.ledgers[s.target], s.ledger);
    }
  }

  lemma LaterTransitive(a: Book, b: Book, c: Book)
    requires Consistent(a) && Consistent(b) && Later(a, b) && Later(b, c)
    ensures Later(a, c)
  {
    hide TablesAllowed, LedgerChecks, AuthorizationChecks;
    forall i | 0 <= i < |a.ledgers| ensures LedgerLater(a.ledgers[i], c.ledgers[i]) {
      assert LedgerLater(a.ledgers[i], b.ledgers[i]) && LedgerLater(b.ledgers[i], c.ledgers[i]);
    }
    forall i | 0 <= i < |a.grants| ensures GrantLater(a.grants[i], c.grants[i]) {
      assert GrantLater(a.grants[i], b.grants[i]) && GrantLater(b.grants[i], c.grants[i]);
    }
  }

  /**
   Over every run: no row is lost, spend never falls, status and revocation only move forward, ids, links and terms
   are fixed.
   */
  lemma {:induction false} RunIsLater(b: Book, statements: seq<Statement>)
    requires Consistent(b)
    ensures Consistent(Run(b, statements)) && Later(b, Run(b, statements))
  {
    if statements == [] {
    } else {
      hide Consistent, Later, Apply;
      var front := statements[..|statements| - 1];
      RunIsLater(b, front);
      StepIsLater(Run(b, front), statements[|statements| - 1]);
      LaterTransitive(b, Run(b, front), Run(b, statements));
    }
  }

  /** After every run, each backend and account scope has at most one active authorization. */
  lemma OneActivePerScope(b: Book, statements: seq<Statement>, i: nat, j: nat)
    requires Consistent(b) && i < j < |Run(b, statements).grants|
    ensures !SameActiveScope(Run(b, statements).grants[i], Run(b, statements).grants[j])
  {
    hide Run;
    RunIsLater(b, statements);
    var r := Run(b, statements);
    assert !AuthorizationClash(r.grants[i], r.grants[j]);
  }

  /** After every run, no two rows share an id or any other key of their table. */
  lemma KeysStayUnique(b: Book, statements: seq<Statement>)
    requires Consistent(b)
    ensures var s := Run(b, statements).ledgers;
            forall i, j :: 0 <= i < j < |s| ==>
              && s[i].id != s[j].id
              && (s[i].terms.backend != s[j].terms.backend || s[i].terms.scope != s[j].terms.scope)
              && s[i].terms.envelopeSha != s[j].terms.envelopeSha && s[i].terms.openingSha != s[j].terms.openingSha
    ensures var s := Run(b, statements).grants;
            forall i, j :: 0 <= i < j < |s| ==>
              && s[i].id != s[j].id && s[i].grant.envelopeSha != s[j].grant.envelopeSha
              && (s[i].grant.supersedes.Some? ==> s[i].grant.supersedes != s[j].grant.supersedes)
  {
    hide Run;
    RunIsLater(b, statements);
    var r := Run(b, statements);
    forall i, j | 0 <= i < j < |r.ledgers| ensures !LedgerClash(r.ledgers[i], r.ledgers[j]) {
    }
    forall i, j | 0 <= i < j < |r.grants| ensures !AuthorizationClash(r.grants[i], r.grants[j]) {
    }
  }

  /** After every run, amounts are in range, states known, and exactly the revoked rows have a revocation time. */
  lemma RowsStayChecked(b: Book, statements: seq<Statement>)
    requires Consistent(b)
    ensures forall l :: l in Run(b, statements).ledgers ==>
              && l.terms.backend in {"openrouter", "bedrock"}
              && l.status in {"pending_verification", "active", "revoked"}
              && (l.status == "revoked" <==> l.revokedAt.Some?)
              && l.terms.cap > 0 && l.used >= 0 && l.reserved >= 0
              && l.terms.openingUsed >= 0 && l.terms.openingReserved >= 0
    ensures forall a :: a in Run(b, statements).grants ==>
              && a.grant.backend in {"openrouter", "bedrock"}
              && a.status in {"active", "revoked"}
              && (a.status == "revoked" <==> a.revokedAt.Some?)
              && a.grant.used >= 0 && a.grant.reserved >= 0
  {
    hide Run, TablesAllowed;
    RunIsLater(b, statements);
  }

  // ---- which statements pass ----

  /** The ledger guards let through exactly the updates that keep id and terms and move forward. */
  lemma LedgerUpdateMeans(o: Ledger, n: Ledger)
    requires LedgerChecks(o) && LedgerChecks(n)
    ensures !LedgerRaises(o, n) && !PgRaises(Some(CountersOf(o)), CountersOf(n)) <==> LedgerLater(o, n)
  {
    hide PgRaises;
    BudgetMeans(Some(CountersOf(o)), CountersOf(n));
  }

  lemma GrantUpdateMeans(o: Authorization, n: Authorization)
    requires AuthorizationChecks(o) && AuthorizationChecks(n)
    ensures !AuthorizationRaises(o, n) <==> GrantLater(o, n)
  {
  }

  lemma SameLedger(a: seq<Ledger>, t: nat, n: Ledger, id: string)
    requires t < |a| && n.id == a[t].id
    ensures HasLedger(a[t := n], id) <==> HasLedger(a, id)
  {
    if HasLedger(a, id) {
      var k :| 0 <= k < |a| && a[k].id == id;
      assert a[t := n][k].id == id;
    }
  }

  /** An update of a ledger passes exactly when the new row meets its checks and moves forward from the old one. */
  lemma UpdateLedgerExact(b: Book, t: nat, n: Ledger)
    requires Consistent(b) && t < |b.ledgers|
    ensures Accepts(b, UpdateLedger(t, n)) <==> LedgerChecks(n) && LedgerLater(b.ledgers[t], n)
  {
    hide LedgerRaises, PgRaises, LedgerChecks, AuthorizationChecks, GrantsUnique, SupersessionsHold, HasLedger;
    if LedgerChecks(n) {
      LedgerUpdateMeans(b.ledgers[t], n);
      if LedgerLater(b.ledgers[t], n) {
        forall i | 0 <= i < |b.grants| ensures HasLedger(b.ledgers[t := n], b.grants[i].grant.ledger) {
          SameLedger(b.ledgers, t, n, b.grants[i].grant.ledger);
        }
        LedgerStaysUnique(b.ledgers, t, n);
      }
    }
  }

  lemma LedgerStaysUnique(s: seq<Ledger>, t: nat, n: Ledger)
    requires LedgersUnique(s) && t < |s| && LedgerLater(s[t], n)
    ensures LedgersUnique(s[t := n])
  {
    var all := s[t := n];
    forall i, j | 0 <= i < j < |s| ensures !LedgerClash(all[i], all[j]) {
      assert !LedgerClash(s[i], s[j]);
    }
  }

  lemma GrantStaysUnique(s: seq<Authorization>, t: nat, n: Authorization)
    requires GrantsUnique(s) && t < |s| && GrantLater(s[t], n)
    ensures GrantsUnique(s[t := n])
  {
    assert n.status == ACTIVE ==> s[t].status == ACTIVE;
    var all := s[t := n];
    forall i, j | 0 <= i < j < |s| ensures !AuthorizationClash(all[i], all[j]) {
      assert !AuthorizationClash(s[i], s[j]);
    }
  }

  lemma SupersessionsStay(s: seq<Authorization>, t: nat, n: Authorization)
    requires SupersessionsHold(s) && t < |s| && n.id == s[t].id && n.grant == s[t].grant
    ensures SupersessionsHold(s[t := n])
  {
    var all := s[t := n];
    forall i | 0 <= i < |all| && all[i].grant.supersedes.Some? ensures HasId(all, all[i].grant.supersedes.value) {
      assert all[i].grant == s[i].grant;
      var k :| 0 <= k < |s| && s[k].id == s[i].grant.supersedes.value;
      assert all[k].id == s[k].id;
    }
  }

  /** So does one of an authorization: revoking never clashes with another row. */
  lemma UpdateGrantExact(b: Book, t: nat, n: Authorization)
    requires Consistent(b) && t < |b.grants|
    ensures Accepts(b, UpdateGrant(t, n)) <==> AuthorizationChecks(n) && GrantLater(b.grants[t], n)
  {
    hide LedgersUnique, GrantsUnique, SupersessionsHold, HasLedger;
    hide AuthorizationRaises, AuthorizationChecks, LedgerChecks;
    if AuthorizationChecks(n) {
      GrantUpdateMeans(b.grants[t], n);
      if GrantLater(b.grants[t], n) {
        GrantStaysUnique(b.grants, t, n);
        SupersessionsStay(b.grants, t, n);
      }
    }
  }

  /** A new ledger passes exactly when its columns are in range and it shares no key with a row there. */
  lemma InsertLedgerExact(b: Book, n: Ledger)
    requires Consistent(b)
    ensures Accepts(b, InsertLedger(n)) <==>
            && n.terms.backend in {"openrouter", "bedrock"}
            && n.terms.cap > 0 && n.used >= 0 && n.reserved >= 0
            && n.terms.openingUsed >= 0 && n.terms.openingReserved >= 0
            && n.status in {"pending_verification", "active", "revoked"}
            && (n.status == "revoked" <==> n.revokedAt.Some?)
            && forall l :: l in b.ledgers ==>
                 && l.id != n.id
                 && (l.terms.backend != n.terms.backend || l.terms.scope != n.terms.scope)
                 && l.terms.envelopeSha != n.terms.envelopeSha && l.terms.openingSha != n.terms.openingSha
  {
    hide LedgersUnique, GrantsUnique, SupersessionsHold, HasLedger, PgRaises, AuthorizationChecks;
    LedgerIndexes(b.ledgers, n, 0);
    BudgetMeans(None, CountersOf(n));
    forall id ensures HasLedger(b.ledgers, id) ==> HasLedger(b.ledgers + [n], id) {
      HasLedgerSnoc(b.ledgers, n, id);
    }
    assert LedgerFits(b.ledgers, n, -1) <==> forall l :: l in b.ledgers ==> !LedgerClash(l, n);
  }

  lemma HasLedgerSnoc(s: seq<Ledger>, n: Ledger, id: string)
    ensures HasLedger(s + [n], id) <==> HasLedger(s, id) || n.id == id
  {
    var all := s + [n];
    assert all[|s|] == n;
    if HasLedger(s, id) {
      var k :| 0 <= k < |s| && s[k].id == id;
      assert all[k].id == id;
    }
  }

  /**
   A new authorization passes exactly when its columns are in range, it names a ledger, supersedes at most itself or
   a row nothing supersedes yet, and shares neither key nor active scope with a row there.
   */
  lemma InsertGrantExact(b: Book, n: Authorization)
    requires Consistent(b)
    ensures Accepts(b, InsertGrants([n])) <==>
            && n.grant.backend in {"openrouter", "bedrock"} && n.grant.used >= 0 && n.grant.reserved >= 0
            && n.status in {"active", "revoked"} && (n.status == "revoked" <==> n.revokedAt.Some?)
            && (exists l :: l in b.ledgers && l.id == n.grant.ledger)
            && (n.grant.supersedes.Some? ==>
                  n.grant.supersedes == Some(n.id) || exists a :: a in b.grants && n.grant.supersedes == Some(a.id))
            && forall a :: a in b.grants ==>
                 && a.id != n.id && a.grant.envelopeSha != n.grant.envelopeSha
                 && (n.grant.supersedes.Some? ==> a.grant.supersedes != n.grant.supersedes)
                 && !(a.status == "active" && n.status == "active"
                      && a.grant.backend == n.grant.backend && a.grant.scope == n.grant.scope)
  {
    hide LedgersUnique, GrantsUnique, SupersessionsHold, HasLedger, HasId, LedgerChecks;
    GrantIndexes(b.grants, n, 0);
    assert GrantFits(b.grants, n, -1) <==> forall a :: a in b.grants ==> !AuthorizationClash(a, n);
    assert [n][0] == n;
    LedgerNamed(b.ledgers, n.grant.ledger);
    assert (forall i :: 0 <= i < |b.grants| ==> HasLedger(b.ledgers, (b.grants + [n])[i].grant.ledger)) by {
      assert forall i :: 0 <= i < |b.grants| ==> (b.grants + [n])[i] == b.grants[i];
    }
    assert (b.grants + [n])[|b.grants|] == n;
    SupersessionsSnoc(b.grants, n);
    if n.grant.supersedes.Some? {
      GrantNamed(b.grants, n.grant.supersedes.value);
    }
  }

  lemma LedgerNamed(s: seq<Ledger>, id: string)
    ensures HasLedger(s, id) <==> exists l :: l in s && l.id == id
  {
  }

  lemma GrantNamed(s: seq<Authorization>, id: string)
    ensures HasId(s, id) <==> exists a :: a in s && Some(id) == Some(a.id)
  {
  }

  lemma SupersessionsSnoc(s: seq<Authorization>, n: Authorization)
    requires SupersessionsHold(s)
    ensures SupersessionsHold(s + [n]) <==>
            (n.grant.supersedes.Some? ==>
               n.grant.supersedes == Some(n.id) || HasId(s, n.grant.supersedes.value))
  {
    hide HasId;
    var all := s + [n];
    assert all[|s|] == n;
    forall i | 0 <= i < |all| && all[i].grant.supersedes.Some?
      ensures HasId(all, all[i].grant.supersedes.value) <==>
              HasId(s, all[i].grant.supersedes.value) || all[i].grant.supersedes == Some(n.id)
    {
      HasIdSnoc(s, n, all[i].grant.supersedes.value);
    }
    forall i | 0 <= i < |s| ensures all[i] == s[i] {
    }
  }

  /**
   From nothing: a ledger is opened, activated, authorized, spent from, its authorization revoked and superseded, and
   at last the ledger is revoked. Every statement passes, and the tables are as written.
   */
  lemma Lifecycle(l: Ledger, g: Authorization, h: Authorization, used: int, reserved: int, at: int)
    requires LedgerChecks(l) && l.status == "pending_verification" && used >= l.used && reserved >= 0
    requires AuthorizationChecks(g) && g.status == "active" && g.grant.ledger == l.id && g.grant.supersedes.None?
    requires AuthorizationChecks(h) && h.status == "active" && h.grant.ledger == l.id
    requires h.id != g.id && h.grant.supersedes == Some(g.id) && h.grant.envelopeSha != g.grant.envelopeSha
    ensures var active := l.(status := "active");
            var spent := active.(used := used, reserved := reserved);
            var closed := spent.(status := "revoked", revokedAt := Some(at));
            var over := g.(status := "revoked", revokedAt := Some(at));
            var first := Apply(Book([], []), InsertLedger(l));
            var running := Apply(Apply(first, UpdateLedger(0, active)), InsertGrants([g]));
            var turned := Apply(Apply(running, UpdateLedger(0, spent)), UpdateGrant(0, over));
            && first == Book([l], [])
            && running == Book([active], [g])
            && turned == Book([spent], [over])
            && Apply(Apply(turned, InsertGrants([h])), UpdateLedger(0, closed)) == Book([closed], [over, h])
  {
    hide Consistent, Accepts, LedgerChecks, AuthorizationChecks, LedgerLater, GrantLater;
    var active := l.(status := "active");
    var spent := active.(used := used, reserved := reserved);
    var closed := spent.(status := "revoked", revokedAt := Some(at));
    var over := g.(status := "revoked", revokedAt := Some(at));
    LedgerStages(l, used, reserved, at);
    RevocationFollows(g, at);
    assert [] + [g] == [g] && [over] + [h] == [over, h];
    assert [l][0 := active] == [active] && [active][0 := spent] == [spent] && [spent][0 := closed] == [closed];
    assert [g][0 := over] == [over];
    NothingStored();
    Opens(Book([], []), l);
    Turns(Book([l], []), 0, active);
    Grants(Book([active], []), g);
    Turns(Book([active], [g]), 0, spent);
    Ends(Book([spent], [g]), 0, over);
    Grants(Book([spent], [over]), h);
    Turns(Book([spent], [over, h]), 0, closed);
  }

  lemma LedgerStages(l: Ledger, used: int, reserved: int, at: int)
    requires LedgerChecks(l) && l.status == "pending_verification" && used >= l.used && reserved >= 0
    ensures var active := l.(status := "active");
            var spent := active.(used := used, reserved := reserved);
            var closed := spent.(status := "revoked", revokedAt := Some(at));
            && LedgerChecks(active) && LedgerChecks(spent) && LedgerChecks(closed)
            && LedgerLater(l, active) && LedgerLater(active, spent) && LedgerLater(spent, closed)
  {
  }

  lemma RevocationFollows(g: Authorization, at: int)
    requires AuthorizationChecks(g) && g.status == "active"
    ensures var over := g.(status := "revoked", revokedAt := Some(at));
            AuthorizationChecks(over) && GrantLater(g, over)
  {
  }

  lemma NothingStored()
    ensures Consistent(Book([], []))
  {
  }

  lemma Opens(b: Book, n: Ledger)
    requires Consistent(b) && b.ledgers == [] && LedgerChecks(n)
    ensures Apply(b, InsertLedger(n)) == Book([n], b.grants) && Consistent(Apply(b, InsertLedger(n)))
  {
    hide Consistent, Accepts;
    InsertLedgerExact(b, n);
    StepIsLater(b, InsertLedger(n));
  }

  lemma Turns(b: Book, t: nat, n: Ledger)
    requires Consistent(b) && t < |b.ledgers| && LedgerChecks(n) && LedgerLater(b.ledgers[t], n)
    ensures Apply(b, UpdateLedger(t, n)) == Book(b.ledgers[t := n], b.grants)
    ensures Consistent(Apply(b, UpdateLedger(t, n)))
  {
    hide Consistent, Accepts;
    UpdateLedgerExact(b, t, n);
    StepIsLater(b, UpdateLedger(t, n));
  }

  lemma Ends(b: Book, t: nat, n: Authorization)
    requires Consistent(b) && t < |b.grants| && AuthorizationChecks(n) && GrantLater(b.grants[t], n)
    ensures Apply(b, UpdateGrant(t, n)) == Book(b.ledgers, b.grants[t := n])
    ensures Consistent(Apply(b, UpdateGrant(t, n)))
  {
    hide Consistent, Accepts;
    UpdateGrantExact(b, t, n);
    StepIsLater(b, UpdateGrant(t, n));
  }

  lemma Grants(b: Book, n: Authorization)
    requires Consistent(b) && AuthorizationChecks(n) && |b.ledgers| == 1 && b.ledgers[0].id == n.grant.ledger
    requires |b.grants| <= 1 && forall a :: a in b.grants ==>
               && a.id != n.id && a.grant.envelopeSha != n.grant.envelopeSha && a.grant.supersedes.None?
               && a.status == "revoked" && n.grant.supersedes == Some(a.id)
    requires b.grants == [] ==> n.grant.supersedes.None?
    ensures Apply(b, InsertGrants([n])) == Book(b.ledgers, b.grants + [n])
    ensures Consistent(Apply(b, InsertGrants([n])))
  {
    hide Consistent, Accepts;
    InsertGrantExact(b, n);
    assert b.ledgers[0] in b.ledgers;
    assert b.grants != [] ==> b.grants[0] in b.grants;
    StepIsLater(b, InsertGrants([n]));
  }

  // ---- supersession ----

  /** The position of the row each authorization supersedes. */
  ghost function LinkOf(s: seq<Authorization>, i: nat): Option<nat>
    requires i < |s|
  {
    if s[i].grant.supersedes.Some? && HasId(s, s[i].grant.supersedes.value) then
      var k :| 0 <= k < |s| && s[k].id == s[i].grant.supersedes.value;
      Some(k)
    else None
  }

  lemma IdsUnique(s: seq<Authorization>, k: nat, l: nat)
    requires GrantsUnique(s) && k < |s| && l < |s| && s[k].id == s[l].id
    ensures k == l
  {
  }

  /** With unique ids a link has one meaning. */
  lemma LinkIs(s: seq<Authorization>, i: nat, k: nat)
    requires GrantsUnique(s) && i < |s| && k < |s| && s[i].grant.supersedes == Some(s[k].id)
    ensures LinkOf(s, i) == Some(k)
  {
    assert HasId(s, s[k].id);
    IdsUnique(s, LinkOf(s, i).value, k);
  }

  ghost function Links(s: seq<Authorization>): (l: seq<Option<nat>>)
    ensures |l| == |s| && forall i :: 0 <= i < |s| ==> l[i] == LinkOf(s, i)
  {
    seq(|s|, i requires 0 <= i < |s| => LinkOf(s, i))
  }

  /** Every link points to an earlier row, and no row is superseded twice. */
  ghost predicate Chains(links: seq<Option<nat>>) {
    && (forall i :: 0 <= i < |links| && links[i].Some? ==> links[i].value < i)
    && forall i, j :: 0 <= i < j < |links| && links[i].Some? ==> links[i] != links[j]
  }

  lemma NoDoubleSupersession(s: seq<Authorization>, i: nat, j: nat)
    requires GrantsUnique(s) && i < j < |s| && LinkOf(s, i).Some?
    ensures LinkOf(s, i) != LinkOf(s, j)
  {
    assert !AuthorizationClash(s[i], s[j]);
  }

  /** An insert leaves the links of the rows before it as they are. */
  lemma InsertKeepsLinks(s: seq<Authorization>, rows: seq<Authorization>)
    requires GrantsUnique(s + rows) && SupersessionsHold(s)
    ensures Links(s + rows)[..|s|] == Links(s)
  {
    hide GrantsUnique;
    var all := s + rows;
    forall i | 0 <= i < |s| ensures LinkOf(all, i) == LinkOf(s, i) {
      if s[i].grant.supersedes.Some? {
        var k := LinkOf(s, i).value;
        assert all[k] == s[k] && all[i] == s[i];
        LinkIs(all, i, k);
      }
    }
  }

  /** Each row supersedes only rows before it: ones already there, or earlier ones of the same statement. */
  ghost predicate SupersedeEarlier(s: seq<Authorization>, rows: seq<Authorization>) {
    forall k :: 0 <= k < |rows| ==> SupersedesEarlier(s, rows, k)
  }

  ghost predicate SupersedesEarlier(s: seq<Authorization>, rows: seq<Authorization>, k: nat)
    requires k < |rows|
  {
    rows[k].grant.supersedes.Some? ==> HasId(s + rows[..k], rows[k].grant.supersedes.value)
  }

  lemma EarlierLink(s: seq<Authorization>, rows: seq<Authorization>, k: nat)
    requires GrantsUnique(s + rows) && SupersessionsHold(s + rows) && k < |rows|
    ensures SupersedesEarlier(s, rows, k) <==>
            (LinkOf(s + rows, |s| + k).Some? ==> LinkOf(s + rows, |s| + k).value < |s| + k)
  {
    hide GrantsUnique;
    var all, part, i := s + rows, s + rows[..k], |s| + k;
    assert all[i] == rows[k];
    assert all[..i] == part;
    if rows[k].grant.supersedes.Some? {
      var id := rows[k].grant.supersedes.value;
      if HasId(part, id) {
        var m :| 0 <= m < |part| && part[m].id == id;
        assert all[m] == part[m];
        LinkIs(all, i, m);
      }
      var m := LinkOf(all, i).value;
      assert all[m].id == id;
      assert m < i ==> part[m] == all[m];
    }
  }

  /** From chains, an insert leaves chains exactly when each of its rows supersedes only rows before it. */
  lemma InsertExact(s: seq<Authorization>, rows: seq<Authorization>)
    requires GrantsUnique(s + rows) && SupersessionsHold(s) && SupersessionsHold(s + rows) && Chains(Links(s))
    ensures Chains(Links(s + rows)) <==> SupersedeEarlier(s, rows)
  {
    hide LinkOf, GrantsUnique, SupersessionsHold, SupersedesEarlier;
    var all, links := s + rows, Links(s + rows);
    InsertKeepsLinks(s, rows);
    forall i | 0 <= i < |s| ensures links[i] == Links(s)[i] {
      assert links[i] == links[..|s|][i];
    }
    forall k | 0 <= k < |rows|
      ensures SupersedesEarlier(s, rows, k) <==> (links[|s| + k].Some? ==> links[|s| + k].value < |s| + k)
    {
      EarlierLink(s, rows, k);
    }
    if SupersedeEarlier(s, rows) {
      forall i | 0 <= i < |links| && links[i].Some? ensures links[i].value < i {
        if i >= |s| {
          assert SupersedesEarlier(s, rows, i - |s|);
        }
      }
      forall i, j | 0 <= i < j < |links| && links[i].Some? ensures links[i] != links[j] {
        NoDoubleSupersession(all, i, j);
      }
    }
  }

  /** An update cannot move a link: ids and what a row supersedes are fixed. */
  lemma UpdateLinks(s: seq<Authorization>, t: nat, n: Authorization)
    requires t < |s| && n.id == s[t].id && n.grant == s[t].grant && GrantsUnique(s) && GrantsUnique(s[t := n])
    requires SupersessionsHold(s)
    ensures Links(s[t := n]) == Links(s)
  {
    hide GrantsUnique;
    var all := s[t := n];
    forall i | 0 <= i < |s| ensures LinkOf(all, i) == LinkOf(s, i) {
      if s[i].grant.supersedes.Some? {
        var k := LinkOf(s, i).value;
        assert all[k].id == s[k].id && all[i].grant == s[i].grant;
        LinkIs(all, i, k);
      }
    }
  }

  /** A statement never changes a link: it only adds some at the end. */
  lemma StepKeepsLinks(b: Book, s: Statement)
    requires Consistent(b)
    ensures Links(b.grants) <= Links(Apply(b, s).grants)
  {
    hide LedgersUnique, LinkOf, SupersessionsHold, AuthorizationClash;
    if Accepts(b, s) {
      if s.InsertGrants? {
        InsertKeepsLinks(b.grants, s.rows);
        assert Links(b.grants) == Links(b.grants + s.rows)[..|b.grants|];
      } else if s.UpdateGrant? {
        UpdateLinks(b.grants, s.target, s.grant);
      }
    }
  }

  lemma ChainsPrefix(a: seq<Option<nat>>, c: seq<Option<nat>>)
    requires a <= c && Chains(c)
    ensures Chains(a)
  {
    assert forall i :: 0 <= i < |a| ==> a[i] == c[i];
  }

  // ---- exactly when chains last ----

  /** Where an accepted insert adds rows, each supersedes only rows before it. */
  ghost predicate KeepsOrder(b: Book, s: Statement) {
    Accepts(b, s) && s.InsertGrants? ==> SupersedeEarlier(b.grants, s.rows)
  }

  /** Every statement of a run keeps the order. */
  ghost predicate AllKeepOrder(b: Book, statements: seq<Statement>) {
    forall k :: 0 <= k < |statements| ==> KeepsOrder(Run(b, statements[..k]), statements[k])
  }

  lemma StepExact(b: Book, s: Statement)
    requires Consistent(b) && Chains(Links(b.grants))
    ensures Chains(Links(Apply(b, s).grants)) <==> KeepsOrder(b, s)
  {
    hide LedgersUnique, LinkOf, SupersessionsHold, AuthorizationClash, SupersedeEarlier;
    if Accepts(b, s) {
      if s.InsertGrants? {
        InsertExact(b.grants, s.rows);
      } else if s.UpdateGrant? {
        UpdateLinks(b.grants, s.target, s.grant);
      }
    }
  }

  lemma AllKeepOrderSnoc(b: Book, statements: seq<Statement>)
    requires statements != []
    ensures var k := |statements| - 1;
            AllKeepOrder(b, statements) <==>
            AllKeepOrder(b, statements[..k]) && KeepsOrder(Run(b, statements[..k]), statements[k])
  {
    hide KeepsOrder, Run;
    var k := |statements| - 1;
    var front := statements[..k];
    forall j | 0 <= j < k ensures front[j] == statements[j] && front[..j] == statements[..j] {
    }
    if AllKeepOrder(b, statements) {
      forall j | 0 <= j < k ensures KeepsOrder(Run(b, front[..j]), front[j]) {
        assert KeepsOrder(Run(b, statements[..j]), statements[j]);
      }
    }
  }

  lemma RunLast(b: Book, statements: seq<Statement>)
    requires statements != []
    ensures var k := |statements| - 1;
            Run(b, statements) == Apply(Run(b, statements[..k]), statements[k])
  {
  }

  /**
   Over every run, the links form chains exactly when each row an accepted insert adds supersedes only earlier
   rows.
   */
  lemma {:induction false} ChainsExact(b: Book, statements: seq<Statement>)
    requires Consistent(b) && Chains(Links(b.grants))
    ensures Links(b.grants) <= Links(Run(b, statements).grants)
    ensures Chains(Links(Run(b, statements).grants)) <==> AllKeepOrder(b, statements)
  {
    if statements != [] {
      hide *;
      var k := |statements| - 1;
      var front := statements[..k];
      var middle := Run(b, front);
      AllKeepOrderSnoc(b, statements);
      RunLast(b, statements);
      RunIsLater(b, front);
      ChainsExact(b, front);
      StepKeepsLinks(middle, statements[k]);
      if Chains(Links(middle.grants)) {
        StepExact(middle, statements[k]);
      } else if Chains(Links(Run(b, statements).grants)) {
        ChainsPrefix(Links(middle.grants), Links(Run(b, statements).grants));
      }
    }
  }

  /** The rows a run's accepted inserts add supersede only rows of the tables before the statement. */
  ghost predicate SupersedesExisting(b: Book, statements: seq<Statement>) {
    forall k ::
      0 <= k < |statements| && Accepts(Run(b, statements[..k]), statements[k]) && statements[k].InsertGrants? ==>
      NameExisting(Run(b, statements[..k]).grants, statements[k].rows)
  }

  ghost predicate NameExisting(s: seq<Authorization>, rows: seq<Authorization>) {
    forall k :: 0 <= k < |rows| && rows[k].grant.supersedes.Some? ==> HasId(s, rows[k].grant.supersedes.value)
  }

  lemma ExistingIsEarlier(s: seq<Authorization>, rows: seq<Authorization>)
    requires NameExisting(s, rows)
    ensures SupersedeEarlier(s, rows)
  {
    forall k | 0 <= k < |rows| ensures SupersedesEarlier(s, rows, k) {
      if rows[k].grant.supersedes.Some? {
        var i :| 0 <= i < |s| && s[i].id == rows[k].grant.supersedes.value;
        assert (s + rows[..k])[i] == s[i];
      }
    }
  }

  /** So superseding only existing rows is enough. */
  lemma RunKeepsChains(b: Book, statements: seq<Statement>)
    requires Consistent(b) && Chains(Links(b.grants)) && SupersedesExisting(b, statements)
    ensures Chains(Links(Run(b, statements).grants))
  {
    hide Consistent, Chains, Accepts, Run, NameExisting, SupersedeEarlier;
    forall k | 0 <= k < |statements| ensures KeepsOrder(Run(b, statements[..k]), statements[k]) {
      if Accepts(Run(b, statements[..k]), statements[k]) && statements[k].InsertGrants? {
        ExistingIsEarlier(Run(b, statements[..k]).grants, statements[k].rows);
      }
    }
    ChainsExact(b, statements);
  }

  lemma NewId(s: seq<Authorization>, n: Authorization)
    requires GrantsUnique(s + [n])
    ensures !HasId(s, n.id)
  {
    var all := s + [n];
    forall i | 0 <= i < |s| ensures s[i].id != n.id {
      assert !AuthorizationClash(all[i], all[|s|]);
    }
  }

  lemma HasIdSnoc(s: seq<Authorization>, n: Authorization, id: string)
    ensures HasId(s + [n], id) <==> HasId(s, id) || n.id == id
  {
    var all := s + [n];
    assert all[|s|] == n;
    if HasId(s, id) {
      var i :| 0 <= i < |s| && s[i].id == id;
      assert all[i].id == id;
    }
  }

  /** A statement that inserts one row keeps the order exactly when the row does not supersede itself. */
  lemma OneRowKeepsOrder(b: Book, n: Authorization)
    requires Accepts(b, InsertGrants([n]))
    ensures KeepsOrder(b, InsertGrants([n])) <==> n.grant.supersedes != Some(n.id)
  {
    hide LedgersUnique, GrantsUnique, HasId;
    assert (b.grants + [n])[|b.grants|] == n;
    assert b.grants + [n][..0] == b.grants;
    assert SupersedeEarlier(b.grants, [n]) <==> SupersedesEarlier(b.grants, [n], 0);
    NewId(b.grants, n);
    if n.grant.supersedes.Some? {
      HasIdSnoc(b.grants, n, n.grant.supersedes.value);
    }
  }

  lemma SameIdClashes(a: Authorization, b: Authorization)
    ensures a.id == b.id ==> AuthorizationClash(a, b)
  {
  }

  /** Following links from i arrives at k. */
  ghost predicate Reaches(links: seq<Option<nat>>, i: nat, k: nat)
    requires i < |links| && Chains(links)
    decreases i
  {
    i == k || (links[i].Some? && Reaches(links, links[i].value, k))
  }

  /** Where following links from i ends, after finitely many steps. */
  ghost function Root(links: seq<Option<nat>>, i: nat): (r: nat)
    requires i < |links| && Chains(links)
    ensures r <= i && links[r].None?
    decreases i
  {
    if links[i].Some? then Root(links, links[i].value) else i
  }

  lemma SameLink(links: seq<Option<nat>>, i: nat, k: nat)
    requires Chains(links) && i < |links| && k < |links| && links[i].Some? && links[i] == links[k]
    ensures i == k
  {
  }

  /** If i reaches what k supersedes, and is not that row itself, it reaches k: nothing else leads there. */
  lemma {:induction false} ReachesThrough(links: seq<Option<nat>>, i: nat, k: nat)
    requires Chains(links) && i < |links| && k < |links| && links[k].Some? && i != links[k].value
    requires Reaches(links, i, links[k].value)
    ensures Reaches(links, i, k)
    decreases i
  {
    if i != k {
      var next := links[i].value;
      if next == links[k].value {
        SameLink(links, i, k);
      } else {
        ReachesThrough(links, next, k);
      }
    }
  }

  /** Rows with the same root lie on one chain, so chains with different roots share nothing. */
  lemma {:induction false} OneChainPerRoot(links: seq<Option<nat>>, i: nat, k: nat)
    requires Chains(links) && i < |links| && k < |links| && Root(links, i) == Root(links, k)
    ensures Reaches(links, i, k) || Reaches(links, k, i)
    decreases i + k
  {
    if links[i].Some? && links[k].Some? {
      var a, c := links[i].value, links[k].value;
      OneChainPerRoot(links, a, c);
      if a == c {
        SameLink(links, i, k);
      } else {
        if Reaches(links, a, c) {
          ReachesThrough(links, a, k);
        } else {
          ReachesThrough(links, c, i);
        }
      }
    } else if links[i].Some? {
      RootReached(links, i);
    } else {
      RootReached(links, k);
    }
  }

  lemma {:induction false} RootReached(links: seq<Option<nat>>, i: nat)
    requires Chains(links) && i < |links|
    ensures Reaches(links, i, Root(links, i))
    decreases i
  {
    if links[i].Some? {
      RootReached(links, links[i].value);
    }
  }

  // ---- how chains break ----

  /** Rows that fit the tables and refer only to rows there, or to one another, are accepted together. */
  lemma FittingAccepted(b: Book, rows: seq<Authorization>)
    requires Consistent(b) && forall k :: 0 <= k < |rows| ==> AuthorizationChecks(rows[k])
    requires forall k :: 0 <= k < |rows| ==> HasLedger(b.ledgers, rows[k].grant.ledger)
    requires forall i, k :: 0 <= i < |b.grants| && 0 <= k < |rows| ==> !AuthorizationClash(b.grants[i], rows[k])
    requires GrantsUnique(rows)
    requires forall k :: 0 <= k < |rows| && rows[k].grant.supersedes.Some? ==>
              HasId(rows, rows[k].grant.supersedes.value)
    ensures Accepts(b, InsertGrants(rows))
  {
    hide LedgersUnique, LedgerChecks, AuthorizationClash, AuthorizationChecks;
    var all := b.grants + rows;
    forall i | 0 <= i < |all| && all[i].grant.supersedes.Some? ensures HasId(all, all[i].grant.supersedes.value) {
      var id := all[i].grant.supersedes.value;
      if i < |b.grants| {
        assert b.grants[i].grant.supersedes.Some?;
        var m :| 0 <= m < |b.grants| && b.grants[m].id == id;
        assert all[m].id == id;
      } else {
        var m :| 0 <= m < |rows| && rows[m].id == id;
        assert all[|b.grants| + m].id == id;
      }
    }
    assert GrantsUnique(all) by {
      forall i, j | 0 <= i < j < |all| ensures !AuthorizationClash(all[i], all[j]) {
        if i >= |b.grants| {
          assert !AuthorizationClash(rows[i - |b.grants|], rows[j - |b.grants|]);
        }
      }
    }
  }

  /** The foreign key lets a row supersede itself. */
  lemma SelfSupersessionAccepted(b: Book, n: Authorization)
    requires Consistent(b) && AuthorizationChecks(n) && n.grant.supersedes == Some(n.id)
    requires HasLedger(b.ledgers, n.grant.ledger)
    requires forall i :: 0 <= i < |b.grants| ==> !AuthorizationClash(b.grants[i], n)
    ensures Accepts(b, InsertGrants([n]))
    ensures !Chains(Links(Apply(b, InsertGrants([n])).grants))
  {
    hide Consistent, Accepts, AuthorizationClash, AuthorizationChecks;
    assert HasId([n], n.id) by {
      assert [n][0].id == n.id;
    }
    FittingAccepted(b, [n]);
    OneRowKeepsOrder(b, n);
    BreaksChains(b, [n]);
  }

  lemma BreaksChains(b: Book, rows: seq<Authorization>)
    requires Consistent(b) && Accepts(b, InsertGrants(rows)) && !SupersedeEarlier(b.grants, rows)
    ensures !Chains(Links(Apply(b, InsertGrants(rows)).grants))
  {
    hide LedgersUnique, LinkOf, SupersessionsHold, AuthorizationClash, SupersedeEarlier;
    InsertKeepsLinks(b.grants, rows);
    if Chains(Links(b.grants + rows)) {
      assert Links(b.grants) == Links(b.grants + rows)[..|b.grants|];
      ChainsPrefix(Links(b.grants), Links(b.grants + rows));
      InsertExact(b.grants, rows);
    }
  }

  /** Two rows inserted by one statement may supersede each other; neither names itself. */
  lemma MutualSupersessionAccepted(b: Book, a: Authorization, c: Authorization)
    requires Consistent(b) && AuthorizationChecks(a) && AuthorizationChecks(c) && !AuthorizationClash(a, c)
    requires a.grant.supersedes == Some(c.id) && c.grant.supersedes == Some(a.id)
    requires HasLedger(b.ledgers, a.grant.ledger) && HasLedger(b.ledgers, c.grant.ledger)
    requires forall i :: 0 <= i < |b.grants| ==>
              !AuthorizationClash(b.grants[i], a) && !AuthorizationClash(b.grants[i], c)
    ensures Accepts(b, InsertGrants([a, c]))
    ensures a.grant.supersedes != Some(a.id) && c.grant.supersedes != Some(c.id)
    ensures !Chains(Links(Apply(b, InsertGrants([a, c])).grants))
  {
    SameIdClashes(a, c);
    hide Consistent, Accepts, AuthorizationClash, AuthorizationChecks, Chains, Links;
    var rows := [a, c];
    assert HasId(rows, a.id) && HasId(rows, c.id) by {
      assert rows[0] == a && rows[1] == c;
    }
    FittingAccepted(b, rows);
    if SupersedeEarlier(b.grants, rows) {
      assert SupersedesEarlier(b.grants, rows, 0);
      assert b.grants + rows[..0] == b.grants;
      var i :| 0 <= i < |b.grants| && b.grants[i].id == c.id;
      SameIdClashes(b.grants[i], c);
    }
    BreaksChains(b, rows);
  }

  function Epoch(id: string, supersedes: string, envelope: string): Authorization {
    Authorization(id, Grant("ledger", "bedrock", "scope", Some(supersedes), 0, 0, envelope, []), REVOKED, Some(0))
  }

  /** Such a pair: two revoked epochs of one account. */
  lemma MutualEpochs()
    ensures var a, c := Epoch("a", "c", "first"), Epoch("c", "a", "second");
            && AuthorizationChecks(a) && AuthorizationChecks(c) && !AuthorizationClash(a, c)
            && a.grant.supersedes == Some(c.id) && c.grant.supersedes == Some(a.id)
  {
    assert "a"[0] != "c"[0] && "first"[0] != "second"[0] && REVOKED != ACTIVE by {
      assert REVOKED[0] == 'r' && ACTIVE[0] == 'a';
    }
  }

  // ---- the tables as mutable state ----

  /** The new ledger fits beside every other. */
  ghost predicate LedgerFits(s: seq<Ledger>, n: Ledger, except: int) {
    forall i :: 0 <= i < |s| && i != except ==> !LedgerClash(s[i], n)
  }

  ghost predicate GrantFits(s: seq<Authorization>, n: Authorization, except: int) {
    forall i :: 0 <= i < |s| && i != except ==> !AuthorizationClash(s[i], n)
  }

  lemma LedgerIndexes(s: seq<Ledger>, n: Ledger, t: nat)
    requires LedgersUnique(s)
    ensures LedgersUnique(s + [n]) <==> LedgerFits(s, n, -1)
    ensures t < |s| ==> (LedgersUnique(s[t := n]) <==> LedgerFits(s, n, t))
  {
    var all := s + [n];
    if LedgersUnique(all) {
      forall i | 0 <= i < |s| ensures !LedgerClash(s[i], n) {
        assert !LedgerClash(all[i], all[|s|]);
      }
    }
    if t < |s| && LedgersUnique(s[t := n]) {
      forall i | 0 <= i < |s| && i != t ensures !LedgerClash(s[i], n) {
        assert i < t ==> !LedgerClash(s[t := n][i], s[t := n][t]);
        assert t < i ==> !LedgerClash(s[t := n][t], s[t := n][i]);
      }
    }
  }

  lemma GrantIndexes(s: seq<Authorization>, n: Authorization, t: nat)
    requires GrantsUnique(s)
    ensures GrantsUnique(s + [n]) <==> GrantFits(s, n, -1)
    ensures t < |s| ==> (GrantsUnique(s[t := n]) <==> GrantFits(s, n, t))
  {
    var all := s + [n];
    if GrantsUnique(all) {
      forall i | 0 <= i < |s| ensures !AuthorizationClash(s[i], n) {
        assert !AuthorizationClash(all[i], all[|s|]);
      }
    }
    if t < |s| && GrantsUnique(s[t := n]) {
      forall i | 0 <= i < |s| && i != t ensures !AuthorizationClash(s[i], n) {
        assert i < t ==> !AuthorizationClash(s[t := n][i], s[t := n][t]);
        assert t < i ==> !AuthorizationClash(s[t := n][t], s[t := n][i]);
      }
    }
  }

  lemma UniquePrefix(s: seq<Authorization>, rows: seq<Authorization>, k: nat)
    requires k <= |rows|
    ensures GrantsUnique(s + rows) ==> GrantsUnique(s + rows[..k])
  {
    var all, part := s + rows, s + rows[..k];
    forall i | 0 <= i < |part| ensures part[i] == all[i] {
    }
  }

  class Tables {
    var book: Book

    ghost predicate Valid()
      reads this
    {
      Consistent(book)
    }

    constructor ()
      ensures Valid() && book == Book([], [])
    {
      book := Book([], []);
    }

    /** The uniqueness probe for a ledger row. */
    method ProbeLedgers(n: Ledger, except: int) returns (ok: bool)
      ensures ok <==> LedgerFits(book.ledgers, n, except)
    {
      for i := 0 to |book.ledgers|
        invariant forall k :: 0 <= k < i && k != except ==> !LedgerClash(book.ledgers[k], n)
      {
        if i != except && LedgerClash(book.ledgers[i], n) {
          return false;
        }
      }
      return true;
    }

    /** The uniqueness probe for an authorization row. */
    static method ProbeGrants(s: seq<Authorization>, n: Authorization, except: int) returns (ok: bool)
      ensures ok <==> GrantFits(s, n, except)
    {
      for i := 0 to |s|
        invariant forall k :: 0 <= k < i && k != except ==> !AuthorizationClash(s[k], n)
      {
        if i != except && AuthorizationClash(s[i], n) {
          return false;
        }
      }
      return true;
    }

    static method FindLedger(s: seq<Ledger>, id: string) returns (found: bool)
      ensures found <==> HasLedger(s, id)
    {
      for i := 0 to |s|
        invariant forall k :: 0 <= k < i ==> s[k].id != id
      {
        if s[i].id == id {
          return true;
        }
      }
      return false;
    }

    static method FindGrant(s: seq<Authorization>, id: string) returns (found: bool)
      ensures found <==> HasId(s, id)
    {
      for i := 0 to |s|
        invariant forall k :: 0 <= k < i ==> s[k].id != id
      {
        if s[i].id == id {
          return true;
        }
      }
      return false;
    }

    /** The foreign-key check at the end of a statement. */
    static method CheckReferences(b: Book) returns (ok: bool)
      ensures ok <==> ReferencesHold(b)
    {
      for i := 0 to |b.grants|
        invariant forall k :: 0 <= k < i ==> HasLedger(b.ledgers, b.grants[k].grant.ledger)
        invariant forall k :: 0 <= k < i && b.grants[k].grant.supersedes.Some? ==>
                    HasId(b.grants, b.grants[k].grant.supersedes.value)
      {
        ok := FindLedger(b.ledgers, b.grants[i].grant.ledger);
        if !ok {
          return;
        }
        if b.grants[i].grant.supersedes.Some? {
          ok := FindGrant(b.grants, b.grants[i].grant.supersedes.value);
          if !ok {
            return;
          }
        }
      }
      return true;
    }

    method InsertLedger(n: Ledger) returns (ok: bool)
      requires Valid()
      modifies this
      ensures Valid()
      ensures ok <==> Accepts(old(book), Statement.InsertLedger(n))
      ensures book == Apply(old(book), Statement.InsertLedger(n))
      ensures book.grants == old(book.grants)
      ensures book.ledgers == if ok then old(book.ledgers) + [n] else old(book.ledgers)
    {
      hide LedgersUnique, LedgerFits, GrantsUnique, ReferencesHold, LedgerChecks, AuthorizationChecks, PgRaises;
      if PgRaises(None, CountersOf(n)) || !LedgerChecks(n) {
        return false;
      }
      LedgerIndexes(book.ledgers, n, 0);
      ok := ProbeLedgers(n, -1);
      if ok {
        var after := book.(ledgers := book.ledgers + [n]);
        ok := CheckReferences(after);
        if ok {
          book := after;
        }
      }
    }

    /** Spending, reserving, activating and revoking: every in-place change of a ledger row. */
    method UpdateLedger(t: nat, n: Ledger) returns (ok: bool)
      requires Valid()
      modifies this
      ensures Valid()
      ensures ok <==> Accepts(old(book), Statement.UpdateLedger(t, n))
      ensures book == Apply(old(book), Statement.UpdateLedger(t, n))
      ensures ok ==> t < |old(book.ledgers)| && book == Book(old(book.ledgers)[t := n], old(book.grants))
      ensures !ok ==> book == old(book)
    {
      hide LedgersUnique, LedgerFits, GrantsUnique, ReferencesHold;
      hide LedgerChecks, AuthorizationChecks, PgRaises, LedgerRaises;
      if t >= |book.ledgers| || LedgerRaises(book.ledgers[t], n)
        || PgRaises(Some(CountersOf(book.ledgers[t])), CountersOf(n)) || !LedgerChecks(n) {
        return false;
      }
      LedgerIndexes(book.ledgers, n, t);
      ok := ProbeLedgers(n, t);
      if ok {
        var after := book.(ledgers := book.ledgers[t := n]);
        ok := CheckReferences(after);
        if ok {
          book := after;
        }
      }
    }

    /** New authorization epochs: rows are checked one after the other, references once all are in. */
    method InsertGrants(rows: seq<Authorization>) returns (ok: bool)
      requires Valid()
      modifies this
      ensures Valid()
      ensures ok <==> Accepts(old(book), Statement.InsertGrants(rows))
      ensures book == Apply(old(book), Statement.InsertGrants(rows))
      ensures book.ledgers == old(book.ledgers)
      ensures book.grants == if ok then old(book.grants) + rows else old(book.grants)
    {
      hide LedgersUnique, GrantFits, GrantsUnique, ReferencesHold, LedgerChecks, AuthorizationChecks;
      var grants := book.grants;
      assert book.grants + rows[..0] == book.grants;
      for i := 0 to |rows|
        invariant book == old(book) && grants == book.grants + rows[..i] && GrantsUnique(grants)
        invariant forall k :: 0 <= k < i ==> AuthorizationChecks(rows[k])
      {
        if !AuthorizationChecks(rows[i]) {
          return false;
        }
        GrantIndexes(grants, rows[i], 0);
        UniquePrefix(book.grants, rows, i + 1);
        assert grants + [rows[i]] == book.grants + rows[..i + 1];
        ok := ProbeGrants(grants, rows[i], -1);
        if !ok {
          return;
        }
        grants := grants + [rows[i]];
      }
      assert book.grants + rows[..|rows|] == book.grants + rows;
      var after := book.(grants := grants);
      ok := CheckReferences(after);
      if ok {
        book := after;
      }
    }

    /** Revoking an authorization epoch. */
    method UpdateGrant(t: nat, n: Authorization) returns (ok: bool)
      requires Valid()
      modifies this
      ensures Valid()
      ensures ok <==> Accepts(old(book), Statement.UpdateGrant(t, n))
      ensures book == Apply(old(book), Statement.UpdateGrant(t, n))
      ensures ok ==> t < |old(book.grants)| && book == Book(old(book.ledgers), old(book.grants)[t := n])
      ensures !ok ==> book == old(book)
    {
      hide LedgersUnique, GrantFits, GrantsUnique, ReferencesHold;
      hide LedgerChecks, AuthorizationChecks, AuthorizationRaises;
      if t >= |book.grants| || AuthorizationRaises(book.grants[t], n) || !AuthorizationChecks(n) {
        return false;
      }
      GrantIndexes(book.grants, n, t);
      ok := ProbeGrants(book.grants, n, t);
      if ok {
        var after := book.(grants := book.grants[t := n]);
        ok := CheckReferences(after);
        if ok {
          book := after;
        }
      }
    }

    /** The delete triggers raise whatever the row. */
    method DeleteLedger(t: nat) returns (ok: bool)
      requires Valid()
      ensures !ok && !Accepts(book, Statement.DeleteLedger(t)) && Apply(book, Statement.DeleteLedger(t)) == book
    {
      return false;
    }

    method DeleteGrant(t: nat) returns (ok: bool)
      requires Valid()
      ensures !ok && !Accepts(book, Statement.DeleteGrant(t)) && Apply(book, Statement.DeleteGrant(t)) == book
    {
      return false;
    }
  }
}
