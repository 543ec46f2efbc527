/**
 The row guards on leaderboard_snapshots (alembic/versions/0012_snapshot_publication_integrity.py and
 alembic/versions/0013_snapshot_evidence_seal.py), in both dialects, and the whole-row guard PostgreSQL has besides
 (alembic/versions/0009_commercial_run_integrity.py, in the form of alembic/versions/0016_runtime_budget_authority.py).
 A trigger sees nullable columns.
 */
module SnapshotGuards {
  import opened Outcomes
  import opened SqlLogic

  type Text = Option<string>

  /** The columns the seal covers. JSON columns hold their stored text; times are opaque integers. */
  datatype Content = Content(
    season: Text, track: Text, cohort: Text, category: Text, stratum: Text, controlledRun: Text,
    inputSha: Text, evidenceSha: Text, evidenceJson: Text, payloadSha: Text, payloadJson: Text,
    cutoff: Option<int>, supersedes: Text, createdAt: Option<int>)

  datatype Snapshot = Snapshot(id: Text, content: Content, status: Text, referenceSha: Text, publishedAt: Option<int>)

  datatype Dialect = PostgreSQL | SQLite

  const DRAFT := "draft"
  const PUBLISHED := "published"
  const WITHDRAWN := "withdrawn"

  // ---- insert ----

  function PgInsertCondition(n: Snapshot): seq<Truth> {
    [ Differs(n.status, Some(DRAFT)),
      Not(IsNull(n.referenceSha)),
      Not(IsNull(n.publishedAt)),
      IsNull(n.content.cutoff),
      NotDigestRegex(n.content.inputSha),
      IsNull(n.content.evidenceSha),
      NotDigestRegex(n.content.evidenceSha),
      IsNull(n.content.evidenceJson),
      IsNull(n.content.payloadSha),
      NotDigestRegex(n.content.payloadSha) ]
  }

  function SqliteInsertCondition(n: Snapshot): seq<Truth> {
    [ Differs(n.status, Some(DRAFT)),
      Not(IsNull(n.referenceSha)),
      Not(IsNull(n.publishedAt)),
      IsNull(n.content.cutoff),
      LengthNot64(n.content.inputSha),
      GlobNonHex(n.content.inputSha),
      IsNull(n.content.evidenceSha),
      LengthNot64(n.content.evidenceSha),
      GlobNonHex(n.content.evidenceSha),
      IsNull(n.content.evidenceJson),
      IsNull(n.content.payloadSha),
      LengthNot64(n.content.payloadSha),
      GlobNonHex(n.content.payloadSha) ]
  }

  predicate InsertRaises(dialect: Dialect, n: Snapshot) {
    Fires(AnyOf(if dialect.PostgreSQL? then PgInsertCondition(n) else SqliteInsertCondition(n)))
  }

  // ---- update: content ----

  /** The immutable-column comparison, the same list in both dialects. */
  function ContentCondition(o: Snapshot, n: Snapshot): seq<Truth> {
    [ IsDistinct(o.content.season, n.content.season),
      IsDistinct(o.content.track, n.content.track),
      IsDistinct(o.content.cohort, n.content.cohort),
      IsDistinct(o.content.category, n.content.category),
      IsDistinct(o.content.stratum, n.content.stratum),
      IsDistinct(o.content.controlledRun, n.content.controlledRun),
      IsDistinct(o.content.inputSha, n.content.inputSha),
      IsDistinct(o.content.evidenceSha, n.content.evidenceSha),
      IsDistinct(o.content.evidenceJson, n.content.evidenceJson),
      IsDistinct(o.content.payloadSha, n.content.payloadSha),
      IsDistinct(o.content.payloadJson, n.content.payloadJson),
      IsDistinct(o.content.cutoff, n.content.cutoff),
      IsDistinct(o.content.supersedes, n.content.supersedes),
      IsDistinct(o.content.createdAt, n.content.createdAt) ]
  }

  predicate ContentRaises(o: Snapshot, n: Snapshot) {
    Fires(AnyOf(ContentCondition(o, n)))
  }

  // ---- update: publication ----

  function Publishing(o: Snapshot, n: Snapshot): Truth {
    And(Equals(o.status, Some(DRAFT)), Equals(n.status, Some(PUBLISHED)))
  }

  function MetadataChanged(o: Snapshot, n: Snapshot): Truth {
    Or(IsDistinct(o.referenceSha, n.referenceSha), IsDistinct(o.publishedAt, n.publishedAt))
  }

  function PgUnsealed(n: Snapshot): seq<Truth> {
    [ IsNull(n.referenceSha),
      NotDigestRegex(n.referenceSha),
      IsNull(n.publishedAt),
      NotDigestRegex(n.content.inputSha),
      IsNull(n.content.evidenceSha),
      NotDigestRegex(n.content.evidenceSha),
      IsNull(n.content.evidenceJson),
      IsNull(n.content.payloadSha),
      NotDigestRegex(n.content.payloadSha) ]
  }

  function SqliteUnsealed(n: Snapshot): seq<Truth> {
    [ IsNull(n.referenceSha),
      IsNull(n.publishedAt),
      LengthNot64(n.referenceSha),
      GlobNonHex(n.referenceSha),
      LengthNot64(n.content.inputSha),
      GlobNonHex(n.content.inputSha),
      IsNull(n.content.evidenceSha),
      LengthNot64(n.content.evidenceSha),
      GlobNonHex(n.content.evidenceSha),
      IsNull(n.content.evidenceJson),
      IsNull(n.content.payloadSha),
      LengthNot64(n.content.payloadSha),
      GlobNonHex(n.content.payloadSha) ]
  }

  /** PL/pgSQL: IF publishing THEN (IF unsealed THEN raise) ELSIF metadata changed THEN raise. */
  predicate PgPublicationRaises(o: Snapshot, n: Snapshot) {
    if Fires(Publishing(o, n)) then Fires(AnyOf(PgUnsealed(n))) else Fires(MetadataChanged(o, n))
  }

  /** SQLite: one condition, (publishing AND unsealed) OR (NOT publishing AND metadata changed). */
  predicate SqlitePublicationRaises(o: Snapshot, n: Snapshot) {
    Fires(Or(And(Publishing(o, n), AnyOf(SqliteUnsealed(n))), And(Not(Publishing(o, n)), MetadataChanged(o, n))))
  }

  predicate PublicationRaises(dialect: Dialect, o: Snapshot, n: Snapshot) {
    if dialect.PostgreSQL? then PgPublicationRaises(o, n) else SqlitePublicationRaises(o, n)
  }

  // ---- update: status ----

  /**
   The forward-only status trigger, the same condition in both dialects. It runs only when the statement sets
   the status; when it does not, old and new status are equal and the condition is not true either.
   */
  predicate StatusRaises(o: Snapshot, n: Snapshot) {
    Fires(Not(Or(Equals(o.status, n.status),
      Or(And(Equals(o.status, Some(DRAFT)), InPair(n.status, PUBLISHED, WITHDRAWN)),
         And(Equals(o.status, Some(PUBLISHED)), Equals(n.status, Some(WITHDRAWN)))))))
  }

  // ---- update: the whole row, in PostgreSQL only ----

  /** A JSON column as a jsonb normal form leaves it. */
  function Normal(form: string -> string, column: Text): Text {
    if column.None? then None else Some(form(column.value))
  }

  /** `to_jsonb(row) - mutable_fields`: every column outside the three of the publication, JSON ones in normal form. */
  function FixedPart(form: string -> string, s: Snapshot): (Text, Content) {
    var c := s.content;
    (s.id, c.(evidenceJson := Normal(form, c.evidenceJson), payloadJson := Normal(form, c.payloadJson)))
  }

  predicate WholeRowRaises(form: string -> string, o: Snapshot, n: Snapshot) {
    Fires(IsDistinct(Some(FixedPart(form, o)), Some(FixedPart(form, n))))
  }

  function AsStored(text: string): string {
    text
  }

  predicate UpdateRaises(dialect: Dialect, o: Snapshot, n: Snapshot) {
    || ContentRaises(o, n) || PublicationRaises(dialect, o, n) || StatusRaises(o, n)
    || (dialect.PostgreSQL? && WholeRowRaises(AsStored, o, n))
  }

  /**
   Beside the content guard, which compares JSON columns as text, it does not matter how the whole-row guard
   normalises them: what it adds is that the id is fixed.
   */
  lemma WholeRowAddsId(form: string -> string, o: Snapshot, n: Snapshot)
    ensures ContentRaises(o, n) || WholeRowRaises(form, o, n) <==> o.content != n.content || o.id != n.id
  {
    hide ContentRaises;
    ContentMeans(o, n);
  }

  // ---- column constraints ----

  /** NOT NULL columns, and the CHECK that a status is one of three. */
  predicate ColumnsHold(n: Snapshot) {
    && n.id.Some? && n.content.season.Some? && n.content.track.Some? && n.content.cohort.Some?
    && n.content.category.Some? && n.content.stratum.Some? && n.content.inputSha.Some?
    && n.content.payloadJson.Some? && n.content.createdAt.Some?
    && n.status.Some? && n.status.value in {DRAFT, PUBLISHED, WITHDRAWN}
  }

  /** PostgreSQL alone also declares the evidence cutoff NOT NULL. */
  predicate ConstraintsHold(dialect: Dialect, n: Snapshot) {
    ColumnsHold(n) && (dialect.PostgreSQL? ==> n.content.cutoff.Some?)
  }

  // ---- what the guards mean ----

  predicate Sealed(c: Content) {
    && c.evidenceJson.Some?
    && c.inputSha.Some? && WellFormedDigest(c.inputSha.value)
    && c.evidenceSha.Some? && WellFormedDigest(c.evidenceSha.value)
    && c.payloadSha.Some? && WellFormedDigest(c.payloadSha.value)
  }

  /** In either dialect an insert goes through exactly for a sealed draft without publication metadata. */
  lemma InsertMeans(dialect: Dialect, n: Snapshot)
    requires ColumnsHold(n)
    ensures !InsertRaises(dialect, n) <==>
            n.status == Some(DRAFT) && n.referenceSha.None? && n.publishedAt.None? && n.content.cutoff.Some?
              && Sealed(n.content)
  {
    hide AnyOf, NotDigestRegex, LengthNot64, GlobNonHex, WellFormedDigest;
    AnyOfFires(PgInsertCondition(n));
    AnyOfFires(SqliteInsertCondition(n));
    DigestTestsAgree(n.content.inputSha);
    DigestTestsAgree(n.content.evidenceSha);
    DigestTestsAgree(n.content.payloadSha);
  }

  /** The immutable-column list leaves out none of the sealed columns. */
  lemma ContentMeans(o: Snapshot, n: Snapshot)
    ensures ContentRaises(o, n) <==> o.content != n.content
  {
    hide AnyOf;
    AnyOfFires(ContentCondition(o, n));
  }

  /** The publication guards agree unless it is unknown whether the row is being published. */
  lemma PublicationAgrees(o: Snapshot, n: Snapshot)
    ensures PgPublicationRaises(o, n) == SqlitePublicationRaises(o, n) <==>
            !(Publishing(o, n) == Unknown && Fires(MetadataChanged(o, n)))
  {
    hide AnyOf, NotDigestRegex, LengthNot64, GlobNonHex;
    AnyOfFires(PgUnsealed(n));
    AnyOfFires(SqliteUnsealed(n));
    DigestTestsAgree(n.referenceSha);
    DigestTestsAgree(n.content.inputSha);
    DigestTestsAgree(n.content.evidenceSha);
    DigestTestsAgree(n.content.payloadSha);
  }

  predicate PublishedProperly(n: Snapshot) {
    n.referenceSha.Some? && WellFormedDigest(n.referenceSha.value) && n.publishedAt.Some?
  }

  predicate Forward(before: string, after: string) {
    before == after || before == DRAFT || (before == PUBLISHED && after == WITHDRAWN)
  }

  /**
   An update goes through exactly when it keeps the content, moves the status forward, and sets the metadata only
   by publishing properly; in PostgreSQL it must keep the id as well.
   */
  lemma UpdateMeans(dialect: Dialect, o: Snapshot, n: Snapshot)
    requires ColumnsHold(o) && ColumnsHold(n)
    ensures !UpdateRaises(dialect, o, n) <==>
            && o.content == n.content
            && (dialect.PostgreSQL? ==> o.id == n.id)
            && Forward(o.status.value, n.status.value)
            && if o.status == Some(DRAFT) && n.status == Some(PUBLISHED) then PublishedProperly(n) && Sealed(n.content)
               else o.referenceSha == n.referenceSha && o.publishedAt == n.publishedAt
  {
    hide AnyOf, NotDigestRegex, LengthNot64, GlobNonHex, ContentRaises, WholeRowRaises, WellFormedDigest;
    ContentMeans(o, n);
    WholeRowAddsId(AsStored, o, n);
    PublicationAgrees(o, n);
    AnyOfFires(PgUnsealed(n));
    DigestTestsAgree(n.referenceSha);
    DigestTestsAgree(n.content.inputSha);
    DigestTestsAgree(n.content.evidenceSha);
    DigestTestsAgree(n.content.payloadSha);
  }

  /** The dialects agree on every insert, once column constraints have their say. */
  lemma InsertsAgree(n: Snapshot)
    ensures !InsertRaises(PostgreSQL, n) && ConstraintsHold(PostgreSQL, n) <==>
            !InsertRaises(SQLite, n) && ConstraintsHold(SQLite, n)
  {
    hide InsertRaises;
    if ColumnsHold(n) {
      InsertMeans(PostgreSQL, n);
      InsertMeans(SQLite, n);
    }
  }

  predicate UpdatePasses(dialect: Dialect, o: Snapshot, n: Snapshot) {
    !UpdateRaises(dialect, o, n) && ConstraintsHold(dialect, n)
  }

  /**
   On a stored row the dialects agree exactly when an update keeps the id or both refuse it; PostgreSQL is the
   stricter.
   */
  lemma UpdatesAgree(o: Snapshot, n: Snapshot)
    requires ColumnsHold(o) && o.content.cutoff.Some?
    ensures (UpdatePasses(PostgreSQL, o, n) <==> UpdatePasses(SQLite, o, n)) <==>
            o.id == n.id || !UpdatePasses(SQLite, o, n)
    ensures UpdatePasses(PostgreSQL, o, n) ==> UpdatePasses(SQLite, o, n) && o.id == n.id
  {
    hide UpdateRaises, Sealed, PublishedProperly;
    if ColumnsHold(n) {
      UpdateMeans(PostgreSQL, o, n);
      UpdateMeans(SQLite, o, n);
    }
  }

  /** The triggers by themselves do differ: a null status hides a metadata change from SQLite's alone. */
  lemma TriggersAloneDiffer(o: Snapshot)
    requires o.status == Some(DRAFT) && o.referenceSha.None?
    ensures var n := o.(status := None, referenceSha := Some(""));
            PublicationRaises(PostgreSQL, o, n) && UpdateRaises(PostgreSQL, o, n) && !UpdateRaises(SQLite, o, n)
  {
    hide AnyOf, ContentCondition, SqliteUnsealed;
    var n := o.(status := None, referenceSha := Some(""));
    ContentMeans(o, n);
  }
}
