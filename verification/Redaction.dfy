/**
 The redaction seals on tool_calls and validator_results
 (alembic/versions/0013_snapshot_evidence_seal.py), in both dialects. A JSON column keeps an object's members as
 they were written, repeated names included. PostgreSQL compares it as jsonb, which keeps the last value of a
 repeated name; SQLite looks at the first member of a name and counts the members.
 */
module Redaction {
  import opened Outcomes
  import opened SqlLogic
  import opened SnapshotGuards

  datatype Json =
    | JNull
    | JBool(b: bool)
    | JInteger(i: int)
    | JReal(r: real)
    | JString(s: string)
    | JArray(items: seq<Json>)
    | JObject(members: seq<Member>)

  datatype Member = Member(name: string, value: Json)

  /** PostgreSQL's decomposed form. */
  datatype Jsonb =
    | BNull
    | BBool(b: bool)
    | BNumber(n: real)
    | BString(s: string)
    | BArray(items: seq<Jsonb>)
    | BObject(members: map<string, Jsonb>)

  const REDACTED := "redacted"
  const SENTINEL := "[REDACTED AFTER OPERATIONAL RETENTION]"

  function Names(members: seq<Member>): set<string> {
    set i | 0 <= i < |members| :: members[i].name
  }

  function LastNamed(members: seq<Member>, name: string): (i: nat)
    requires name in Names(members)
    ensures i < |members| && members[i].name == name
    ensures forall k :: i < k < |members| ==> members[k].name != name
  {
    var n := |members| - 1;
    if members[n].name == name then n else LastNamed(members[..n], name)
  }

  function ToJsonb(v: Json): Jsonb {
    match v
    case JNull => BNull
    case JBool(b) => BBool(b)
    case JInteger(i) => BNumber(i as real)
    case JReal(r) => BNumber(r)
    case JString(s) => BString(s)
    case JArray(items) => BArray(seq(|items|, i requires 0 <= i < |items| => ToJsonb(items[i])))
    case JObject(members) =>
      BObject(map name | name in Names(members) :: ToJsonb(members[LastNamed(members, name)].value))
  }

  /** `column::jsonb IS DISTINCT FROM '{"redacted": true}'::jsonb`. */
  function PgNotRedacted(column: Option<Json>): Truth {
    IsDistinct(
      match column case None => None case Some(v) => Some(ToJsonb(v)),
      Some(BObject(map[REDACTED := BBool(true)])))
  }

  /** `json_type(column, '$')`. */
  function JsonType(v: Json): string {
    match v
    case JNull => "null"
    case JBool(b) => if b then "true" else "false"
    case JInteger(_) => "integer"
    case JReal(_) => "real"
    case JString(_) => "text"
    case JArray(_) => "array"
    case JObject(_) => "object"
  }

  /** `json_type(column, '$.name')`: the type of the first member so named, null when there is none. */
  function FirstNamedType(members: seq<Member>, name: string): Option<string> {
    if members == [] then None
    else if members[0].name == name then Some(JsonType(members[0].value))
    else FirstNamedType(members[1..], name)
  }

  function TypeAt(column: Option<Json>, name: string): Option<string> {
    if column.Some? && column.value.JObject? then FirstNamedType(column.value.members, name) else None
  }

  /** `(SELECT COUNT(*) FROM json_each(column))`. */
  function EachCount(column: Option<Json>): nat {
    match column
    case None => 0
    case Some(JArray(items)) => |items|
    case Some(JObject(members)) => |members|
    case Some(_) => 1
  }

  function SqliteNotRedacted(column: Option<Json>): seq<Truth> {
    [ IsDistinct(match column case None => None case Some(v) => Some(JsonType(v)), Some("object")),
      IsDistinct(TypeAt(column, REDACTED), Some("true")),
      IsDistinct(Some(EachCount(column)), Some(1)) ]
  }

  // ---- what each seal admits ----

  predicate DocumentPasses(dialect: Dialect, column: Option<Json>) {
    if dialect.PostgreSQL? then !Fires(PgNotRedacted(column)) else !Fires(AnyOf(SqliteNotRedacted(column)))
  }

  /** Every member is called "redacted", and the last one is true. */
  predicate OnlyRedacted(members: seq<Member>) {
    && members != []
    && (forall i :: 0 <= i < |members| ==> members[i].name == "redacted")
    && members[|members| - 1].value == JBool(true)
  }

  /** The SQLite seal admits one document only. */
  lemma SqliteDocument(column: Option<Json>)
    ensures DocumentPasses(SQLite, column) <==> column == Some(JObject([Member("redacted", JBool(true))]))
  {
    AnyOfFires(SqliteNotRedacted(column));
    assert True in SqliteNotRedacted(column) <==>
      SqliteNotRedacted(column)[0] == True || SqliteNotRedacted(column)[1] == True
        || SqliteNotRedacted(column)[2] == True;
    if column.Some? && column.value.JObject? && |column.value.members| == 1 {
      var m := column.value.members;
      assert m == [m[0]];
      assert m[1..] == [];
      assert FirstNamedType(m[1..], REDACTED) == None;
      TrueIsTrue(m[0].value);
    }
  }

  lemma TrueIsTrue(v: Json)
    ensures JsonType(v) == "true" <==> v == JBool(true)
    ensures ToJsonb(v) == BBool(true) <==> v == JBool(true)
  {
    assert "true"[0] == 't' && "null"[0] == 'n' && "false"[0] == 'f' && "integer"[0] == 'i' && "real"[0] == 'r';
    assert "array"[0] == 'a' && "object"[0] == 'o' && |"text"| == |"true"| && "text"[1] == 'e' && "true"[1] == 'r';
  }

  /** The PostgreSQL seal admits exactly the objects that say "redacted" and nothing else, finally true. */
  lemma PgDocument(column: Option<Json>)
    ensures DocumentPasses(PostgreSQL, column) <==>
            column.Some? && column.value.JObject? && OnlyRedacted(column.value.members)
  {
    if column.Some? && column.value.JObject? {
      var m := column.value.members;
      var b := ToJsonb(column.value);
      assert b.members.Keys == Names(m);
      if m != [] {
        var n := |m| - 1;
        assert m[n].name in Names(m);
        assert LastNamed(m, m[n].name) == n;
        assert b.members[m[n].name] == ToJsonb(m[n].value);
        TrueIsTrue(m[n].value);
        forall i | 0 <= i < |m| ensures m[i].name in b.members.Keys {
        }
        if OnlyRedacted(m) {
          assert Names(m) == {REDACTED};
          assert b.members == map[REDACTED := BBool(true)];
        }
      } else {
        assert b.members == map[];
        assert REDACTED !in b.members;
      }
    }
  }

  /** The documents the dialects disagree on: "redacted" said more than once, finally true. */
  predicate RepeatedRedaction(column: Option<Json>) {
    column.Some? && column.value.JObject? && |column.value.members| > 1 && OnlyRedacted(column.value.members)
  }

  /** The two seals admit the same document exactly when it is not a repeated redaction; SQLite's is the stricter. */
  lemma SealsAgree(column: Option<Json>)
    ensures (DocumentPasses(PostgreSQL, column) <==> DocumentPasses(SQLite, column)) <==> !RepeatedRedaction(column)
    ensures DocumentPasses(SQLite, column) ==> DocumentPasses(PostgreSQL, column)
  {
    hide DocumentPasses;
    SqliteDocument(column);
    PgDocument(column);
    if column.Some? && column.value.JObject? && |column.value.members| == 1 {
      assert column.value.members == [column.value.members[0]];
    }
  }

  /** The smallest such document: PostgreSQL lets it through, SQLite does not. */
  lemma SealsDisagree()
    ensures DocumentPasses(PostgreSQL, Some(JObject([Member(REDACTED, JBool(false)), Member(REDACTED, JBool(true))])))
    ensures !DocumentPasses(SQLite, Some(JObject([Member(REDACTED, JBool(false)), Member(REDACTED, JBool(true))])))
  {
    hide DocumentPasses;
    var d := Some(JObject([Member(REDACTED, JBool(false)), Member(REDACTED, JBool(true))]));
    PgDocument(d);
    SealsAgree(d);
  }

  // ---- the guarded tables ----

  datatype CallKeys = CallKeys(
    id: Text, arm: Text, round: Option<int>, call: Option<int>, toolCall: Text, toolName: Text, argumentsSha: Text,
    resultSha: Text, structuredSha: Text, latency: Option<int>, isError: Option<bool>, createdAt: Option<int>)

  datatype ToolCall = ToolCall(keys: CallKeys, resultText: Text, arguments: Option<Json>, structured: Option<Json>)

  datatype ResultKeys = ResultKeys(
    id: Text, arm: Text, name: Text, version: Text, status: Text, score: Option<int>, detailSha: Text,
    createdAt: Option<int>)

  datatype ValidatorResult = ValidatorResult(keys: ResultKeys, detail: Option<Json>)

  function CallKeysChanged(o: CallKeys, n: CallKeys): seq<Truth> {
    [ IsDistinct(o.id, n.id),
      IsDistinct(o.arm, n.arm),
      IsDistinct(o.round, n.round),
      IsDistinct(o.call, n.call),
      IsDistinct(o.toolCall, n.toolCall),
      IsDistinct(o.toolName, n.toolName),
      IsDistinct(o.argumentsSha, n.argumentsSha),
      IsDistinct(o.resultSha, n.resultSha),
      IsDistinct(o.structuredSha, n.structuredSha),
      IsDistinct(o.latency, n.latency),
      IsDistinct(o.isError, n.isError),
      IsDistinct(o.createdAt, n.createdAt) ]
  }

  function ResultKeysChanged(o: ResultKeys, n: ResultKeys): seq<Truth> {
    [ IsDistinct(o.id, n.id),
      IsDistinct(o.arm, n.arm),
      IsDistinct(o.name, n.name),
      IsDistinct(o.version, n.version),
      IsDistinct(o.status, n.status),
      IsDistinct(o.score, n.score),
      IsDistinct(o.detailSha, n.detailSha),
      IsDistinct(o.createdAt, n.createdAt) ]
  }

  function NotRedacted(dialect: Dialect, column: Option<Json>): seq<Truth> {
    if dialect.PostgreSQL? then [PgNotRedacted(column)] else SqliteNotRedacted(column)
  }

  predicate CallUpdateRaises(dialect: Dialect, o: ToolCall, n: ToolCall) {
    Fires(AnyOf(
      CallKeysChanged(o.keys, n.keys)
      + [IsDistinct(n.resultText, Some(SENTINEL))]
      + NotRedacted(dialect, n.arguments)
      + NotRedacted(dialect, n.structured)))
  }

  predicate ResultUpdateRaises(dialect: Dialect, o: ValidatorResult, n: ValidatorResult) {
    Fires(AnyOf(ResultKeysChanged(o.keys, n.keys) + NotRedacted(dialect, n.detail)))
  }

  /** A trace whose payload is gone and says so. */
  predicate CallRedacted(dialect: Dialect, c: ToolCall) {
    c.resultText == Some(SENTINEL) && DocumentPasses(dialect, c.arguments) && DocumentPasses(dialect, c.structured)
  }

  lemma NotRedactedMeans(dialect: Dialect, column: Option<Json>)
    ensures True in NotRedacted(dialect, column) <==> !DocumentPasses(dialect, column)
  {
    AnyOfFires(SqliteNotRedacted(column));
  }

  lemma CallKeysMean(o: CallKeys, n: CallKeys)
    ensures True in CallKeysChanged(o, n) <==> o != n
  {
    var s := CallKeysChanged(o, n);
    assert s[0] in s && s[1] in s && s[2] in s && s[3] in s && s[4] in s && s[5] in s;
    assert s[6] in s && s[7] in s && s[8] in s && s[9] in s && s[10] in s && s[11] in s;
  }

  lemma ResultKeysMean(o: ResultKeys, n: ResultKeys)
    ensures True in ResultKeysChanged(o, n) <==> o != n
  {
    var s := ResultKeysChanged(o, n);
    assert s[0] in s && s[1] in s && s[2] in s && s[3] in s && s[4] in s && s[5] in s && s[6] in s && s[7] in s;
  }

  /** A tool call's one admitted update is its redaction. */
  lemma CallUpdateMeans(dialect: Dialect, o: ToolCall, n: ToolCall)
    ensures CallRedacted(dialect, n) <==>
            && n.resultText == Some("[REDACTED AFTER OPERATIONAL RETENTION]")
            && DocumentPasses(dialect, n.arguments) && DocumentPasses(dialect, n.structured)
    ensures CallUpdateRaises(dialect, o, n) <==> !(n.keys == o.keys && CallRedacted(dialect, n))
  {
    hide CallKeysChanged, NotRedacted, DocumentPasses;
    var a, b := CallKeysChanged(o.keys, n.keys), [IsDistinct(n.resultText, Some(SENTINEL))];
    var c, d := NotRedacted(dialect, n.arguments), NotRedacted(dialect, n.structured);
    AnyOfFires(a + b + c + d);
    assert True in a + b + c + d <==> True in a || True in b || True in c || True in d;
    CallKeysMean(o.keys, n.keys);
    NotRedactedMeans(dialect, n.arguments);
    NotRedactedMeans(dialect, n.structured);
  }

  /** A validator result's one admitted update is its redaction. */
  lemma ResultUpdateMeans(dialect: Dialect, o: ValidatorResult, n: ValidatorResult)
    ensures ResultUpdateRaises(dialect, o, n) <==> !(n.keys == o.keys && DocumentPasses(dialect, n.detail))
  {
    hide ResultKeysChanged, NotRedacted, DocumentPasses;
    var a, c := ResultKeysChanged(o.keys, n.keys), NotRedacted(dialect, n.detail);
    AnyOfFires(a + c);
    ResultKeysMean(o.keys, n.keys);
    NotRedactedMeans(dialect, n.detail);
  }

  /** The dialects differ on an update exactly when it redacts a trace with a document that repeats itself. */
  lemma CallUpdatesAgree(o: ToolCall, n: ToolCall)
    ensures (CallUpdateRaises(PostgreSQL, o, n) <==> CallUpdateRaises(SQLite, o, n)) <==>
            !(n.keys == o.keys && CallRedacted(PostgreSQL, n)
              && (RepeatedRedaction(n.arguments) || RepeatedRedaction(n.structured)))
    ensures !CallUpdateRaises(SQLite, o, n) ==> !CallUpdateRaises(PostgreSQL, o, n)
  {
    hide CallUpdateRaises, DocumentPasses, RepeatedRedaction;
    CallUpdateMeans(PostgreSQL, o, n);
    CallUpdateMeans(SQLite, o, n);
    SealsAgree(n.arguments);
    SealsAgree(n.structured);
  }

  lemma ResultUpdatesAgree(o: ValidatorResult, n: ValidatorResult)
    ensures (ResultUpdateRaises(PostgreSQL, o, n) <==> ResultUpdateRaises(SQLite, o, n)) <==>
            !(n.keys == o.keys && RepeatedRedaction(n.detail))
    ensures !ResultUpdateRaises(SQLite, o, n) ==> !ResultUpdateRaises(PostgreSQL, o, n)
  {
    hide ResultUpdateRaises;
    ResultUpdateMeans(PostgreSQL, o, n);
    ResultUpdateMeans(SQLite, o, n);
    SealsAgree(n.detail);
    PgDocument(n.detail);
  }

  // ---- every run ----

  datatype Statement =
    | RecordCall(call: ToolCall)
    | UpdateCall(target: nat, call: ToolCall)
    | DeleteCall(target: nat)
    | RecordResult(result: ValidatorResult)
    | UpdateResult(target: nat, result: ValidatorResult)
    | DeleteResult(target: nat)

  datatype State = State(calls: seq<ToolCall>, results: seq<ValidatorResult>)

  /** The tables after a statement; a rejected one changes nothing. */
  function Apply(dialect: Dialect, s: State, t: Statement): State {
    match t
    case RecordCall(c) => s.(calls := s.calls + [c])
    case UpdateCall(i, c) =>
      if i < |s.calls| && !CallUpdateRaises(dialect, s.calls[i], c) then s.(calls := s.calls[i := c]) else s
    case DeleteCall(_) => s
    case RecordResult(r) => s.(results := s.results + [r])
    case UpdateResult(i, r) =>
      if i < |s.results| && !ResultUpdateRaises(dialect, s.results[i], r) then s.(results := s.results[i := r]) else s
    case DeleteResult(_) => s
  }

  function Run(dialect: Dialect, s: State, statements: seq<Statement>): State {
    if statements == [] then s
    else Apply(dialect, Run(dialect, s, statements[..|statements| - 1]), statements[|statements| - 1])
  }

  /** The two tables, changed one statement at a time. */
  class Tables {
    const dialect: Dialect
    var calls: seq<ToolCall>
    var results: seq<ValidatorResult>

    constructor (dialect: Dialect)
      ensures this.dialect == dialect && Contents() == State([], [])
    {
      this.dialect := dialect;
      calls, results := [], [];
    }

    function Contents(): State
      reads this
    {
      State(calls, results)
    }

    method RecordCallRow(c: ToolCall)
      modifies this
      ensures Contents() == Apply(dialect, old(Contents()), RecordCall(c))
      ensures calls == old(calls) + [c] && results == old(results)
    {
      calls := calls + [c];
    }

    method UpdateCallRow(i: nat, c: ToolCall) returns (ok: bool)
      modifies this
      ensures ok <==> i < |old(calls)| && c.keys == old(calls)[i].keys && CallRedacted(dialect, c)
      ensures Contents() == Apply(dialect, old(Contents()), UpdateCall(i, c))
      ensures calls == (if ok then old(calls)[i := c] else old(calls)) && results == old(results)
    {
      hide CallUpdateRaises, CallRedacted;
      if i >= |calls| {
        return false;
      }
      CallUpdateMeans(dialect, calls[i], c);
      ok := !CallUpdateRaises(dialect, calls[i], c);
      if ok {
        calls := calls[i := c];
      }
    }

    method DeleteCallRow(i: nat) returns (ok: bool)
      ensures !ok && Apply(dialect, Contents(), DeleteCall(i)) == Contents()
    {
      return false;
    }

    method RecordResultRow(r: ValidatorResult)
      modifies this
      ensures Contents() == Apply(dialect, old(Contents()), RecordResult(r))
      ensures calls == old(calls) && results == old(results) + [r]
    {
      results := results + [r];
    }

    method UpdateResultRow(i: nat, r: ValidatorResult) returns (ok: bool)
      modifies this
      ensures ok <==> i < |old(results)| && r.keys == old(results)[i].keys && DocumentPasses(dialect, r.detail)
      ensures Contents() == Apply(dialect, old(Contents()), UpdateResult(i, r))
      ensures calls == old(calls) && results == if ok then old(results)[i := r] else old(results)
    {
      hide ResultUpdateRaises, DocumentPasses;
      if i >= |results| {
        return false;
      }
      ResultUpdateMeans(dialect, results[i], r);
      ok := !ResultUpdateRaises(dialect, results[i], r);
      if ok {
        results := results[i := r];
      }
    }

    method DeleteResultRow(i: nat) returns (ok: bool)
      ensures !ok && Apply(dialect, Contents(), DeleteResult(i)) == Contents()
    {
      return false;
    }
  }

  /** A trace is what it was, or its redaction; a redacted one stays redacted. */
  predicate CallLater(dialect: Dialect, a: ToolCall, b: ToolCall) {
    b == a || (b.keys == a.keys && CallRedacted(dialect, b))
  }

  predicate ResultLater(dialect: Dialect, a: ValidatorResult, b: ValidatorResult) {
    b == a || (b.keys == a.keys && DocumentPasses(dialect, b.detail))
  }

  ghost predicate Later(dialect: Dialect, a: State, b: State) {
    && |a.calls| <= |b.calls| && |a.results| <= |b.results|
    && (forall i :: 0 <= i < |a.calls| ==> CallLater(dialect, a.calls[i], b.calls[i]))
    && (forall i :: 0 <= i < |a.results| ==> ResultLater(dialect, a.results[i], b.results[i]))
  }

  lemma StepIsLater(dialect: Dialect, s: State, t: Statement)
    ensures Later(dialect, s, Apply(dialect, s, t))
  {
    hide CallUpdateRaises, ResultUpdateRaises, CallRedacted, DocumentPasses;
    if t.UpdateCall? && t.target < |s.calls| {
      CallUpdateMeans(dialect, s.calls[t.target], t.call);
    }
    if t.UpdateResult? && t.target < |s.results| {
      ResultUpdateMeans(dialect, s.results[t.target], t.result);
    }
  }

  /**
   Over every run no trace or result disappears, and each is unchanged or has been redacted with its keys and
   digests intact; redaction is never undone.
   */
  lemma {:induction false} RunOnlyRedacts(dialect: Dialect, s: State, statements: seq<Statement>)
    ensures Later(dialect, s, Run(dialect, s, statements))
    ensures forall i :: 0 <= i < |s.calls| && CallRedacted(dialect, s.calls[i]) ==>
              i < |Run(dialect, s, statements).calls| && CallRedacted(dialect, Run(dialect, s, statements).calls[i])
    ensures forall i :: 0 <= i < |s.results| ==>
              && i < |Run(dialect, s, statements).results|
              && var a, b := s.results[i], Run(dialect, s, statements).results[i];
                 b == a || (b.keys == a.keys && DocumentPasses(dialect, b.detail))
  {
    hide Apply, CallRedacted, DocumentPasses;
    if statements != [] {
      var front := statements[..|statements| - 1];
      RunOnlyRedacts(dialect, s, front);
      StepIsLater(dialect, Run(dialect, s, front), statements[|statements| - 1]);
    }
  }
}
