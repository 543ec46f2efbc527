/**
 The hash-chained execution ledger (scripts/aggregate_frontier_evidence.py, _read_ledger and the head
 check of _runner_summary). The digest of an entry's content is a parameter, assumed injective where needed.
 */
module Ledger {
  import opened CompactDecimal
  import opened Finite
  import opened Outcomes

  /** A JSON member that holds a string, holds null, or is absent. */
  datatype Field = Missing | Null | Text(s: string) {
    /** `entry.get(name)`, which does not tell null from absent. */
    function Get(): Option<string> {
      if Text? then Some(s) else None
    }
  }

  /** Everything in an entry but its own digest. */
  datatype Body = Body(
    previous: Field,
    eventType: Field,
    reservation: Field,
    decision: Field,
    incident: Field,
    incidentEntry: Field,
    reconciliation: Field,
    reservedUsd: Option<Dec>,
    releasedUsd: Option<Dec>,
    generationUsd: Option<Dec>,
    rest: string)

  datatype Entry = Entry(recorded: Field, body: Body)

  datatype Line = Blank | Unparsable | NotObject | Object(entry: Entry)

  datatype LedgerError =
    | BadJson(line: nat)
    | NotAnObject(line: nat)
    | AddressMismatch(line: nat)
    | ChainBreak(line: nat)

  type Digest = Body -> string

  ghost predicate Injective(digest: Digest) {
    forall a, b :: digest(a) == digest(b) ==> a == b
  }

  /** The entries on the lines that hold one. */
  function Entries(lines: seq<Line>): seq<Entry> {
    if lines == [] then [] else
      var front, last := Entries(lines[..|lines| - 1]), lines[|lines| - 1];
      if last.Object? then front + [last.entry] else front
  }

  /** The lines that hold an entry, by position. */
  function ObjectLines(lines: seq<Line>): (marks: seq<bool>)
    ensures |marks| == |lines| && forall i :: 0 <= i < |marks| ==> marks[i] == lines[i].Object?
  {
    seq(|lines|, i requires 0 <= i < |lines| => lines[i].Object?)
  }

  /** The entries are those of all object lines, in the order of the file. */
  lemma {:induction false} EntriesInOrder(lines: seq<Line>)
    ensures var idx := Marked(ObjectLines(lines));
            |Entries(lines)| == |idx| && forall t :: 0 <= t < |idx| ==> lines[idx[t]] == Object(Entries(lines)[t])
  {
    if lines != [] {
      var n := |lines| - 1;
      EntriesInOrder(lines[..n]);
      assert ObjectLines(lines)[..n] == ObjectLines(lines[..n]);
    }
  }

  /** The link an entry must carry: the digest of the one before, or nothing at the start. */
  function Link(entries: seq<Entry>, i: nat, digest: Digest): Option<string>
    requires i <= |entries|
  {
    if i == 0 then None else Some(digest(entries[i - 1].body))
  }

  predicate EntryHolds(entries: seq<Entry>, i: nat, digest: Digest)
    requires i < |entries|
  {
    entries[i].recorded == Text(digest(entries[i].body)) && entries[i].body.previous.Get() == Link(entries, i, digest)
  }

  /** Every entry states its own digest and the digest of its predecessor. */
  ghost predicate Chained(entries: seq<Entry>, digest: Digest) {
    forall i :: 0 <= i < |entries| ==> EntryHolds(entries, i, digest)
  }

  ghost predicate Readable(lines: seq<Line>) {
    forall i :: 0 <= i < |lines| ==> lines[i].Blank? || lines[i].Object?
  }

  /** What is wrong with a line after an accepted ledger, if anything. */
  function Fault(entries: seq<Entry>, line: Line, number: nat, digest: Digest): Option<LedgerError> {
    match line
    case Blank => None
    case Unparsable => Some(BadJson(number))
    case NotObject => Some(NotAnObject(number))
    case Object(entry) =>
      if entry.recorded.Get() != Some(digest(entry.body)) then Some(AddressMismatch(number))
      else if entry.body.previous.Get() != Link(entries, |entries|, digest) then Some(ChainBreak(number))
      else None
  }

  lemma ChainedSnoc(entries: seq<Entry>, entry: Entry, digest: Digest)
    ensures Chained(entries + [entry], digest) <==>
            && Chained(entries, digest)
            && entry.recorded == Text(digest(entry.body))
            && entry.body.previous.Get() == Link(entries, |entries|, digest)
  {
    var all := entries + [entry];
    forall i | 0 <= i < |entries| ensures EntryHolds(all, i, digest) <==> EntryHolds(entries, i, digest) {
    }
    assert EntryHolds(all, |entries|, digest) <==>
      entry.recorded == Text(digest(entry.body)) && entry.body.previous.Get() == Link(entries, |entries|, digest);
  }

  /** `_read_ledger`: it accepts exactly the readable, chained files, and reports the first line at fault. */
  method ReadLedger(lines: seq<Line>, digest: Digest) returns (r: Result<seq<Entry>, LedgerError>)
    ensures r.Ok? <==> Readable(lines) && Chained(Entries(lines), digest)
    ensures r.Ok? ==> r.value == Entries(lines)
    ensures r.Err? ==>
              var n := r.error.line;
              && 1 <= n <= |lines|
              && Readable(lines[..n - 1]) && Chained(Entries(lines[..n - 1]), digest)
              && Fault(Entries(lines[..n - 1]), lines[n - 1], n, digest) == Some(r.error)
              && (r.error.BadJson? <==> lines[n - 1].Unparsable?)
              && (r.error.NotAnObject? <==> lines[n - 1].NotObject?)
              && (r.error.AddressMismatch? <==>
                  lines[n - 1].Object? && lines[n - 1].entry.recorded != Text(digest(lines[n - 1].entry.body)))
              && (r.error.ChainBreak? <==>
                  lines[n - 1].Object? && lines[n - 1].entry.recorded == Text(digest(lines[n - 1].entry.body)))
  {
    var entries: seq<Entry> := [];
    var previous: Option<string> := None;
    for n := 0 to |lines|
      invariant entries == Entries(lines[..n])
      invariant Readable(lines[..n]) && Chained(entries, digest)
      invariant previous == Link(entries, |entries|, digest)
    {
      var line := lines[n];
      assert lines[..n + 1][..n] == lines[..n];
      match line {
        case Blank =>
        case Unparsable =>
          return Err(BadJson(n + 1));
        case NotObject =>
          return Err(NotAnObject(n + 1));
        case Object(entry) =>
          var calculated := digest(entry.body);
          ChainedSnoc(entries, entry, digest);
          if entry.recorded.Get() != Some(calculated) {
            ChainedPrefix(lines, n + 1, digest);
            return Err(AddressMismatch(n + 1));
          }
          if entry.body.previous.Get() != previous {
            ChainedPrefix(lines, n + 1, digest);
            return Err(ChainBreak(n + 1));
          }
          previous := Some(calculated);
          entries := entries + [entry];
      }
    }
    assert lines[..|lines|] == lines;
    return Ok(entries);
  }

  lemma {:induction false} EntriesPrefix(lines: seq<Line>, n: nat)
    requires n <= |lines|
    ensures Entries(lines[..n]) <= Entries(lines)
  {
    if n < |lines| {
      var front := lines[..|lines| - 1];
      EntriesPrefix(front, n);
      assert front[..n] == lines[..n];
    } else {
      assert lines[..n] == lines;
    }
  }

  /** A prefix of a chained file is chained. */
  lemma ChainedPrefix(lines: seq<Line>, n: nat, digest: Digest)
    requires n <= |lines|
    ensures Chained(Entries(lines), digest) ==> Chained(Entries(lines[..n]), digest)
  {
    EntriesPrefix(lines, n);
    if Chained(Entries(lines), digest) {
      forall i | 0 <= i < |Entries(lines[..n])| ensures EntryHolds(Entries(lines[..n]), i, digest) {
        assert EntryHolds(Entries(lines), i, digest);
      }
    }
  }

  /** Equal digests sit at equal heights and above equal histories, even in two different ledgers. */
  lemma {:induction false} DigestFixesHistory(a: seq<Entry>, b: seq<Entry>, i: nat, j: nat, digest: Digest)
    requires Injective(digest) && Chained(a, digest) && Chained(b, digest)
    requires i < |a| && j < |b| && a[i].recorded == b[j].recorded
    ensures i == j && a[..i + 1] == b[..j + 1]
  {
    assert EntryHolds(a, i, digest) && EntryHolds(b, j, digest);
    assert a[i] == b[j];
    if i > 0 && j > 0 {
      assert EntryHolds(a, i - 1, digest) && EntryHolds(b, j - 1, digest);
      DigestFixesHistory(a, b, i - 1, j - 1, digest);
      assert a[..i + 1] == a[..i] + [a[i]];
      assert b[..j + 1] == b[..j] + [b[j]];
    }
  }

  /** No two entries of an accepted ledger share a digest. */
  lemma DigestsDistinct(entries: seq<Entry>, digest: Digest)
    requires Injective(digest) && Chained(entries, digest)
    ensures forall i, j :: 0 <= i < j < |entries| ==> entries[i].recorded != entries[j].recorded
  {
    forall i, j | 0 <= i < j < |entries| ensures entries[i].recorded != entries[j].recorded {
      if entries[i].recorded == entries[j].recorded {
        DigestFixesHistory(entries, entries, i, j, digest);
      }
    }
  }

  /** Two accepted ledgers with the same head are the same ledger. */
  lemma HeadFixesLedger(a: seq<Entry>, b: seq<Entry>, digest: Digest)
    requires Injective(digest) && Chained(a, digest) && Chained(b, digest)
    requires |a| > 0 && |b| > 0 && a[|a| - 1].recorded == b[|b| - 1].recorded
    ensures a == b
  {
    DigestFixesHistory(a, b, |a| - 1, |b| - 1, digest);
    assert a == a[..|a|] && b == b[..|b|];
  }

  // ---- a summary's claim about the ledger ----

  datatype SummaryError = HeadNotOnce | LengthMismatch

  /** The positions whose recorded digest is the reported head. */
  function HeadIndexes(entries: seq<Entry>, head: Option<string>): (idx: seq<nat>)
    ensures forall t :: 0 <= t < |idx| ==> idx[t] < |entries| && entries[idx[t]].recorded.Get() == head
    ensures forall i :: 0 <= i < |entries| && entries[i].recorded.Get() == head ==> i in idx
    ensures forall s, t :: 0 <= s < t < |idx| ==> idx[s] < idx[t]
  {
    Marked(seq(|entries|, i requires 0 <= i < |entries| => entries[i].recorded.Get() == head))
  }

  /** The head check of `_runner_summary`: the head occurs exactly once and the stated length ends there. */
  function CheckSummary(entries: seq<Entry>, head: Option<string>, count: int): Result<nat, SummaryError> {
    var idx := HeadIndexes(entries, head);
    if |idx| != 1 then Err(HeadNotOnce)
    else if count != idx[0] + 1 then Err(LengthMismatch)
    else Ok(idx[0])
  }

  /** On an accepted ledger the check passes exactly when the head stands at the stated length. */
  lemma SummaryCheckExact(entries: seq<Entry>, head: string, count: int, digest: Digest)
    requires Injective(digest) && Chained(entries, digest)
    ensures CheckSummary(entries, Some(head), count).Ok? <==>
            1 <= count <= |entries| && entries[count - 1].recorded == Text(head)
    ensures CheckSummary(entries, Some(head), count) == Err(HeadNotOnce) <==>
            forall i :: 0 <= i < |entries| ==> entries[i].recorded != Text(head)
  {
    var idx := HeadIndexes(entries, Some(head));
    assert |idx| > 0 ==> entries[idx[0]].recorded == Text(head);
    assert |idx| > 1 ==> entries[idx[1]].recorded == Text(head) && idx[0] < idx[1];
    DigestsDistinct(entries, digest);
    if 1 <= count <= |entries| && entries[count - 1].recorded == Text(head) {
      assert count - 1 in idx;
    }
  }

  /** A summary pins one history: any two accepted ledgers it fits agree up to its head, whatever follows. */
  lemma SummaryFixesPrefix(a: seq<Entry>, b: seq<Entry>, head: Option<string>, m: int, n: int, digest: Digest)
    requires Injective(digest) && Chained(a, digest) && Chained(b, digest)
    requires CheckSummary(a, head, m).Ok? && CheckSummary(b, head, n).Ok?
    ensures m == n && 1 <= m <= |a| && m <= |b| && a[..m] == b[..m]
  {
    var i, j := HeadIndexes(a, head)[0], HeadIndexes(b, head)[0];
    assert EntryHolds(a, i, digest) && EntryHolds(b, j, digest);
    DigestFixesHistory(a, b, i, j, digest);
  }
}
