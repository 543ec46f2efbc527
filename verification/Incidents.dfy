/**
 No-artifact incidents (scripts/aggregate_frontier_evidence.py, _runner_summary): each retained outcome of a
 runner summary is paired with an incident entry of the ledger and is either outstanding or released by a proof.
 */
module Incidents {
  import opened Outcomes
  import opened CompactDecimal
  import opened Finite
  import opened Ledger
  import opened Reservations
  import opened Sums

  const RETAINED_DECISION := "no_artifact_reservation_retained"
  const INCIDENT_EVENT := "execution_incident"
  const INCIDENT_NAME := "no_verifiable_artifact_reservation_retained"

  /** One outcome of the summary; a forecast that is left out counts as "0". */
  datatype Outcome = Outcome(decision: Field, reservation: Field, forecastUsd: Option<Dec>)

  /** A reconciliation artifact. A member that is not a boolean is `None`. */
  datatype Proof = Proof(
    filename: string, callsMade: Option<bool>, reached: Option<bool>, costUsd: Option<Dec>, authorized: Option<bool>)

  datatype Record =
    | Outstanding(reservation: Option<string>, incident: Option<string>, usd: string)
    | Released(
        reservation: Option<string>, incident: Option<string>, usd: string, resolution: Option<string>, proof: string)

  datatype IncidentError = Disagreement | MultipleReleases | BadAmount | UnknownProof | NotExact | NotEstablished

  predicate IsRetained(o: Outcome) {
    o.decision.Get() == Some(RETAINED_DECISION)
  }

  predicate IsIncident(e: Entry) {
    e.body.eventType.Get() == Some(INCIDENT_EVENT) && e.body.incident.Get() == Some(INCIDENT_NAME)
  }

  function RetainedOutcomes(outcomes: seq<Outcome>): seq<Outcome> {
    if outcomes == [] then [] else
      var front, last := RetainedOutcomes(outcomes[..|outcomes| - 1]), outcomes[|outcomes| - 1];
      if IsRetained(last) then front + [last] else front
  }

  function IncidentEntries(entries: seq<Entry>): (s: seq<Entry>)
    ensures forall i :: 0 <= i < |s| ==> s[i] in entries && IsIncident(s[i])
  {
    if entries == [] then [] else
      var front, last := IncidentEntries(entries[..|entries| - 1]), entries[|entries| - 1];
      if IsIncident(last) then front + [last] else front
  }

  /** The retained outcomes are all outcomes with that decision, in the order of the summary. */
  lemma {:induction false} RetainedInOrder(outcomes: seq<Outcome>, marks: seq<bool>)
    requires |marks| == |outcomes|
    requires forall i :: 0 <= i < |marks| ==>
               marks[i] == (outcomes[i].decision == Text("no_artifact_reservation_retained"))
    ensures RetainedOutcomes(outcomes) == Picked(outcomes, Marked(marks))
  {
    if outcomes != [] {
      var n := |outcomes| - 1;
      RetainedInOrder(outcomes[..n], marks[..n]);
      PickedSnoc(outcomes, marks);
    }
  }

  /** The incident entries are all entries of that event and incident, in the order of the ledger. */
  lemma {:induction false} IncidentsInOrder(entries: seq<Entry>, marks: seq<bool>)
    requires |marks| == |entries|
    requires forall i :: 0 <= i < |marks| ==>
               marks[i] == (&& entries[i].body.eventType == Text("execution_incident")
                            && entries[i].body.incident == Text("no_verifiable_artifact_reservation_retained"))
    ensures IncidentEntries(entries) == Picked(entries, Marked(marks))
  {
    if entries != [] {
      var n := |entries| - 1;
      IncidentsInOrder(entries[..n], marks[..n]);
      PickedSnoc(entries, marks);
    }
  }

  // ---- one incident ----

  /** An entry that releases this incident's reservation. Only the release decision counts here. */
  predicate Releases(e: Entry, o: Outcome, incident: Entry) {
    && e.body.eventType.Get() == Some(RECONCILED)
    && e.body.decision.Get() == Some(RELEASE)
    && e.body.incidentEntry.Get() == incident.recorded.Get()
    && e.body.reservation.Get() == o.reservation.Get()
  }

  function ReleaseIndexes(entries: seq<Entry>, o: Outcome, incident: Entry): (idx: seq<nat>)
    ensures forall t :: 0 <= t < |idx| ==> idx[t] < |entries| && Releases(entries[idx[t]], o, incident)
    ensures forall i :: 0 <= i < |entries| && Releases(entries[i], o, incident) ==> i in idx
    ensures forall s, t :: 0 <= s < t < |idx| ==> idx[s] < idx[t]
  {
    Marked(seq(|entries|, i requires 0 <= i < |entries| => Releases(entries[i], o, incident)))
  }

  /** An amount that is left out counts as "0". */
  function Stated(amount: Option<Dec>): Dec {
    amount.GetOr(Dec(false, 0, 0))
  }

  /** `_compact_decimal` of an amount that defaults to "0"; it raises when the amount has too many digits. */
  function Usd(amount: Option<Dec>): Option<string> {
    Compact(Stated(amount))
  }

  function ProofKey(e: Entry): string {
    match e.body.reconciliation
    case Missing => ""
    case Null => "None"
    case Text(s) => s
  }

  /** No provider call, nothing spent, and a release that was authorized. */
  predicate Establishes(p: Proof, resolution: Entry) {
    && p.callsMade == Some(false)
    && p.reached == Some(false)
    && Usd(p.costUsd) == Some("0")
    && p.authorized == Some(true)
    && Usd(resolution.body.generationUsd) == Some("0")
  }

  /**
   The proof's tests in the source's order: an amount with too many digits raises when it is reached, unless an
   earlier test has already failed.
   */
  function ProofFault(p: Proof, resolution: Entry): (f: Option<IncidentError>)
    ensures f.None? <==> Establishes(p, resolution)
    ensures f.Some? ==> f.value == NotEstablished || f.value == BadAmount
  {
    if p.callsMade != Some(false) || p.reached != Some(false) then Some(NotEstablished)
    else if Usd(p.costUsd).None? then Some(BadAmount)
    else if Usd(p.costUsd) != Some("0") || p.authorized != Some(true) then Some(NotEstablished)
    else if Usd(resolution.body.generationUsd).None? then Some(BadAmount)
    else if Usd(resolution.body.generationUsd) != Some("0") then Some(NotEstablished)
    else None
  }

  function Assess(
    entries: seq<Entry>, proofs: map<string, Proof>, o: Outcome, incident: Entry): Result<Record, IncidentError>
  {
    var idx := ReleaseIndexes(entries, o, incident);
    var usd := Usd(o.forecastUsd);
    if |idx| > 1 then Err(MultipleReleases)
    else if usd.None? then Err(BadAmount)
    else if idx == [] then Ok(Outstanding(o.reservation.Get(), incident.recorded.Get(), usd.value))
    else
      var resolution := entries[idx[0]];
      if ProofKey(resolution) !in proofs then Err(UnknownProof)
      else if Usd(resolution.body.releasedUsd).None? then Err(BadAmount)
      else if Usd(resolution.body.releasedUsd) != usd then Err(NotExact)
      else if ProofFault(proofs[ProofKey(resolution)], resolution).Some? then
        Err(ProofFault(proofs[ProofKey(resolution)], resolution).value)
      else
        Ok(Released(
             o.reservation.Get(), incident.recorded.Get(), usd.value, resolution.recorded.Get(), ProofKey(resolution)))
  }

  lemma AssessNeverDisagrees(entries: seq<Entry>, proofs: map<string, Proof>, o: Outcome, incident: Entry)
    ensures Assess(entries, proofs, o, incident) != Err(Disagreement)
  {
    hide Usd, Releases, Establishes;
  }

  /** The incident loop: the first pair that cannot be settled stops it. */
  method IncidentRecords(entries: seq<Entry>, outcomes: seq<Outcome>, proofs: map<string, Proof>)
    returns (r: Result<seq<Record>, IncidentError>)
    ensures |RetainedOutcomes(outcomes)| != |IncidentEntries(entries)| <==> r == Err(Disagreement)
    ensures r.Ok? ==> |r.value| == |IncidentEntries(entries)| == |RetainedOutcomes(outcomes)|
    ensures r.Ok? ==> forall i :: 0 <= i < |r.value| ==>
                        Assess(entries, proofs, RetainedOutcomes(outcomes)[i], IncidentEntries(entries)[i])
                          == Ok(r.value[i])
    ensures r.Err? && r.error != Disagreement ==>
              exists i :: FirstFault(entries, proofs, RetainedOutcomes(outcomes), IncidentEntries(entries), i, r.error)
  {
    hide RetainedOutcomes, IncidentEntries, Assess;
    var retained, incidents := RetainedOutcomes(outcomes), IncidentEntries(entries);
    if |retained| != |incidents| {
      return Err(Disagreement);
    }
    var records: seq<Record> := [];
    for i := 0 to |retained|
      invariant |records| == i
      invariant forall k :: 0 <= k < i ==> Assess(entries, proofs, retained[k], incidents[k]) == Ok(records[k])
    {
      var one := Assess(entries, proofs, retained[i], incidents[i]);
      if one.Err? {
        AssessNeverDisagrees(entries, proofs, retained[i], incidents[i]);
        assert FirstFault(entries, proofs, retained, incidents, i, one.error);
        return Err(one.error);
      }
      records := records + [one.value];
    }
    return Ok(records);
  }

  ghost predicate FirstFault(
    entries: seq<Entry>, proofs: map<string, Proof>, retained: seq<Outcome>, incidents: seq<Entry>,
    i: int, e: IncidentError)
  {
    && 0 <= i < |retained| == |incidents|
    && Assess(entries, proofs, retained[i], incidents[i]) == Err(e)
    && forall k :: 0 <= k < i ==> Assess(entries, proofs, retained[k], incidents[k]).Ok?
  }

  // ---- what the records mean for the money ----

  /**
   A released record rests on the one release entry of its incident, on a proof that establishes a zero-cost
   release, and on amounts equal at seven places, sign included; its reservation is no longer active.
   */
  lemma ReleasedMeans(entries: seq<Entry>, proofs: map<string, Proof>, o: Outcome, incident: Entry, record: Record)
    requires Assess(entries, proofs, o, incident) == Ok(record) && record.Released?
    ensures exists k :: 0 <= k < |entries| && Settles(entries, proofs, o, incident, record, k)
    ensures o.reservation.Text? && o.reservation.s != "" ==>
              o.reservation.s !in ReservationDict(entries).Keys - ResolvedSet(entries)
  {
    hide *;
    var k := ReleaseIndex(entries, proofs, o, incident, record);
    assert Settles(entries, proofs, o, incident, record, k);
    if o.reservation.Text? && o.reservation.s != "" {
      ReleaseResolves(entries, k, o, incident);
    }
  }

  lemma ReleaseResolves(entries: seq<Entry>, k: nat, o: Outcome, incident: Entry)
    requires k < |entries| && Releases(entries[k], o, incident)
    requires o.reservation.Text? && o.reservation.s != ""
    ensures Resolves(entries[k]) && o.reservation.s in ResolvedSet(entries)
  {
    assert Resolves(entries[k]);
  }

  /** The entry a released record rests on. */
  lemma ReleaseIndex(entries: seq<Entry>, proofs: map<string, Proof>, o: Outcome, incident: Entry, record: Record)
    returns (k: nat)
    requires Assess(entries, proofs, o, incident) == Ok(record) && record.Released?
    ensures k < |entries| && Releases(entries[k], o, incident) && Settles(entries, proofs, o, incident, record, k)
  {
    hide Releases, Usd, Establishes, SameAmount;
    var idx := ReleaseIndexes(entries, o, incident);
    k := idx[0];
    assert idx == [k];
    assert forall i :: 0 <= i < |entries| && Releases(entries[i], o, incident) ==> i in idx;
    UsdMeans(o.forecastUsd, entries[k].body.releasedUsd);
  }

  ghost predicate Settles(
    entries: seq<Entry>, proofs: map<string, Proof>, o: Outcome, incident: Entry, record: Record, k: int)
  {
    && Settling(entries, proofs, o, incident, k)
    && record.Released? && record.resolution == entries[k].recorded.Get()
  }

  /** Entry k is the one release of the incident, of the whole amount and properly proved. */
  ghost predicate Settling(
    entries: seq<Entry>, proofs: map<string, Proof>, o: Outcome, incident: Entry, k: int)
  {
    && OnlyReleaseAt(entries, o, incident, k)
    && ProofKey(entries[k]) in proofs && Establishes(proofs[ProofKey(entries[k])], entries[k])
    && SameAmount(o.forecastUsd, entries[k].body.releasedUsd)
  }

  ghost predicate OnlyReleaseAt(entries: seq<Entry>, o: Outcome, incident: Entry, k: int) {
    && 0 <= k < |entries|
    && Releases(entries[k], o, incident)
    && forall i :: 0 <= i < |entries| && Releases(entries[i], o, incident) ==> i == k
  }

  lemma IndexesMean(entries: seq<Entry>, o: Outcome, incident: Entry)
    ensures var idx := ReleaseIndexes(entries, o, incident);
            && (idx == [] <==> forall i :: 0 <= i < |entries| ==> !Releases(entries[i], o, incident))
            && (|idx| > 1 <==>
                exists i, j :: && 0 <= i < j < |entries|
                               && Releases(entries[i], o, incident) && Releases(entries[j], o, incident))
            && (forall k :: OnlyReleaseAt(entries, o, incident, k) <==> |idx| == 1 && k == idx[0])
  {
    hide Releases;
    var idx := ReleaseIndexes(entries, o, incident);
    NoIndexes(entries, o, incident);
    if |idx| > 1 {
      assert Releases(entries[idx[0]], o, incident) && Releases(entries[idx[1]], o, incident);
    }
    if |idx| == 1 {
      assert OnlyReleaseAt(entries, o, incident, idx[0]);
    }
  }

  /** What an incident comes to: when it is outstanding, when released, and each reason to refuse. */
  lemma AssessExact(entries: seq<Entry>, proofs: map<string, Proof>, o: Outcome, incident: Entry)
    ensures var r := Assess(entries, proofs, o, incident);
            && (r == Err(MultipleReleases) <==>
                exists i, j :: && 0 <= i < j < |entries|
                               && Releases(entries[i], o, incident) && Releases(entries[j], o, incident))
            && (r.Ok? && r.value.Outstanding? <==>
                Usd(o.forecastUsd).Some? && forall i :: 0 <= i < |entries| ==> !Releases(entries[i], o, incident))
            && (r.Ok? && r.value.Released? <==> exists k :: Settling(entries, proofs, o, incident, k))
            && (r == Err(UnknownProof) <==>
                Usd(o.forecastUsd).Some?
                && exists k :: OnlyReleaseAt(entries, o, incident, k) && ProofKey(entries[k]) !in proofs)
            && (r == Err(NotExact) <==>
                exists k :: && OnlyReleaseAt(entries, o, incident, k) && ProofKey(entries[k]) in proofs
                            && Usd(o.forecastUsd).Some? && Usd(entries[k].body.releasedUsd).Some?
                            && !SameAmount(o.forecastUsd, entries[k].body.releasedUsd))
            && (r == Err(NotEstablished) <==>
                exists k :: && OnlyReleaseAt(entries, o, incident, k) && ProofKey(entries[k]) in proofs
                            && SameAmount(o.forecastUsd, entries[k].body.releasedUsd)
                            && ProofFault(proofs[ProofKey(entries[k])], entries[k]) == Some(NotEstablished))
            && (r.Ok? && r.value.Released? ==>
                  exists k :: && OnlyReleaseAt(entries, o, incident, k) && r.value.proof == ProofKey(entries[k])
                              && r.value.resolution == entries[k].recorded.Get())
            && (r.Ok? ==>
                  r.value.reservation == o.reservation.Get() && r.value.incident == incident.recorded.Get()
                  && Some(r.value.usd) == Usd(o.forecastUsd))
  {
    hide Releases, Usd, Establishes, ProofFault, SameAmount, ReleaseIndexes, OnlyReleaseAt;
    IndexesMean(entries, o, incident);
    var idx := ReleaseIndexes(entries, o, incident);
    if |idx| == 1 {
      assert OnlyReleaseAt(entries, o, incident, idx[0]);
      var e := entries[idx[0]];
      UsdMeans(o.forecastUsd, e.body.releasedUsd);
      if ProofKey(e) in proofs {
        assert Settling(entries, proofs, o, incident, idx[0]) <==>
          Establishes(proofs[ProofKey(e)], e) && SameAmount(o.forecastUsd, e.body.releasedUsd);
      }
    }
  }

  /** Equal when rounded half-even to seven places, sign included. */
  predicate SameAmount(a: Option<Dec>, b: Option<Dec>) {
    var x, y := Stated(a), Stated(b);
    Quantize(x).Some? && Quantize(x) == Quantize(y) && x.negative == y.negative
  }

  lemma UsdMeans(a: Option<Dec>, b: Option<Dec>)
    ensures Usd(a).Some? && Usd(a) == Usd(b) <==> SameAmount(a, b)
  {
    hide Quantize;
    var x, y := Stated(a), Stated(b);
    if Quantize(x).Some? && Quantize(y).Some? {
      TextEqualsValue(x, y);
    }
  }

  /** On an accepted ledger no entry releases two incidents. */
  lemma ReleasesDistinct(
    entries: seq<Entry>, digest: Digest, proofs: map<string, Proof>, o: Outcome, p: Outcome, i: nat, j: nat)
    requires Injective(digest) && Chained(entries, digest) && i < j < |entries|
    requires var a, b := Assess(entries, proofs, o, entries[i]), Assess(entries, proofs, p, entries[j]);
             a.Ok? && a.value.Released? && b.Ok? && b.value.Released?
    ensures Assess(entries, proofs, o, entries[i]).value.resolution
         != Assess(entries, proofs, p, entries[j]).value.resolution
  {
    hide *;
    var a, b := Assess(entries, proofs, o, entries[i]).value, Assess(entries, proofs, p, entries[j]).value;
    var s := ReleaseIndex(entries, proofs, o, entries[i], a);
    var t := ReleaseIndex(entries, proofs, p, entries[j], b);
    DigestsDistinct(entries, digest);
    RecordedIsText(entries, digest);
    SettlesMeans(entries, proofs, o, entries[i], a, s);
    SettlesMeans(entries, proofs, p, entries[j], b, t);
    GetsDiffer(entries, i, j);
    GetsDiffer(entries, s, t);
  }

  lemma SettlesMeans(
    entries: seq<Entry>, proofs: map<string, Proof>, o: Outcome, incident: Entry, record: Record, k: nat)
    requires k < |entries| && Settles(entries, proofs, o, incident, record, k)
    ensures record.Released? && record.resolution == entries[k].recorded.Get()
    ensures entries[k].body.incidentEntry.Get() == incident.recorded.Get()
  {
  }

  lemma GetsDiffer(entries: seq<Entry>, i: nat, j: nat)
    requires i < |entries| && j < |entries| && entries[i].recorded.Text? && entries[j].recorded.Text?
    requires forall a, b :: 0 <= a < b < |entries| ==> entries[a].recorded != entries[b].recorded
    ensures entries[i].recorded.Get() == entries[j].recorded.Get() <==> i == j
  {
  }

  lemma RecordedIsText(entries: seq<Entry>, digest: Digest)
    requires Chained(entries, digest)
    ensures forall i :: 0 <= i < |entries| ==> entries[i].recorded.Text?
  {
    forall i | 0 <= i < |entries| ensures entries[i].recorded.Text? {
      assert EntryHolds(entries, i, digest);
    }
  }

  /** An entry that takes the reservation off the active sum without releasing the incident. */
  predicate ResolvesOtherwise(e: Entry, o: Outcome, incident: Entry) {
    && o.reservation.Text? && Closes(e, o.reservation.s)
    && (e.body.eventType == Text("no_artifact_reconciliation_recorded") ==>
          || e.body.decision != Text("release_pre_generation_no_cost_reservation")
          || e.body.incidentEntry.Get() != incident.recorded.Get())
  }

  /**
   An outstanding incident's reservation is missing from the active sum exactly when the ledger records an
   artifact for it, or reconciles it with another decision or for another incident.
   */
  lemma OutstandingButInactive(entries: seq<Entry>, proofs: map<string, Proof>, o: Outcome, incident: Entry)
    requires Assess(entries, proofs, o, incident).Ok? && Assess(entries, proofs, o, incident).value.Outstanding?
    requires o.reservation.Text? && o.reservation.s in ReservationDict(entries)
    ensures o.reservation.s !in ReservationDict(entries).Keys - ResolvedSet(entries) <==>
            exists k :: 0 <= k < |entries| && ResolvesOtherwise(entries[k], o, incident)
  {
    hide *;
    NothingReleases(entries, proofs, o, incident);
    OtherwiseExactly(entries, o, incident);
  }

  lemma NothingReleases(entries: seq<Entry>, proofs: map<string, Proof>, o: Outcome, incident: Entry)
    requires Assess(entries, proofs, o, incident).Ok? && Assess(entries, proofs, o, incident).value.Outstanding?
    ensures forall k :: 0 <= k < |entries| ==> !Releases(entries[k], o, incident)
  {
    hide Releases, Usd, Establishes;
    assert ReleaseIndexes(entries, o, incident) == [];
  }

  lemma OtherwiseExactly(entries: seq<Entry>, o: Outcome, incident: Entry)
    requires forall k :: 0 <= k < |entries| ==> !Releases(entries[k], o, incident)
    requires o.reservation.Text?
    ensures o.reservation.s in ResolvedSet(entries) <==>
            exists k :: 0 <= k < |entries| && ResolvesOtherwise(entries[k], o, incident)
  {
    EventsDiffer();
    forall k | 0 <= k < |entries|
      ensures Resolves(entries[k]) && entries[k].body.reservation.s == o.reservation.s <==>
              ResolvesOtherwise(entries[k], o, incident)
    {
      assert !Releases(entries[k], o, incident);
    }
  }

  /** What the outstanding incidents hold, incident by incident. */
  function OutstandingAmounts(records: seq<Record>, outcomes: seq<Outcome>): (a: seq<real>)
    requires |records| == |outcomes|
    ensures |a| == |records|
    ensures forall i :: 0 <= i < |a| ==>
              a[i] == if records[i].Outstanding? then Value(Stated(outcomes[i].forecastUsd)) else 0.0
  {
    seq(|records|, i requires 0 <= i < |records| =>
      if records[i].Outstanding? then Value(Stated(outcomes[i].forecastUsd)) else 0.0)
  }

  /** The reservations the outstanding incidents name. */
  function HeldKeys(records: seq<Record>, outcomes: seq<Outcome>): (keys: seq<Option<string>>)
    requires |records| == |outcomes|
    ensures |keys| == |records|
    ensures forall i :: 0 <= i < |keys| ==>
              keys[i] == if records[i].Outstanding? then outcomes[i].reservation.Get() else None
  {
    seq(|records|, i requires 0 <= i < |records| =>
      if records[i].Outstanding? then outcomes[i].reservation.Get() else None)
  }

  /** The outcome's reservation is on the ledger at the forecast amount, and only a release would resolve it. */
  ghost predicate Backed(entries: seq<Entry>, o: Outcome, incident: Entry) {
    && (exists j :: 0 <= j < |entries| && Creates(entries[j]) && entries[j].recorded == o.reservation
                    && Amount(entries[j]) == Value(Stated(o.forecastUsd)))
    && forall k :: 0 <= k < |entries| ==> !ResolvesOtherwise(entries[k], o, incident)
  }

  lemma BackedIsActive(
    entries: seq<Entry>, digest: Digest, proofs: map<string, Proof>, o: Outcome, incident: Entry)
    requires Injective(digest) && Chained(entries, digest) && Backed(entries, o, incident)
    requires Assess(entries, proofs, o, incident).Ok? && Assess(entries, proofs, o, incident).value.Outstanding?
    ensures o.reservation.Text? && o.reservation.s in ReservationDict(entries).Keys - ResolvedSet(entries)
    ensures ReservationDict(entries)[o.reservation.s] == Value(Stated(o.forecastUsd))
  {
    hide *;
    var j := BackingEntry(entries, o, incident);
    AcceptedKeysDistinct(entries, digest);
    DictAmount(entries, j);
    RecordedIsText(entries, digest);
    KeyIsRecorded(entries[j]);
    NoOther(entries, o, incident);
    OutstandingButInactive(entries, proofs, o, incident);
  }

  lemma KeyIsRecorded(e: Entry)
    ensures e.recorded.Text? ==> Key(e) == e.recorded.s
  {
  }

  lemma BackingEntry(entries: seq<Entry>, o: Outcome, incident: Entry) returns (j: nat)
    requires Backed(entries, o, incident)
    ensures j < |entries| && Creates(entries[j]) && entries[j].recorded == o.reservation
    ensures Amount(entries[j]) == Value(Stated(o.forecastUsd))
  {
    hide Creates, Amount, Value, Stated;
    j :| 0 <= j < |entries| && Creates(entries[j]) && entries[j].recorded == o.reservation
         && Amount(entries[j]) == Value(Stated(o.forecastUsd));
  }

  lemma NoOther(entries: seq<Entry>, o: Outcome, incident: Entry)
    requires Backed(entries, o, incident)
    ensures !exists k :: 0 <= k < |entries| && ResolvesOtherwise(entries[k], o, incident)
  {
    hide ResolvesOtherwise;
  }

  lemma HeldIsActive(
    entries: seq<Entry>, digest: Digest, proofs: map<string, Proof>,
    outcomes: seq<Outcome>, incidents: seq<Entry>, records: seq<Record>, i: nat)
    requires Injective(digest) && Chained(entries, digest)
    requires i < |records| == |outcomes| == |incidents|
    requires Assess(entries, proofs, outcomes[i], incidents[i]) == Ok(records[i])
    requires records[i].Outstanding? ==> Backed(entries, outcomes[i], incidents[i])
    ensures var key := HeldKeys(records, outcomes)[i];
            && (records[i].Outstanding? <==> key.Some?)
            && (key.Some? ==>
                  && outcomes[i].reservation.Text? && key.value == outcomes[i].reservation.s
                  && key.value in ReservationDict(entries).Keys - ResolvedSet(entries)
                  && ReservationDict(entries)[key.value] == OutstandingAmounts(records, outcomes)[i])
  {
    hide Chained, Injective, Backed, Assess, ReservationDict, ResolvedSet, Value;
    if records[i].Outstanding? {
      BackedIsActive(entries, digest, proofs, outcomes[i], incidents[i]);
    }
  }

  lemma HeldDistinct(keys: seq<Option<string>>, records: seq<Record>, outcomes: seq<Outcome>)
    requires |keys| == |records| == |outcomes|
    requires forall i :: 0 <= i < |keys| ==> (records[i].Outstanding? <==> keys[i].Some?)
    requires forall i :: 0 <= i < |keys| && keys[i].Some? ==>
               outcomes[i].reservation.Text? && keys[i].value == outcomes[i].reservation.s
    requires forall i, j :: 0 <= i < j < |records| && records[i].Outstanding? && records[j].Outstanding? ==>
               outcomes[i].reservation != outcomes[j].reservation
    ensures forall i, j :: 0 <= i < j < |keys| && keys[i].Some? ==> keys[i] != keys[j]
  {
  }

  lemma HeldSum(
    entries: seq<Entry>, digest: Digest, proofs: map<string, Proof>,
    outcomes: seq<Outcome>, incidents: seq<Entry>, records: seq<Record>)
    requires Injective(digest) && Chained(entries, digest)
    requires |records| == |outcomes| == |incidents|
    requires forall i :: 0 <= i < |records| ==> Assess(entries, proofs, outcomes[i], incidents[i]) == Ok(records[i])
    requires forall i :: 0 <= i < |records| && records[i].Outstanding? ==> Backed(entries, outcomes[i], incidents[i])
    requires forall i, j :: 0 <= i < j < |records| && records[i].Outstanding? && records[j].Outstanding? ==>
               outcomes[i].reservation != outcomes[j].reservation
    ensures Present(HeldKeys(records, outcomes)) <= ReservationDict(entries).Keys - ResolvedSet(entries)
    ensures SumOver(ReservationDict(entries), Present(HeldKeys(records, outcomes)))
         == Sum(OutstandingAmounts(records, outcomes))
  {
    var keys, held := HeldKeys(records, outcomes), OutstandingAmounts(records, outcomes);
    hide *;
    forall i | 0 <= i < |records|
      ensures records[i].Outstanding? <==> keys[i].Some?
      ensures keys[i].Some? ==> outcomes[i].reservation.Text? && keys[i].value == outcomes[i].reservation.s
      ensures keys[i].Some? ==> keys[i].value in ReservationDict(entries).Keys - ResolvedSet(entries)
      ensures keys[i].Some? ==> ReservationDict(entries)[keys[i].value] == held[i]
    {
      HeldIsActive(entries, digest, proofs, outcomes, incidents, records, i);
    }
    HeldDistinct(keys, records, outcomes);
    KeyedSum(ReservationDict(entries), keys, held);
  }

  /**
   When the outstanding incidents name distinct backed reservations, the active sum is what they hold and what
   the other active reservations amount to: as long as no reservation is negative, it covers them.
   */
  lemma OutstandingIsCovered(
    entries: seq<Entry>, digest: Digest, proofs: map<string, Proof>,
    outcomes: seq<Outcome>, incidents: seq<Entry>, records: seq<Record>)
    requires Injective(digest) && Chained(entries, digest)
    requires |records| == |outcomes| == |incidents|
    requires forall i :: 0 <= i < |records| ==> Assess(entries, proofs, outcomes[i], incidents[i]) == Ok(records[i])
    requires forall i :: 0 <= i < |records| && records[i].Outstanding? ==> Backed(entries, outcomes[i], incidents[i])
    requires forall i, j :: 0 <= i < j < |records| && records[i].Outstanding? && records[j].Outstanding? ==>
               outcomes[i].reservation != outcomes[j].reservation
    ensures var others := ReservationDict(entries).Keys - ResolvedSet(entries) - Present(HeldKeys(records, outcomes));
            ActiveReservation(entries)
              == Sum(OutstandingAmounts(records, outcomes)) + Sum(Amounts(entries, others, true))
    ensures (forall i :: 0 <= i < |entries| && Creates(entries[i]) ==> Amount(entries[i]) >= 0.0) ==>
              Sum(OutstandingAmounts(records, outcomes)) <= ActiveReservation(entries)
  {
    hide *;
    var d, active := ReservationDict(entries), ReservationDict(entries).Keys - ResolvedSet(entries);
    var keys := Present(HeldKeys(records, outcomes));
    HeldSum(entries, digest, proofs, outcomes, incidents, records);
    var others := active - keys;
    assert keys + others == active;
    SumOverSplit(d, keys, others);
    ActiveIsSum(entries);
    AcceptedKeysDistinct(entries, digest);
    DictPartSum(entries, others);
    AmountsNonneg(entries, others);
  }

  // ---- ledgers that show these cases ----

  function Prefixed(digest: Digest): Digest {
    (b: Body) => "d" + digest(b)
  }

  lemma PrefixedInjective(digest: Digest)
    requires Injective(digest)
    ensures Injective(Prefixed(digest))
  {
    forall a, b | Prefixed(digest)(a) == Prefixed(digest)(b) ensures a == b {
      assert Prefixed(digest)(a)[1..] == digest(a) && Prefixed(digest)(b)[1..] == digest(b);
    }
  }

  const BLANK := Body(
    Missing, Missing, Missing, Missing, Missing, Missing, Missing, None, None, None, "")

  /** A ledger with one more entry, linked to the one before. */
  function Next(entries: seq<Entry>, digest: Digest, content: Body): (next: seq<Entry>)
    ensures |next| == |entries| + 1
  {
    var body := content.(
      previous := if entries == [] then Missing else Text(digest(entries[|entries| - 1].body)));
    entries + [Entry(Text(digest(body)), body)]
  }

  lemma NextChained(entries: seq<Entry>, digest: Digest, content: Body)
    requires Chained(entries, digest)
    ensures Chained(Next(entries, digest, content), digest)
  {
    ChainedSnoc(entries, Next(entries, digest, content)[|entries|], digest);
  }

  function Reservation(amount: Dec): Body {
    BLANK.(eventType := Text(CREATED), reservedUsd := Some(amount))
  }

  const FAILURE := BLANK.(eventType := Text(INCIDENT_EVENT), incident := Text(INCIDENT_NAME))

  /** A release of a whole reservation after an incident, on the proof filed under an address. */
  function Release(incident: Entry, reserved: Entry, amount: Dec, address: string): Body {
    BLANK.(
    eventType := Text("no_artifact_reconciliation_recorded"),
    decision := Text("release_pre_generation_no_cost_reservation"),
    incidentEntry := incident.recorded, reservation := reserved.recorded,
    releasedUsd := Some(amount), reconciliation := Text(address))
  }

  /** An artifact, or a reconciliation that decides anything but a release. */
  predicate ClosesOtherwise(closing: Body) {
    || closing.eventType == Text("artifact_recorded")
    || (&& closing.eventType == Text("no_artifact_reconciliation_recorded")
        && closing.decision != Text("release_pre_generation_no_cost_reservation"))
  }

  /** A reservation, an incident, and a closing entry for the reservation. */
  function StaleLedger(digest: Digest, amount: Dec, closing: Body): seq<Entry> {
    var two := Next(Next([], digest, Reservation(amount)), digest, FAILURE);
    Next(two, digest, closing.(reservation := two[0].recorded))
  }

  lemma StaleShape(digest: Digest, amount: Dec, closing: Body)
    requires ClosesOtherwise(closing)
    ensures var e := StaleLedger(digest, amount, closing);
            && |e| == 3
            && Creates(e[0]) && IsIncident(e[1])
            && e[0].recorded == Text(digest(e[0].body))
            && (digest(e[0].body) != "" ==> Resolves(e[2])) && e[2].body.reservation == e[0].recorded
            && (forall k, o, i :: 0 <= k < 3 ==> !Releases(e[k], o, i))
  {
    EventsDiffer();
  }

  lemma EventsDiffer()
    ensures CREATED != INCIDENT_EVENT && CREATED != ARTIFACT && CREATED != RECONCILED
    ensures INCIDENT_EVENT != ARTIFACT && INCIDENT_EVENT != RECONCILED && ARTIFACT != RECONCILED
  {
    assert CREATED[0] == 'r' && INCIDENT_EVENT[0] == 'e' && ARTIFACT[0] == 'a' && RECONCILED[0] == 'n';
  }

  /** On this ledger the incident is reported outstanding, its reservation is no longer active. */
  lemma StaleIncident(digest: Digest, amount: Dec, closing: Body, proofs: map<string, Proof>)
    requires Injective(digest) && Quantize(amount).Some? && ClosesOtherwise(closing)
    ensures var d := Prefixed(digest);
            var e := StaleLedger(d, amount, closing);
            var o := Outcome(Text(RETAINED_DECISION), e[0].recorded, Some(amount));
            && Injective(d) && Chained(e, d) && IsRetained(o) && IsIncident(e[1])
            && Assess(e, proofs, o, e[1]).Ok? && Assess(e, proofs, o, e[1]).value.Outstanding?
            && o.reservation.Text? && o.reservation.s in ReservationDict(e)
            && o.reservation.s !in ReservationDict(e).Keys - ResolvedSet(e)
  {
    hide StaleLedger, IsIncident, Creates, Resolves, Releases, Quantize, Injective, Chained;
    var d := Prefixed(digest);
    var e := StaleLedger(d, amount, closing);
    StaleShape(d, amount, closing);
    var o := Outcome(Text(RETAINED_DECISION), e[0].recorded, Some(amount));
    PrefixedInjective(digest);
    StaleChained(d, amount, closing);
    assert d(e[0].body)[0] == 'd';
    NoIndexes(e, o, e[1]);
    assert Usd(o.forecastUsd).Some? by {
      UsdMeans(o.forecastUsd, o.forecastUsd);
    }
    assert Key(e[0]) == o.reservation.s;
    assert Resolves(e[2]);
  }

  lemma NoIndexes(entries: seq<Entry>, o: Outcome, incident: Entry)
    ensures ReleaseIndexes(entries, o, incident) == [] <==>
            forall k :: 0 <= k < |entries| ==> !Releases(entries[k], o, incident)
  {
    hide Releases;
    var idx := ReleaseIndexes(entries, o, incident);
    if idx != [] {
      assert Releases(entries[idx[0]], o, incident);
    }
  }

  lemma StaleChained(digest: Digest, amount: Dec, closing: Body)
    ensures Chained(StaleLedger(digest, amount, closing), digest)
  {
    var one := Next([], digest, Reservation(amount));
    var two := Next(one, digest, FAILURE);
    hide Chained, Next;
    EmptyChained(digest);
    NextChained([], digest, Reservation(amount));
    NextChained(one, digest, FAILURE);
    NextChained(two, digest, closing.(reservation := two[0].recorded));
  }

  lemma EmptyChained(digest: Digest)
    ensures Chained([], digest)
  {
  }

  /** Two reservations, an incident for each, then a release for each. */
  function ReleasedLedger(digest: Digest, amount: Dec, address: string): seq<Entry> {
    var two := Next(Next([], digest, Reservation(amount)), digest, Reservation(amount));
    var four := Next(Next(two, digest, FAILURE), digest, FAILURE);
    var five := Next(four, digest, Release(four[2], four[0], amount, address));
    Next(five, digest, Release(four[3], four[1], amount, address))
  }

  const ZERO_COST := Proof("", Some(false), Some(false), None, Some(true))

  predicate IsRelease(e: Entry, incident: Entry, reserved: Entry, amount: Dec, address: string) {
    e.body == Release(incident, reserved, amount, address).(previous := e.body.previous)
  }

  lemma ReleasedShape(digest: Digest, amount: Dec, address: string)
    ensures var e := ReleasedLedger(digest, amount, address);
            && |e| == 6
            && Creates(e[0]) && Creates(e[1]) && IsIncident(e[2]) && IsIncident(e[3])
            && IsRelease(e[4], e[2], e[0], amount, address) && IsRelease(e[5], e[3], e[1], amount, address)
  {
  }

  lemma ReleasedChained(digest: Digest, amount: Dec, address: string)
    ensures Chained(ReleasedLedger(digest, amount, address), digest)
  {
    var one := Next([], digest, Reservation(amount));
    var two := Next(one, digest, Reservation(amount));
    var three := Next(two, digest, FAILURE);
    var four := Next(three, digest, FAILURE);
    var five := Next(four, digest, Release(four[2], four[0], amount, address));
    hide Chained, Next;
    EmptyChained(digest);
    NextChained([], digest, Reservation(amount));
    NextChained(one, digest, Reservation(amount));
    NextChained(two, digest, FAILURE);
    NextChained(three, digest, FAILURE);
    NextChained(four, digest, Release(four[2], four[0], amount, address));
    NextChained(five, digest, Release(four[3], four[1], amount, address));
  }

  lemma OneValue(idx: seq<nat>, k: nat)
    requires |idx| > 0 && idx[0] == k && (|idx| > 1 ==> idx[0] < idx[1] == k)
    ensures idx == [k]
  {
  }

  lemma OnlyRelease(entries: seq<Entry>, o: Outcome, incident: Entry, k: nat)
    requires k < |entries| && Releases(entries[k], o, incident)
    requires forall i :: 0 <= i < |entries| && i != k ==> !Releases(entries[i], o, incident)
    ensures ReleaseIndexes(entries, o, incident) == [k]
  {
    hide Releases;
    var idx := ReleaseIndexes(entries, o, incident);
    assert k in idx;
    forall t | 0 <= t < |idx| ensures idx[t] == k {
      assert Releases(entries[idx[t]], o, incident);
    }
    OneValue(idx, k);
  }

  lemma ZeroUsd()
    ensures Usd(None) == Some("0")
  {
    hide Quantize;
    ZeroQuantizes();
    ZeroText(Dec(false, 0, 0));
  }

  lemma OthersRelease(e: Entry, o: Outcome, incident: Entry)
    requires IsIncident(e) || Creates(e)
    ensures !Releases(e, o, incident)
  {
    EventsDiffer();
  }

  lemma ReleaseMatches(
    e: Entry, source: Entry, reserved: Entry, amount: Dec, address: string, o: Outcome, incident: Entry)
    requires IsRelease(e, source, reserved, amount, address)
    requires source.recorded.Text? && incident.recorded.Text?
    ensures Releases(e, o, incident) <==>
            source.recorded == incident.recorded && reserved.recorded.Get() == o.reservation.Get()
    ensures ProofKey(e) == address && e.body.releasedUsd == Some(amount) && e.body.generationUsd == None
  {
  }

  /** A release that names no proof is refused, unless one is filed under the text Python gives for the lack of one. */
  lemma ProofMissing(entries: seq<Entry>, proofs: map<string, Proof>, o: Outcome, incident: Entry, k: nat)
    requires OnlyReleaseAt(entries, o, incident, k)
    requires || (entries[k].body.reconciliation == Missing && "" !in proofs)
             || (entries[k].body.reconciliation == Null && "None" !in proofs)
    requires Usd(o.forecastUsd).Some?
    ensures Assess(entries, proofs, o, incident) == Err(UnknownProof)
  {
    hide Usd, Releases, Settling, Assess;
    AssessExact(entries, proofs, o, incident);
    assert ProofKey(entries[k]) !in proofs;
  }

  /** The last test: the one release is of the whole forecast, on a zero-cost proof. */
  lemma WhollyReleased(
    entries: seq<Entry>, o: Outcome, incident: Entry, amount: Dec, address: string, k: nat)
    requires k < |entries| && ReleaseIndexes(entries, o, incident) == [k]
    requires var e := entries[k];
             ProofKey(e) == address && e.body.releasedUsd == Some(amount) && e.body.generationUsd == None
    requires o.forecastUsd == Some(amount) && Quantize(amount).Some?
    ensures var r := Assess(entries, map[address := ZERO_COST], o, incident); r.Ok? && r.value.Released?
  {
    ZeroUsd();
    UsdMeans(o.forecastUsd, o.forecastUsd);
    hide Usd, Quantize, ReleaseIndexes;
  }

  /**
   Both incidents of this ledger are released, by one zero-cost proof under any address; each reservation was on
   the books and is no longer active.
   */
  lemma BothReleased(digest: Digest, amount: Dec, address: string, k: nat)
    requires Injective(digest) && Quantize(amount).Some? && (k == 2 || k == 3)
    ensures var d := Prefixed(digest);
            var e := ReleasedLedger(d, amount, address);
            var o := Outcome(Text(RETAINED_DECISION), e[k - 2].recorded, Some(amount));
            var proofs := map[address := ZERO_COST];
            && Injective(d) && Chained(e, d) && IsRetained(o) && IsIncident(e[k])
            && Assess(e, proofs, o, e[k]).Ok? && Assess(e, proofs, o, e[k]).value.Released?
            && o.reservation.Text? && o.reservation.s in ReservationDict(e)
            && o.reservation.s !in ReservationDict(e).Keys - ResolvedSet(e)
  {
    hide ReleasedLedger, Chained, Injective, Quantize, IsIncident, IsRelease, Creates, Releases, Assess, ReleaseIndexes;
    var d := Prefixed(digest);
    ReleasedShape(d, amount, address);
    var e := ReleasedLedger(d, amount, address);
    var o := Outcome(Text(RETAINED_DECISION), e[k - 2].recorded, Some(amount));
    PrefixedInjective(digest);
    ReleasedChained(d, amount, address);
    DigestsDistinct(e, d);
    RecordedIsText(e, d);
    OthersRelease(e[0], o, e[k]);
    OthersRelease(e[1], o, e[k]);
    OthersRelease(e[2], o, e[k]);
    OthersRelease(e[3], o, e[k]);
    ReleaseMatches(e[4], e[2], e[0], amount, address, o, e[k]);
    ReleaseMatches(e[5], e[3], e[1], amount, address, o, e[k]);
    OnlyRelease(e, o, e[k], k + 2);
    WhollyReleased(e, o, e[k], amount, address, k + 2);
    RecordedIsPrefixed(e, digest, k - 2);
    ReleaseResolves(e, k + 2, o, e[k]);
    assert Key(e[k - 2]) == o.reservation.s;
  }

  lemma RecordedIsPrefixed(entries: seq<Entry>, digest: Digest, k: nat)
    requires Chained(entries, Prefixed(digest)) && k < |entries|
    ensures entries[k].recorded.Text? && entries[k].recorded.s != ""
  {
    assert EntryHolds(entries, k, Prefixed(digest));
  }
}
