/**
 Reservation accounting over the ledger (scripts/aggregate_frontier_evidence.py, _runner_summary):
 the digest-keyed dict of reservations, the set of resolved ones, and the active sum.
 */
module Reservations {
  import CompactDecimal
  import opened Outcomes
  import opened Sums
  import opened Ledger

  const CREATED := "reservation_created"
  const ARTIFACT := "artifact_recorded"
  const RECONCILED := "no_artifact_reconciliation_recorded"
  const RELEASE := "release_pre_generation_no_cost_reservation"

  predicate Creates(e: Entry) {
    e.body.eventType.Get() == Some(CREATED)
  }

  /** Python's `str` of an optional digest. */
  function Key(e: Entry): string {
    if e.recorded.Text? then e.recorded.s else "None"
  }

  function Amount(e: Entry): real {
    if e.body.reservedUsd.Some? then CompactDecimal.Value(e.body.reservedUsd.value) else 0.0
  }

  /** An entry that takes some reservation off the books, whatever its decision says. */
  predicate Resolves(e: Entry) {
    && (e.body.eventType.Get() == Some(ARTIFACT) || e.body.eventType.Get() == Some(RECONCILED))
    && e.body.reservation.Text? && e.body.reservation.s != ""
  }

  /** The dict of reservations by entry digest; a repeated digest would overwrite. */
  function ReservationDict(entries: seq<Entry>): (d: map<string, real>)
    ensures forall k :: k in d <==> exists i :: 0 <= i < |entries| && Creates(entries[i]) && Key(entries[i]) == k
  {
    if entries == [] then map[] else
      var front, last := entries[..|entries| - 1], entries[|entries| - 1];
      assert forall i :: 0 <= i < |front| ==> entries[i] == front[i];
      if Creates(last) then ReservationDict(front)[Key(last) := Amount(last)] else ReservationDict(front)
  }

  function ResolvedSet(entries: seq<Entry>): (s: set<string>)
    ensures forall k :: k in s <==>
              exists i :: 0 <= i < |entries| && Resolves(entries[i]) && entries[i].body.reservation.s == k
  {
    set i | 0 <= i < |entries| && Resolves(entries[i]) :: entries[i].body.reservation.s
  }

  /** The sum of a dict's values over some of its keys, in whatever order they come. */
  ghost function SumOver(d: map<string, real>, keys: set<string>): real
    requires keys <= d.Keys
  {
    if keys == {} then 0.0 else
      var k :| k in keys;
      d[k] + SumOver(d, keys - {k})
  }

  /** Any key can be taken out first. */
  lemma {:induction false} SumOverTake(d: map<string, real>, keys: set<string>, k: string)
    requires keys <= d.Keys && k in keys
    ensures SumOver(d, keys) == d[k] + SumOver(d, keys - {k})
    decreases |keys|
  {
    var c :| c in keys && SumOver(d, keys) == d[c] + SumOver(d, keys - {c});
    if c != k {
      SumOverTake(d, keys - {c}, k);
      SumOverTake(d, keys - {k}, c);
      assert keys - {c} - {k} == keys - {k} - {c};
    }
  }

  lemma {:induction false} SumOverSame(d: map<string, real>, e: map<string, real>, keys: set<string>)
    requires keys <= d.Keys && keys <= e.Keys
    requires forall k :: k in keys ==> d[k] == e[k]
    ensures SumOver(d, keys) == SumOver(e, keys)
    decreases |keys|
  {
    if keys != {} {
      var k :| k in keys;
      SumOverTake(d, keys, k);
      SumOverTake(e, keys, k);
      SumOverSame(d, e, keys - {k});
    }
  }

  /** The source's active reservation: the dict's amounts over the keys nothing resolves. */
  ghost function ActiveReservation(entries: seq<Entry>): real {
    SumOver(ReservationDict(entries), ReservationDict(entries).Keys - ResolvedSet(entries))
  }

  /** Amounts per entry, for reservations whose key does or does not lie in a set. */
  function Amounts(entries: seq<Entry>, keys: set<string>, inside: bool): (a: seq<real>)
    ensures |a| == |entries|
    ensures forall i :: 0 <= i < |a| ==>
              a[i] == if Creates(entries[i]) && (Key(entries[i]) in keys) == inside then Amount(entries[i]) else 0.0
  {
    seq(|entries|, i requires 0 <= i < |entries| =>
      if Creates(entries[i]) && (Key(entries[i]) in keys) == inside then Amount(entries[i]) else 0.0)
  }

  /** Everything the ledger ever reserved, entry by entry. */
  function TotalReserved(entries: seq<Entry>): real {
    Sum(Amounts(entries, {}, false))
  }

  /** What has been reserved and resolved, entry by entry. */
  function ResolvedReserved(entries: seq<Entry>): real {
    Sum(Amounts(entries, ResolvedSet(entries), true))
  }

  ghost predicate DistinctKeys(entries: seq<Entry>) {
    forall i, j :: 0 <= i < j < |entries| ==> Key(entries[i]) != Key(entries[j])
  }

  lemma AcceptedKeysDistinct(entries: seq<Entry>, digest: Digest)
    requires Injective(digest) && Chained(entries, digest)
    ensures DistinctKeys(entries)
  {
    DigestsDistinct(entries, digest);
    forall i, j | 0 <= i < j < |entries| ensures Key(entries[i]) != Key(entries[j]) {
      assert EntryHolds(entries, i, digest) && EntryHolds(entries, j, digest);
    }
  }

  /** With distinct keys the dict loses nothing: summing it is summing the entries. */
  lemma {:induction false} DictSumIsEntrySum(entries: seq<Entry>, out: set<string>)
    requires DistinctKeys(entries)
    ensures SumOver(ReservationDict(entries), ReservationDict(entries).Keys - out) == Sum(Amounts(entries, out, false))
  {
    if entries == [] {
      assert ReservationDict(entries).Keys - out == {};
    } else {
      var front, last := entries[..|entries| - 1], entries[|entries| - 1];
      DictSumIsEntrySum(front, out);
      assert Amounts(entries, out, false)[..|front|] == Amounts(front, out, false);
      var d, e := ReservationDict(front), ReservationDict(entries);
      if Creates(last) {
        LastKeyIsNew(entries);
        SumOverAdd(d, e, Key(last), Amount(last), out);
      }
    }
  }

  lemma SumOverAdd(d: map<string, real>, e: map<string, real>, k: string, amount: real, out: set<string>)
    requires k !in d && e == d[k := amount]
    ensures SumOver(e, e.Keys - out) == SumOver(d, d.Keys - out) + if k in out then 0.0 else amount
  {
    hide SumOver;
    assert e.Keys == d.Keys + {k};
    SumOverSame(d, e, d.Keys - out);
    if k in out {
      assert e.Keys - out == d.Keys - out;
    } else {
      SumOverTake(e, e.Keys - out, k);
      assert e.Keys - out - {k} == d.Keys - out;
    }
  }

  lemma LastKeyIsNew(entries: seq<Entry>)
    requires DistinctKeys(entries) && |entries| > 0
    ensures Key(entries[|entries| - 1]) !in ReservationDict(entries[..|entries| - 1])
  {
    var front := entries[..|entries| - 1];
    assert forall i :: 0 <= i < |front| ==> front[i] == entries[i];
  }

  /** Total reserved = active + resolved, on every accepted ledger. */
  lemma ReservationsConserved(entries: seq<Entry>, digest: Digest)
    requires Injective(digest) && Chained(entries, digest)
    ensures TotalReserved(entries) == ActiveReservation(entries) + ResolvedReserved(entries)
  {
    hide Sum, SumOver;
    AcceptedKeysDistinct(entries, digest);
    DictSumIsEntrySum(entries, ResolvedSet(entries));
    SumAdd(
      Amounts(entries, ResolvedSet(entries), false), Amounts(entries, ResolvedSet(entries), true),
      Amounts(entries, {}, false));
  }

  /** The name a reservation goes by: its recorded digest, or Python's "None" without one. */
  predicate NamedBy(e: Entry, k: string) {
    e.recorded == Text(k) || (!e.recorded.Text? && k == "None")
  }

  /** An entry after which a named reservation counts as resolved: an artifact or any reconciliation of it. */
  predicate Closes(e: Entry, k: string) {
    && e.body.reservation == Text(k) && k != ""
    && (|| e.body.eventType == Text("artifact_recorded")
        || e.body.eventType == Text("no_artifact_reconciliation_recorded"))
  }

  /** A reservation is active exactly while no artifact and no reconciliation names it, whatever that one decided. */
  lemma ActiveMeans(entries: seq<Entry>, k: string)
    ensures k in ReservationDict(entries).Keys - ResolvedSet(entries) <==>
            && (exists e :: e in entries && e.body.eventType == Text("reservation_created") && NamedBy(e, k))
            && (forall e :: e in entries ==> !Closes(e, k))
  {
    forall i | 0 <= i < |entries|
      ensures Creates(entries[i]) && Key(entries[i]) == k <==>
              entries[i].body.eventType == Text("reservation_created") && NamedBy(entries[i], k)
      ensures Resolves(entries[i]) && entries[i].body.reservation.s == k <==> Closes(entries[i], k)
    {
      CreatesMeans(entries[i], k);
      ResolvesMeans(entries[i], k);
    }
    hide Creates, Key, Resolves, Closes, NamedBy;
    if k in ReservationDict(entries) {
      var i :| 0 <= i < |entries| && Creates(entries[i]) && Key(entries[i]) == k;
      assert entries[i] in entries;
    }
    if k in ResolvedSet(entries) {
      var i :| 0 <= i < |entries| && Resolves(entries[i]) && entries[i].body.reservation.s == k;
      assert entries[i] in entries;
    }
  }

  lemma CreatesMeans(e: Entry, k: string)
    ensures Creates(e) && Key(e) == k <==> e.body.eventType == Text("reservation_created") && NamedBy(e, k)
  {
  }

  lemma ResolvesMeans(e: Entry, k: string)
    ensures Resolves(e) && e.body.reservation.s == k <==> Closes(e, k)
  {
  }

  /** The active sum, entry by entry: each reservation that nothing closes adds the amount it states, if any. */
  lemma ActiveSumMeans(entries: seq<Entry>, digest: Digest, a: seq<real>)
    requires Injective(digest) && Chained(entries, digest) && |a| == |entries|
    requires forall i :: 0 <= i < |a| ==>
               var e := entries[i];
               a[i] == if && e.body.eventType == Text("reservation_created") && e.body.reservedUsd.Some?
                          && e.recorded.Text? && (forall c :: c in entries ==> !Closes(c, e.recorded.s))
                       then CompactDecimal.Value(e.body.reservedUsd.value) else 0.0
    ensures ActiveReservation(entries) == Sum(a)
  {
    hide Sum, SumOver, CompactDecimal.Value;
    AcceptedKeysDistinct(entries, digest);
    DictSumIsEntrySum(entries, ResolvedSet(entries));
    var b := Amounts(entries, ResolvedSet(entries), false);
    forall i | 0 <= i < |a| ensures a[i] == b[i] {
      assert EntryHolds(entries, i, digest);
      if Creates(entries[i]) {
        assert entries[i] in entries;
        ActiveMeans(entries, Key(entries[i]));
        assert Key(entries[i]) in ReservationDict(entries);
      }
    }
    assert a == b;
  }

  // ---- a running balance to compare with ----

  datatype Books = Books(open: map<string, real>, balance: real)

  /** One entry at a time: a reservation opens, and the first entry to resolve an open one releases it. */
  function Post(b: Books, e: Entry): Books {
    if Creates(e) then Books(b.open[Key(e) := Amount(e)], b.balance + Amount(e))
    else if Resolves(e) && e.body.reservation.s in b.open then
      Books(b.open - {e.body.reservation.s}, b.balance - b.open[e.body.reservation.s])
    else b
  }

  function RunningBooks(entries: seq<Entry>): Books {
    if entries == [] then Books(map[], 0.0)
    else Post(RunningBooks(entries[..|entries| - 1]), entries[|entries| - 1])
  }

  /** Entry i is a reservation that no later entry resolves. */
  ghost predicate StillOpen(entries: seq<Entry>, i: nat)
    requires i < |entries|
  {
    && Creates(entries[i])
    && forall j :: i < j < |entries| && Resolves(entries[j]) ==> entries[j].body.reservation.s != Key(entries[i])
  }

  ghost predicate OpenAre(open: map<string, real>, entries: seq<Entry>) {
    && (forall i :: 0 <= i < |entries| && StillOpen(entries, i) ==>
          Key(entries[i]) in open && open[Key(entries[i])] == Amount(entries[i]))
    && forall k :: k in open ==> exists i :: 0 <= i < |entries| && StillOpen(entries, i) && Key(entries[i]) == k
  }

  lemma StillOpenSnoc(entries: seq<Entry>, i: nat)
    requires |entries| > 0 && i < |entries| - 1
    ensures StillOpen(entries, i) <==>
            && StillOpen(entries[..|entries| - 1], i)
            && !(Resolves(entries[|entries| - 1]) && entries[|entries| - 1].body.reservation.s == Key(entries[i]))
  {
    var n := |entries| - 1;
    var front := entries[..n];
    assert forall j :: 0 <= j < n ==> front[j] == entries[j];
    if StillOpen(front, i) && !(Resolves(entries[n]) && entries[n].body.reservation.s == Key(entries[i])) {
      forall j | i < j < |entries| && Resolves(entries[j]) ensures entries[j].body.reservation.s != Key(entries[i]) {
        assert j < n ==> Resolves(front[j]);
      }
    }
    if StillOpen(entries, i) {
      forall j | i < j < n && Resolves(front[j]) ensures front[j].body.reservation.s != Key(front[i]) {
        assert Resolves(entries[j]);
      }
    }
  }

  lemma OpenSnocHolds(entries: seq<Entry>, open: map<string, real>, balance: real, i: nat)
    requires |entries| > 0 && DistinctKeys(entries) && OpenAre(open, entries[..|entries| - 1])
    requires i < |entries| && StillOpen(entries, i)
    ensures var after := Post(Books(open, balance), entries[|entries| - 1]).open;
            Key(entries[i]) in after && after[Key(entries[i])] == Amount(entries[i])
  {
    var front := entries[..|entries| - 1];
    if i < |front| {
      assert front[i] == entries[i];
      StillOpenSnoc(entries, i);
      assert Key(front[i]) in open;
    }
  }

  lemma OpenSnocOnly(entries: seq<Entry>, open: map<string, real>, balance: real, k: string)
    requires |entries| > 0 && DistinctKeys(entries) && OpenAre(open, entries[..|entries| - 1])
    requires k in Post(Books(open, balance), entries[|entries| - 1]).open
    ensures exists i :: 0 <= i < |entries| && StillOpen(entries, i) && Key(entries[i]) == k
  {
    var n := |entries| - 1;
    var front, last := entries[..n], entries[n];
    if Creates(last) && k == Key(last) {
      assert StillOpen(entries, n);
    } else {
      var i :| 0 <= i < n && StillOpen(front, i) && Key(front[i]) == k;
      assert front[i] == entries[i];
      StillOpenSnoc(entries, i);
      assert StillOpen(entries, i);
    }
  }

  lemma OpenSnoc(entries: seq<Entry>)
    requires |entries| > 0 && DistinctKeys(entries)
    requires OpenAre(RunningBooks(entries[..|entries| - 1]).open, entries[..|entries| - 1])
    ensures OpenAre(RunningBooks(entries).open, entries)
  {
    hide RunningBooks, Resolves, Post, StillOpen;
    var b := RunningBooks(entries[..|entries| - 1]);
    var after := RunningBooks(entries).open;
    PostLast(entries);
    forall i | 0 <= i < |entries| && StillOpen(entries, i)
      ensures Key(entries[i]) in after && after[Key(entries[i])] == Amount(entries[i])
    {
      OpenSnocHolds(entries, b.open, b.balance, i);
    }
    forall k | k in after ensures exists i :: 0 <= i < |entries| && StillOpen(entries, i) && Key(entries[i]) == k {
      OpenSnocOnly(entries, b.open, b.balance, k);
    }
  }

  lemma PostLast(entries: seq<Entry>)
    requires |entries| > 0
    ensures RunningBooks(entries) == Post(RunningBooks(entries[..|entries| - 1]), entries[|entries| - 1])
    ensures Creates(entries[|entries| - 1]) ==> !Resolves(entries[|entries| - 1])
  {
  }

  /** The books hold exactly the reservations no later entry resolves. */
  lemma {:induction false} BooksHoldOpen(entries: seq<Entry>)
    requires DistinctKeys(entries)
    ensures OpenAre(RunningBooks(entries).open, entries)
  {
    if entries != [] {
      var front := entries[..|entries| - 1];
      assert forall i :: 0 <= i < |front| ==> front[i] == entries[i];
      BooksHoldOpen(front);
      OpenSnoc(entries);
    }
  }

  /** The balance is the sum of what is open: nothing is released twice. */
  lemma {:induction false} BalanceIsOpenSum(entries: seq<Entry>)
    requires DistinctKeys(entries)
    ensures RunningBooks(entries).balance == SumOver(RunningBooks(entries).open, RunningBooks(entries).open.Keys)
  {
    if entries != [] {
      var front, last := entries[..|entries| - 1], entries[|entries| - 1];
      assert forall i :: 0 <= i < |front| ==> front[i] == entries[i];
      BalanceIsOpenSum(front);
      BooksHoldOpen(front);
      PostBalance(RunningBooks(front), last, entries);
    }
  }

  lemma OpenKeysAreOld(open: map<string, real>, entries: seq<Entry>)
    requires |entries| > 0 && DistinctKeys(entries) && OpenAre(open, entries[..|entries| - 1])
    ensures Key(entries[|entries| - 1]) !in open
  {
    var front := entries[..|entries| - 1];
    forall k | k in open ensures k != Key(entries[|entries| - 1]) {
      var i :| 0 <= i < |front| && StillOpen(front, i) && Key(front[i]) == k;
      assert entries[i] == front[i];
    }
  }

  lemma PostBalance(b: Books, e: Entry, entries: seq<Entry>)
    requires |entries| > 0 && e == entries[|entries| - 1] && DistinctKeys(entries)
    requires OpenAre(b.open, entries[..|entries| - 1]) && b.balance == SumOver(b.open, b.open.Keys)
    ensures Post(b, e).balance == SumOver(Post(b, e).open, Post(b, e).open.Keys)
  {
    hide SumOver;
    var after := Post(b, e).open;
    if Creates(e) {
      OpenKeysAreOld(b.open, entries);
      assert after.Keys - {Key(e)} == b.open.Keys;
      SumOverTake(after, after.Keys, Key(e));
      SumOverSame(b.open, after, b.open.Keys);
    } else if Resolves(e) && e.body.reservation.s in b.open {
      assert after.Keys == b.open.Keys - {e.body.reservation.s};
      SumOverTake(b.open, b.open.Keys, e.body.reservation.s);
      SumOverSame(b.open, after, after.Keys);
    }
  }

  /** Whenever a reservation is resolved at all, it is resolved after it is made. */
  ghost predicate ResolvedAfterwards(entries: seq<Entry>) {
    forall i :: 0 <= i < |entries| && StillOpen(entries, i) ==> Key(entries[i]) !in ResolvedSet(entries)
  }

  /** Every entry that resolves a reservation of this ledger names an earlier one. */
  ghost predicate NamesEarlier(entries: seq<Entry>) {
    forall i, j ::
      0 <= i < |entries| && 0 <= j < |entries| && Creates(entries[i])
      && Resolves(entries[j]) && entries[j].body.reservation.s == Key(entries[i])
      ==> i < j
  }

  /**
   The batch computation and the running books leave the same reservations open exactly when none is resolved
   only beforehand.
   */
  lemma BatchMatchesBooks(entries: seq<Entry>, digest: Digest)
    requires Injective(digest) && Chained(entries, digest)
    ensures ReservationDict(entries).Keys - ResolvedSet(entries) == RunningBooks(entries).open.Keys <==>
              ResolvedAfterwards(entries)
    ensures ResolvedAfterwards(entries) ==> ActiveReservation(entries) == RunningBooks(entries).balance
    ensures NamesEarlier(entries) ==> ResolvedAfterwards(entries)
  {
    hide SumOver, RunningBooks;
    AcceptedKeysDistinct(entries, digest);
    BooksHoldOpen(entries);
    BalanceIsOpenSum(entries);
    BatchIsOpen(entries, RunningBooks(entries).open);
    if ResolvedAfterwards(entries) {
      DictAmounts(entries);
      SumOverSame(ReservationDict(entries), RunningBooks(entries).open, RunningBooks(entries).open.Keys);
    }
    NamingEarlierSuffices(entries);
  }

  lemma BatchIsOpen(entries: seq<Entry>, open: map<string, real>)
    requires DistinctKeys(entries) && OpenAre(open, entries)
    ensures ReservationDict(entries).Keys - ResolvedSet(entries) == open.Keys <==> ResolvedAfterwards(entries)
    ensures ReservationDict(entries).Keys - ResolvedSet(entries) <= open.Keys
  {
    hide Resolves;
    var batch := ReservationDict(entries).Keys - ResolvedSet(entries);
    forall k | k in batch ensures k in open {
      var i :| 0 <= i < |entries| && Creates(entries[i]) && Key(entries[i]) == k;
      assert StillOpen(entries, i);
    }
    if ResolvedAfterwards(entries) {
      forall k | k in open ensures k in batch {
        var i :| 0 <= i < |entries| && StillOpen(entries, i) && Key(entries[i]) == k;
      }
    }
  }

  lemma DictLast(entries: seq<Entry>)
    requires entries != []
    ensures var front, last := entries[..|entries| - 1], entries[|entries| - 1];
            ReservationDict(entries)
              == if Creates(last) then ReservationDict(front)[Key(last) := Amount(last)] else ReservationDict(front)
  {
  }

  lemma FrontKeysDistinct(entries: seq<Entry>)
    requires entries != [] && DistinctKeys(entries)
    ensures DistinctKeys(entries[..|entries| - 1])
  {
  }

  lemma {:induction false} DictAmount(entries: seq<Entry>, i: nat)
    requires DistinctKeys(entries) && i < |entries| && Creates(entries[i])
    ensures Key(entries[i]) in ReservationDict(entries)
              && ReservationDict(entries)[Key(entries[i])] == Amount(entries[i])
  {
    hide ReservationDict, Creates, Key, Amount;
    var n := |entries| - 1;
    DictLast(entries);
    if i < n {
      assert Key(entries[i]) != Key(entries[n]);
      FrontKeysDistinct(entries);
      DictAmount(entries[..n], i);
    }
  }

  lemma DictAmounts(entries: seq<Entry>)
    requires DistinctKeys(entries)
    ensures forall i :: 0 <= i < |entries| && Creates(entries[i]) ==>
              Key(entries[i]) in ReservationDict(entries)
                && ReservationDict(entries)[Key(entries[i])] == Amount(entries[i])
  {
    hide *;
    forall i | 0 <= i < |entries| && Creates(entries[i])
      ensures Key(entries[i]) in ReservationDict(entries)
                && ReservationDict(entries)[Key(entries[i])] == Amount(entries[i])
    {
      DictAmount(entries, i);
    }
  }

  lemma NamingEarlierSuffices(entries: seq<Entry>)
    ensures NamesEarlier(entries) ==> ResolvedAfterwards(entries)
  {
  }

  // ---- what the batch sum misses ----

  /** Entry i is open in the books and still counts as resolved, by an entry before it. */
  ghost predicate ResolvedAhead(entries: seq<Entry>, i: nat)
    requires i < |entries|
  {
    StillOpen(entries, i) && Key(entries[i]) in ResolvedSet(entries)
  }

  /** The amounts that entries before them resolved, and none after. */
  ghost function AmountsAhead(entries: seq<Entry>): (a: seq<real>)
    ensures |a| == |entries|
    ensures forall i :: 0 <= i < |a| ==> a[i] == if ResolvedAhead(entries, i) then Amount(entries[i]) else 0.0
  {
    seq(|entries|, i requires 0 <= i < |entries| => if ResolvedAhead(entries, i) then Amount(entries[i]) else 0.0)
  }

  /** The sum over some of the dict's keys, entry by entry. */
  lemma DictPartSum(entries: seq<Entry>, keys: set<string>)
    requires DistinctKeys(entries) && keys <= ReservationDict(entries).Keys
    ensures SumOver(ReservationDict(entries), keys) == Sum(Amounts(entries, keys, true))
  {
    hide SumOver, Sum;
    var all := ReservationDict(entries).Keys;
    DictSumIsEntrySum(entries, all - keys);
    assert all - (all - keys) == keys;
    forall i | 0 <= i < |entries| ensures Amounts(entries, all - keys, false)[i] == Amounts(entries, keys, true)[i] {
      assert Creates(entries[i]) ==> Key(entries[i]) in all;
    }
    assert Amounts(entries, all - keys, false) == Amounts(entries, keys, true);
  }

  lemma {:induction false} SumOverSplit(d: map<string, real>, a: set<string>, b: set<string>)
    requires a <= d.Keys && b <= d.Keys && a !! b
    ensures SumOver(d, a + b) == SumOver(d, a) + SumOver(d, b)
    decreases |a|
  {
    if a == {} {
      assert a + b == b;
    } else {
      hide SumOver;
      var k :| k in a;
      SumOverTake(d, a + b, k);
      SumOverTake(d, a, k);
      SumOverSplit(d, a - {k}, b);
      assert a + b - {k} == (a - {k}) + b;
    }
  }

  /** The keys a list names. */
  function Present(keys: seq<Option<string>>): (s: set<string>)
    ensures forall k :: k in s <==> exists i :: 0 <= i < |keys| && keys[i] == Some(k)
  {
    set i | 0 <= i < |keys| && keys[i].Some? :: keys[i].value
  }

  /** Amounts listed under distinct keys add up to the dict's amounts over those keys. */
  lemma {:induction false} KeyedSum(d: map<string, real>, keys: seq<Option<string>>, amounts: seq<real>)
    requires |keys| == |amounts|
    requires forall i :: 0 <= i < |keys| && keys[i].Some? ==> keys[i].value in d && d[keys[i].value] == amounts[i]
    requires forall i :: 0 <= i < |keys| && keys[i].None? ==> amounts[i] == 0.0
    requires forall i, j :: 0 <= i < j < |keys| && keys[i].Some? ==> keys[i] != keys[j]
    ensures Present(keys) <= d.Keys
    ensures SumOver(d, Present(keys)) == Sum(amounts)
  {
    if keys == [] {
      assert Present(keys) == {};
    } else {
      var n := |keys| - 1;
      KeyedSum(d, keys[..n], amounts[..n]);
      PresentLast(keys);
      if keys[n].Some? {
        SumOverTake(d, Present(keys), keys[n].value);
      }
    }
  }

  lemma PresentLast(keys: seq<Option<string>>)
    requires keys != [] && forall i :: 0 <= i < |keys| - 1 ==> keys[i].None? || keys[i] != keys[|keys| - 1]
    ensures var front, last := keys[..|keys| - 1], keys[|keys| - 1];
            Present(front) == if last.Some? then Present(keys) - {last.value} else Present(keys)
    ensures keys[|keys| - 1].Some? ==> keys[|keys| - 1].value in Present(keys)
  {
    var front := keys[..|keys| - 1];
    assert keys == front + [keys[|keys| - 1]];
  }

  lemma AmountsNonneg(entries: seq<Entry>, keys: set<string>)
    ensures (forall i :: 0 <= i < |entries| && Creates(entries[i]) ==> Amount(entries[i]) >= 0.0) ==>
              Sum(Amounts(entries, keys, true)) >= 0.0
  {
    hide Sum, Creates, Amount;
    if forall i :: 0 <= i < |entries| && Creates(entries[i]) ==> Amount(entries[i]) >= 0.0 {
      SumNonneg(Amounts(entries, keys, true));
    }
  }

  lemma AheadAmounts(entries: seq<Entry>, open: map<string, real>)
    requires DistinctKeys(entries) && OpenAre(open, entries)
    ensures Amounts(entries, open.Keys * ResolvedSet(entries), true) == AmountsAhead(entries)
  {
    hide Resolves, Amount;
    var keys := open.Keys * ResolvedSet(entries);
    forall i | 0 <= i < |entries|
      ensures Creates(entries[i]) && Key(entries[i]) in keys <==> ResolvedAhead(entries, i)
    {
      if Key(entries[i]) in open {
        var j :| 0 <= j < |entries| && StillOpen(entries, j) && Key(entries[j]) == Key(entries[i]);
        assert i == j;
      }
    }
  }

  /** The running balance is the batch sum and what was resolved ahead of its reservation. */
  lemma BalanceIsBatchAndAhead(entries: seq<Entry>, digest: Digest)
    requires Injective(digest) && Chained(entries, digest)
    ensures RunningBooks(entries).balance == ActiveReservation(entries) + Sum(AmountsAhead(entries))
  {
    hide *;
    ActiveIsSum(entries);
    var d, open := ReservationDict(entries), RunningBooks(entries).open;
    var batch, ahead := d.Keys - ResolvedSet(entries), open.Keys * ResolvedSet(entries);
    AcceptedKeysDistinct(entries, digest);
    BooksHoldOpen(entries);
    BalanceIsOpenSum(entries);
    BatchIsOpen(entries, open);
    OpenIsReserved(entries, open);
    OpenSplits(d.Keys, open.Keys, ResolvedSet(entries));
    SumOverSame(d, open, open.Keys);
    SumOverSplit(d, batch, ahead);
    DictPartSum(entries, ahead);
    AheadAmounts(entries, open);
  }

  lemma ActiveIsSum(entries: seq<Entry>)
    ensures ActiveReservation(entries)
         == SumOver(ReservationDict(entries), ReservationDict(entries).Keys - ResolvedSet(entries))
  {
  }

  lemma OpenSplits(all: set<string>, open: set<string>, resolved: set<string>)
    requires open <= all && all - resolved <= open
    ensures open == (all - resolved) + (open * resolved)
  {
  }

  lemma OpenIsReserved(entries: seq<Entry>, open: map<string, real>)
    requires DistinctKeys(entries) && OpenAre(open, entries)
    ensures forall k :: k in open ==> k in ReservationDict(entries) && ReservationDict(entries)[k] == open[k]
  {
    hide Resolves, Amount;
    DictAmounts(entries);
    forall k | k in open ensures k in ReservationDict(entries) && ReservationDict(entries)[k] == open[k] {
      var i :| 0 <= i < |entries| && StillOpen(entries, i) && Key(entries[i]) == k;
    }
  }

  /** When every reservation is of a positive amount, the sums agree exactly when none is resolved only beforehand. */
  lemma SumsAgreeExactly(entries: seq<Entry>, digest: Digest)
    requires Injective(digest) && Chained(entries, digest)
    requires forall i :: 0 <= i < |entries| && Creates(entries[i]) ==> Amount(entries[i]) > 0.0
    ensures ActiveReservation(entries) == RunningBooks(entries).balance <==> ResolvedAfterwards(entries)
  {
    hide *;
    BalanceIsBatchAndAhead(entries, digest);
    AheadPositive(entries);
    SumNonneg(AmountsAhead(entries));
  }

  lemma AheadPositive(entries: seq<Entry>)
    requires forall i :: 0 <= i < |entries| && Creates(entries[i]) ==> Amount(entries[i]) > 0.0
    ensures forall i :: 0 <= i < |entries| ==> AmountsAhead(entries)[i] >= 0.0
    ensures ResolvedAfterwards(entries) <==> forall i :: 0 <= i < |entries| ==> AmountsAhead(entries)[i] == 0.0
  {
    hide Amount, Resolves, ResolvedSet, Creates, Key;
    forall i | 0 <= i < |entries| ensures ResolvedAhead(entries, i) ==> AmountsAhead(entries)[i] > 0.0 {
    }
    if !ResolvedAfterwards(entries) {
      var i :| 0 <= i < |entries| && StillOpen(entries, i) && Key(entries[i]) in ResolvedSet(entries);
      assert AmountsAhead(entries)[i] > 0.0;
    }
  }

  // ---- nothing in the ledger check makes a resolution name an earlier entry ----

  /** A digest that gives one chosen body a chosen name. */
  function Named(digest: Digest, body: Body, name: string): Digest {
    (b: Body) => if b == body then name else "d" + digest(b)
  }

  const AHEAD := "ahead"

  function NamingBody(): Body {
    Body(Missing, Text(ARTIFACT), Text(AHEAD), Missing, Missing, Missing, Missing, None, None, None, "")
  }

  function NamedBody(digest: Digest, amount: CompactDecimal.Dec): Body {
    Body(
      Text("d" + digest(NamingBody())), Text(CREATED), Missing, Missing, Missing, Missing, Missing,
      Some(amount), None, None, "")
  }

  /** A resolution, then the reservation it already names. */
  function AheadLedger(digest: Digest, amount: CompactDecimal.Dec): seq<Entry> {
    [ Entry(Text("d" + digest(NamingBody())), NamingBody()), Entry(Text(AHEAD), NamedBody(digest, amount)) ]
  }

  function AheadDigest(digest: Digest, amount: CompactDecimal.Dec): Digest {
    Named(digest, NamedBody(digest, amount), AHEAD)
  }

  /**
   From any injective digest: another one and a ledger it accepts on which the batch counts nothing as active
   while the running books still hold the whole amount.
   */
  lemma NamingAheadSplits(digest: Digest, amount: CompactDecimal.Dec)
    requires Injective(digest)
    ensures Injective(AheadDigest(digest, amount)) && Chained(AheadLedger(digest, amount), AheadDigest(digest, amount))
    ensures ActiveReservation(AheadLedger(digest, amount)) == 0.0
    ensures RunningBooks(AheadLedger(digest, amount)).balance == CompactDecimal.Value(amount)
  {
    hide CompactDecimal.Value;
    var entries, d := AheadLedger(digest, amount), AheadDigest(digest, amount);
    forall a, b | d(a) == d(b) ensures a == b {
      assert AHEAD[0] == 'a';
      assert a != NamedBody(digest, amount) ==> d(a)[0] == 'd' && d(a)[1..] == digest(a);
      assert b != NamedBody(digest, amount) ==> d(b)[0] == 'd' && d(b)[1..] == digest(b);
    }
    assert NamingBody() != NamedBody(digest, amount) by {
      assert ARTIFACT[0] != CREATED[0];
    }
    assert entries[..1][..0] == [];
    assert entries[..1] == [entries[0]];
    assert EntryHolds(entries, 0, d) && EntryHolds(entries, 1, d);
    assert Resolves(entries[0]) && !Creates(entries[0]) && Creates(entries[1]);
    assert AHEAD in ResolvedSet(entries);
    assert ReservationDict(entries).Keys - ResolvedSet(entries) == {};
    assert RunningBooks(entries[..1]) == Books(map[], 0.0);
  }
}
