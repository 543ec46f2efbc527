/**
 The governed-spend guard on budget counters (alembic/versions/0015_release_integrity_controls.py),
 in both dialects, over the nullable values a trigger sees.
 */
module BudgetGuards {
  import opened Outcomes
  import opened SqlLogic

  datatype Counters = Counters(used: Option<int>, reserved: Option<int>)

  /** PL/pgSQL: two separate tests, the second on updates only. */
  predicate PgRaises(before: Option<Counters>, n: Counters) {
    || Fires(Or(LessThan(n.used, Some(0)), LessThan(n.reserved, Some(0))))
    || (before.Some? && Fires(LessThan(n.used, before.value.used)))
  }

  /** SQLite: one trigger for inserts, and one for updates with all three tests in its condition. */
  predicate SqliteRaises(before: Option<Counters>, n: Counters) {
    match before
    case None => Fires(Or(LessThan(n.used, Some(0)), LessThan(n.reserved, Some(0))))
    case Some(o) => Fires(AnyOf([LessThan(n.used, Some(0)), LessThan(n.reserved, Some(0)), LessThan(n.used, o.used)]))
  }

  /** The dialects refuse the same budget writes, nulls included. */
  lemma BudgetGuardsAgree(before: Option<Counters>, n: Counters)
    ensures PgRaises(before, n) <==> SqliteRaises(before, n)
  {
    hide AnyOf;
    if before.Some? {
      AnyOfFires([LessThan(n.used, Some(0)), LessThan(n.reserved, Some(0)), LessThan(n.used, before.value.used)]);
    }
  }

  /** On counters that are present, a write goes through exactly when it is nonnegative and does not lower the spend. */
  lemma BudgetMeans(before: Option<Counters>, n: Counters)
    requires n.used.Some? && n.reserved.Some? && (before.Some? ==> before.value.used.Some?)
    ensures !PgRaises(before, n) <==>
            && n.used.value >= 0 && n.reserved.value >= 0
            && (before.Some? ==> n.used.value >= before.value.used.value)
  {
  }
}
