# Verified model of the FlavourBench evidence pipeline

FlavourBench publishes rankings of language models and keeps the evidence behind them in release files, an
append-only execution ledger and a guarded database. This project models, in Dafny, the parts whose correctness
does not follow from reading one function, and proves what they promise:

- **The inference kernel.** `CrossedDesign` and `TaskLayout` (sums of squares of the model-by-task matrix),
  `SignTest` (the exact paired test), `Holm` (three implementations of the same adjustment), `Ranks`, `Spearman` and
  `SpearmanTies` (ordinal ranks, mid-ranks, percentiles, two forms of rank correlation with and without ties), `Selection` (which tasks a
  roster of models gets) and `TotalVariation` (two forms of the same distance). Each closed form or single-pass
  loop is compared with a definition that counts or quantifies.
- **The execution ledger and the money in it.** `Ledger` (the hash chain and a summary's claim about it),
  `Reservations` (the digest-keyed books), `CompactDecimal` (amounts as text) and `Incidents` (retained
  reservations and their release).
- **The database guards.** `SqlLogic` (three-valued logic), `SnapshotGuards` and `SnapshotTable` (publication of
  leaderboard snapshots), `Withdrawal` (the clean-up before the unique indexes), `BudgetGuards`, `Accounts` (account
  ledgers and authorizations) and `Redaction` (tool-call and validator traces). Tables are mutable state; an
  accepted or refused statement is a method; which statements pass is stated column by column, safety over every
  sequence of statements, and a life of a row from the empty table to its end is written out.
- **Release checks and escaping.** `Grid` (length and set equality against exactly-once coverage) and `TexEscape`
  (chains of replacements against one-pass maps, and a decoder).

`Finite`, `Sums`, `Sorting` and `Outcomes` hold the counting, summation and sorting facts the others share.

Arithmetic is over exact integers and reals. A digest is a function parameter, assumed injective where a result
needs it. The numbers of models, tasks, panels and families are arbitrary unless the code itself checks a count
(32 tasks in the paired test, 27 models in the core release, 89 tasks per stratum).

Where the code does not do what it seems meant to, the model follows the code; a lemma shows an input, and another
says exactly when the code does meet the property:

- `_tex_escape` escapes the braces it has just inserted, so it is the intended one-pass map exactly on text without a
  backslash (`TexEscape.TexEscapeFaithful`).
- Nothing makes a resolution name an earlier ledger entry. The batch sum then leaves out amounts a running balance
  still holds (`Reservations.NamingAheadSplits`); by how much is `Reservations.BalanceIsBatchAndAhead`, and for
  positive amounts the two agree exactly when no reservation is resolved only before it is made
  (`Reservations.SumsAgreeExactly`).
- The closed Spearman form and the correlation of average ranks are two numbers under some ties
  (`SpearmanTies.TiedForms`, and `Spearman.TiesDisagree` where there is no correlation at all). They agree however the
  entries are listed exactly when neither vector has a tie, or both put the entries in the same order with at least
  two values (`SpearmanTies.AgreementExact`).
- SQLite lets a snapshot be renamed, to a free id and while no row supersedes it (`SnapshotTable.RenameExact`), and
  PostgreSQL does not (`SnapshotTable.IdsMayChange`), so the dialects keep the same table exactly while no update that
  SQLite accepts changes an id (`SnapshotTable.DialectsRunAlike`). The
  triggers alone also differ on a null status (`SnapshotGuards.TriggersAloneDiffer`), which the column constraints
  rule out.
- After the withdrawal pass the controlled-scope index can fail to build, because the pass groups by season and the
  index does not (`Withdrawal.TwoSeasonsClash`); exactly when is `Withdrawal.ControlledIndexExact`.
- The foreign key of authorizations is checked when a statement ends, so a row may supersede itself
  (`Accounts.SelfSupersessionAccepted`), and two rows of one insert each other (`Accounts.MutualSupersessionAccepted`).
  The links form chains for as long as the rows of every accepted insert supersede only rows before them, and no longer
  (`Accounts.ChainsExact`); for a statement of one row that means not itself (`Accounts.OneRowKeepsOrder`).
  The walk along predecessors in `src/flavourbench/account_authority.py:184-187` remembers the ids it has seen, so it
  ends on such links too.
- PostgreSQL lets through a redaction document that repeats its one name, SQLite does not
  (`Redaction.SealsDisagree`); on every other document they agree (`Redaction.SealsAgree`).
- An incident can be reported outstanding while its reservation is no longer active (`Incidents.StaleIncident`);
  exactly when is `Incidents.OutstandingButInactive`. When no other entry resolves what outstanding incidents hold, the
  active sum covers it (`Incidents.OutstandingIsCovered`).
- A negative amount that rounds to nothing is written "-0" (`CompactDecimal.ZeroText`).

## Model

| member | source | states |
|---|---|---|
| CrossedDesign.SumsOfSquaresClose | paper/build_stability_assets.py:211-220 | for every nonempty matrix the total sum of squares is the model, task and interaction sums of squares together, so the closure check at line 267 cannot fail in exact arithmetic |
| CrossedDesign.EffectsBalance | paper/build_stability_assets.py:213-217 | model effects and task effects each add up to nothing around the grand mean |
| CrossedDesign.MeanOfMeans | paper/build_stability_assets.py:213-215 | the mean of equally wide row means is the mean of all entries |
| TaskLayout.Grouping | paper/build_stability_assets.py:222-252 | adding a vector up label by label gives the sum over the kept positions: every task falls in exactly one group |
| TaskLayout.KeptMeanIsTaskMean | paper/build_stability_assets.py:222-229 | the mean of a column selection is the mean of the selected tasks' means |
| TaskLayout.FamilyMeanOfCells | paper/build_stability_assets.py:222-252 | in a balanced layout a family mean is the mean of its cell means and of its task means |
| TaskLayout.PanelMeanOfCells | paper/build_stability_assets.py:230-252 | in a balanced layout a panel mean is the mean of its cell means |
| TaskLayout.GrandMeanOfCells | paper/build_stability_assets.py:213-252 | the grand mean of the matrix is the grand mean of the cell means |
| TaskLayout.CellsPartition | paper/build_stability_assets.py:253-265 | the cell means' total sum of squares splits into the family, panel and family-by-panel parts |
| TaskLayout.TaskSplit | paper/build_stability_assets.py:217-265 | task effects' squares split into spread within cells and between cells |
| TaskLayout.WithinCellIsSpread | paper/build_stability_assets.py:253-266 | the within-cell term the code gets by subtraction is the number of models times the squared distances of task means from their cell means, hence never negative |
| SignTest.PValueIsExtremeShare | paper/build_epicure_native_assets.py:172-178 | the doubled, capped binomial tail is the fraction of all sign assignments of the discordant tasks at least as unbalanced as the observed one |
| SignTest.PValueSymmetric | paper/build_epicure_native_assets.py:151-178 | exchanging the two models changes nothing |
| SignTest.CapBindsOnTies | paper/build_epicure_native_assets.py:175-178 | with any discordant task, the doubled tail exceeds 1 exactly when the two counts are equal |
| SignTest.ExactlyCount | paper/build_epicure_native_assets.py:175-177 | the binomial coefficient counts the sign assignments with so many wins |
| SignTest.AtMostCount | paper/build_epicure_native_assets.py:175-177 | the summed coefficients count the sign assignments with at most so many wins |
| SignTest.TailsFill | paper/build_epicure_native_assets.py:175-178 | the two tails are disjoint and counted twice by the code when the counts differ, and cover everything when they are equal |
| SignTest.IndexOutcomes | paper/build_epicure_native_assets.py:152-159 | the dict loop fails exactly on a repeated unassisted observation, and otherwise holds exactly the recorded outcomes |
| SignTest.PairedExactP | paper/build_epicure_native_assets.py:151-178 | each error arises exactly for its condition; otherwise the result is the extreme share of the tasks only one model solved |
| Holm.AdjustArray | paper/build_selection_robustness_assets.py:123-132 | the running-maximum loop over a stable argsort computes the order-free Holm adjustment at every index |
| Holm.AdjustMap | paper/build_external_substitution_validation_assets.py:307-315 | the loop over sorted keys computes the same adjustment at every key, whatever order breaks ties |
| Holm.AdjustPairs | paper/build_epicure_native_assets.py:315-323 | the loop that caps before taking the maximum computes the same adjustment, in sorted order |
| Holm.RunningIsLargestStep | paper/build_selection_robustness_assets.py:127-132 | the running maximum along any ascending order is the largest step among values not above the current one, a quantity without an order |
| Holm.RejectedIsStepDown | paper/build_selection_robustness_assets.py:123-132 | the hypotheses rejected at a level are exactly those the textbook step-down procedure rejects |
| Holm.ErrorControl | paper/build_external_substitution_validation_assets.py:307-315 | if any hypothesis of a set is rejected, the smallest p-value of the set clears the level divided by the size of the set |
| Holm.AdjustedFollowsRaw | paper/build_selection_robustness_assets.py:127-132 | adjusted order follows raw order, and tied p-values get equal adjusted values |
| Holm.AdjustedBounds | paper/build_selection_robustness_assets.py:127-132 | for p-values in the unit interval the adjusted value lies between the raw one and the Bonferroni one |
| Holm.Relabelled | paper/build_external_substitution_validation_assets.py:308-314 | listing the hypotheses in another order permutes the adjusted values and changes none |
| Ranks.OrdinalRanks | paper/build_selection_robustness_assets.py:72-77 | writing positions through a stable argsort gives each value one plus the number of values ahead of it |
| Ranks.OrdinalRanksAreRanking | paper/build_stability_assets.py:57-61 | the ranks are each of 1 to n once |
| Ranks.PositionIsCount | paper/build_public_scorer_sensitivity_assets.py:409-414 | a position in the descending stable order is the number of values ahead |
| Ranks.AverageRanks | paper/build_public_scorer_sensitivity_assets.py:389-400 | the nested tie-group loop gives each value one plus the smaller ones plus half the other equal ones |
| Ranks.TieGroupCounts | paper/build_public_scorer_sensitivity_assets.py:393-399 | the mid-position of a tie group is that count for each of its members |
| Ranks.MidRanksTotal | paper/build_public_scorer_sensitivity_assets.py:389-400 | mid-ranks add up to n(n+1)/2 under any ties |
| Ranks.AverageRankMirrors | paper/build_external_substitution_validation_assets.py:237-239 | the descending counting form is n+1 minus the ascending loop form |
| Ranks.MeanPercentileIsHalf | paper/build_external_substitution_validation_assets.py:299 | over all targets the mean rank percentile is exactly one half under any ties, the stated chance value |
| Ranks.ActionPercentileIsRankPercentile | paper/build_selection_robustness_assets.py:455-461 | the action percentile is a hundred times the rank percentile of lines 346-347 of the external validation |
| Ranks.DisplayOrder | paper/build_epicure_native_assets.py:181-188 | the displayed order is a permutation by descending score, ties by short name, then by position |
| Ranks.ShownInOrder | paper/build_epicure_native_assets.py:181-188 | a row shown earlier has a higher score, or the same and a short name no greater, or both the same and an earlier place |
| Sorting.LexMeans | paper/build_epicure_native_assets.py:181-188 | strings compare by their first difference, or by running out first |
| Ranks.FirstShown | paper/build_epicure_native_assets.py:195-199 | where the score changes, the position is the number of rows with a higher score |
| Ranks.ScoreRanks | paper/build_epicure_native_assets.py:191-201 | exactly the shown ids are ranked, each by its last shown row, with one plus the number of higher scores, so equal scores share a rank |
| Ranks.UnrepeatedIsLast | paper/build_epicure_native_assets.py:195-201 | a row whose id does not repeat is shown, and is the last with its id |
| Spearman.SquaredDifferences | paper/build_selection_robustness_assets.py:80-87 | squared rank differences and squared rank sums are fixed by the co-variation of the centred ranks |
| Spearman.RankSpread | paper/build_selection_robustness_assets.py:87 | every ranking has the spread that the closed form's denominator stands for |
| Spearman.RhoIsCoSpread | paper/build_stability_assets.py:64-67 | the closed form times the spread is the co-variation of the two centred rankings |
| Spearman.RhoBounds | paper/build_stability_assets.py:64-67 | it lies between -1 and 1, is 1 exactly for equal and -1 exactly for reversed rankings |
| Spearman.ClosedFormIsCorrelation | paper/build_public_scorer_sensitivity_assets.py:403-406 | for tie-free vectors the closed form on descending ordinal ranks is the correlation of the ascending average ranks |
| Spearman.CorrelationUnique | paper/build_public_scorer_sensitivity_assets.py:406 | two vectors have at most one correlation coefficient |
| Spearman.TiesDisagree | paper/build_selection_robustness_assets.py:80-87 | with one vector constant the closed form still answers, here 1, where the average ranks have no correlation |
| SpearmanTies.SpreadsSplit | paper/build_selection_robustness_assets.py:72-87 | breaking coincident ties by position adds one and the same square to both spreads and to the co-spread of the average ranks |
| SpearmanTies.CoincidentTies | paper/build_selection_robustness_assets.py:72-87 | where the same entries are tied in both vectors, agreement forces one and the same weak order |
| SpearmanTies.TieOnOneSide | paper/build_selection_robustness_assets.py:72-87 | two entries tied in one vector and not in the other spoil the agreement in some listing |
| SpearmanTies.AgreementExact | paper/build_public_scorer_sensitivity_assets.py:403-406 | for two vectors of equal length, at least two: the closed form is the correlation of the average ranks in every simultaneous reordering exactly when neither has a tie, or they are not constant and order the entries alike |
| SpearmanTies.TiedForms | paper/build_selection_robustness_assets.py:80-87 | a pair of vectors tied on the same entries: the closed form is -1/2 and the correlation of the average ranks is -1 |
| Selection.BuildPool | paper/build_selection_robustness_assets.py:205-220 | the pool loop yields the valid tasks of the family in the frozen order, or names the first valid task the task set does not know |
| Selection.SelectForRoster | paper/build_selection_robustness_assets.py:196-226 | every stratum, and nothing else, gets the names of its first 89 pool tasks and its pool size; otherwise the error is that of the first stratum that cannot be filled; every list has 89 names |
| Selection.PoolExact | paper/build_selection_robustness_assets.py:208-220 | the pool holds each valid task of the family once, in the frozen order |
| Selection.PoolByKey | paper/build_selection_robustness_assets.py:213-220 | the pool stands in ascending order of the order key of panel, family and task id, equal keys in panel order |
| Selection.ChosenMeans | paper/build_selection_robustness_assets.py:208-226 | a task is selected exactly when it is valid, of the family, and fewer than k such tasks have a smaller order key, or an equal one and an earlier place |
| Selection.PassedOverStaysOut | paper/build_selection_robustness_assets.py:240-243 | a task valid under a roster but not selected stays unselected under any smaller roster |
| Selection.Displacement | paper/build_selection_robustness_assets.py:229-243 | dropping models displaces exactly as many tasks as enter, those that enter are newly valid, so no more are displaced than become valid |
| Selection.LeaveOneOut | paper/build_selection_robustness_assets.py:240-243 | leaving one model out, a task becomes valid exactly when that model alone failed it |
| TotalVariation.VariationIsLargestGap | paper/build_selection_robustness_assets.py:114-120 | half the summed differences is the largest difference between the groups' shares over all sets of labels, whatever order the labels come in |
| TotalVariation.VariationBounds | paper/build_selection_robustness_assets.py:114-120 | it lies in the unit interval, is 1 exactly for disjoint label sets and 0 exactly for equal mixes |
| TotalVariation.VariationSymmetric | paper/build_selection_robustness_assets.py:114-120 | exchanging the groups or reordering the labels changes nothing, errors included |
| TotalVariation.SplitVariation | paper/build_selection_robustness_assets.py:388-399 | the vectorised accumulation, with the rest's counts by subtraction, gives the same distance as the list form on the subset and the rest |
| Ledger.ReadLedger | scripts/aggregate_frontier_evidence.py:457-478 | a file is accepted exactly when every line is blank or an object and every entry states its own digest and its predecessor's; an error names the first bad line and its kind: not JSON, not an object, a wrong own digest or a wrong link |
| Ledger.EntriesInOrder | scripts/aggregate_frontier_evidence.py:458-478 | the entries are those of all object lines, in file order |
| Ledger.DigestFixesHistory | scripts/aggregate_frontier_evidence.py:457-478 | in two accepted ledgers equal digests stand at equal heights above equal histories |
| Ledger.DigestsDistinct | scripts/aggregate_frontier_evidence.py:468-476 | an accepted ledger repeats no entry digest |
| Ledger.HeadFixesLedger | scripts/aggregate_frontier_evidence.py:493-500 | two accepted ledgers with the same head are the same ledger |
| Ledger.SummaryCheckExact | scripts/aggregate_frontier_evidence.py:493-507 | a summary passes exactly when its head stands at its stated length; "not once" arises exactly when it stands nowhere |
| Ledger.SummaryFixesPrefix | scripts/aggregate_frontier_evidence.py:493-507 | a passing summary pins one prefix of the ledger however many entries follow |
| Reservations.ReservationDict | scripts/aggregate_frontier_evidence.py:622-626 | its keys are exactly the keys of the reservation entries |
| Reservations.ActiveMeans | scripts/aggregate_frontier_evidence.py:622-644 | a name is active exactly when a reservation entry has it and no artifact or reconciliation names it, whatever the reconciliation decided |
| Reservations.ActiveSumMeans | scripts/aggregate_frontier_evidence.py:622-644 | on an accepted ledger the active sum adds, over the reservation entries that no artifact or reconciliation names, the amounts they state |
| Reservations.DictSumIsEntrySum | scripts/aggregate_frontier_evidence.py:622-644 | with distinct digests no reservation is lost to the dict: its sum is the sum over the entries |
| Reservations.ReservationsConserved | scripts/aggregate_frontier_evidence.py:622-644 | on every accepted ledger the total reserved is the active and the resolved amounts together |
| Reservations.BooksHoldOpen | scripts/aggregate_frontier_evidence.py:622-644 | books kept entry by entry hold exactly the reservations that no later entry resolves |
| Reservations.BalanceIsOpenSum | scripts/aggregate_frontier_evidence.py:637-644 | their balance is the sum of what is open, so each reservation is released at most once |
| Reservations.BatchMatchesBooks | scripts/aggregate_frontier_evidence.py:622-644 | the batch computation leaves the same reservations open as the books exactly when none is resolved only before it is made; naming earlier entries suffices |
| Reservations.BalanceIsBatchAndAhead | scripts/aggregate_frontier_evidence.py:622-644 | on every accepted ledger the running balance is the batch sum and the amounts of open reservations that earlier entries resolved |
| Reservations.SumsAgreeExactly | scripts/aggregate_frontier_evidence.py:622-644 | when reserved amounts are positive, the batch sum equals the running balance exactly when no reservation is resolved only before it is made |
| Reservations.NamingAheadSplits | scripts/aggregate_frontier_evidence.py:622-644 | an accepted ledger whose resolution comes first: the batch counts nothing, the books hold the whole amount |
| CompactDecimal.RoundingIsNearestEven | scripts/aggregate_frontier_evidence.py:450-453 | the rounding picks the one nearest integer, the even one of two |
| CompactDecimal.Digits | scripts/aggregate_frontier_evidence.py:450-453 | the digits written read back as the number |
| CompactDecimal.Padded | scripts/aggregate_frontier_evidence.py:450-453 | zero-filled decimals have the wanted width and read back as the number |
| CompactDecimal.TrimKeepsInteger | scripts/aggregate_frontier_evidence.py:454 | stripping drops only decimals and a trailing point: no integer digit goes and the fallback "0" is never needed |
| CompactDecimal.RoundTrip | scripts/aggregate_frontier_evidence.py:446-454 | parsing the text gives the same sign and exactly the value rounded to seven places |
| CompactDecimal.RoundTripValue | scripts/aggregate_frontier_evidence.py:446-454 | the value read back is within half a unit of the seventh place of the amount, and half a unit off only if the unit is even |
| CompactDecimal.Idempotent | scripts/aggregate_frontier_evidence.py:446-454 | compacting the parsed text gives the same text |
| CompactDecimal.TextEqualsValue | scripts/aggregate_frontier_evidence.py:586-588 | texts are equal exactly when sign and rounded value are; for amounts that are not negative, exactly when the rounded values are |
| CompactDecimal.ZeroText | scripts/aggregate_frontier_evidence.py:593-596 | "0" is written for exactly the non-negative amounts that round to nothing |
| CompactDecimal.CompactIsTidy | scripts/aggregate_frontier_evidence.py:446-454 | a text with a point ends in a nonzero decimal, and no integer part has a spare zero in front |
| CompactDecimal.QuantizeFits | scripts/aggregate_frontier_evidence.py:450-453 | amounts with seven places are kept as they are up to 28 digits, and raise beyond |
| CompactDecimal.ValueMeans | scripts/aggregate_frontier_evidence.py:622-626 | the value of a decimal: a signed coefficient at exponent zero, ten times as much for each exponent more |
| Incidents.IncidentRecords | scripts/aggregate_frontier_evidence.py:508-620 | outcomes and incidents must be equally many; then there is one settled record per pair, or the error of the first pair that cannot be settled |
| Incidents.RetainedInOrder | scripts/aggregate_frontier_evidence.py:508-512 | the retained outcomes are all outcomes with that decision, in their order |
| Incidents.IncidentsInOrder | scripts/aggregate_frontier_evidence.py:513-518 | the incident entries are all entries of that event and that incident, in ledger order |
| Incidents.AssessExact | scripts/aggregate_frontier_evidence.py:540-620 | an incident has multiple releases exactly when two entries release it, is outstanding exactly when none does, and is released exactly when one does, of the whole rounded amount and properly proved; an unknown proof, a wrong amount and a failed proof each have their exact condition; a record names reservation, incident, amount as text, release and proof |
| Incidents.ProofMissing | scripts/aggregate_frontier_evidence.py:580-583 | a release that names no proof is refused as unknown unless a proof is filed under the text Python gives for the lack of one |
| Incidents.ProofFault | scripts/aggregate_frontier_evidence.py:589-598 | the tests of a proof, in order, fail unless it establishes a zero-cost release; an amount with too many digits raises where it is reached |
| Incidents.ReleasedMeans | scripts/aggregate_frontier_evidence.py:546-620 | a released record rests on the only matching release entry, a proof of a zero-cost release and amounts equal at seven places; its reservation is no longer active |
| Incidents.ReleasesDistinct | scripts/aggregate_frontier_evidence.py:546-620 | on an accepted ledger no entry releases two incidents |
| Incidents.BothReleased | scripts/aggregate_frontier_evidence.py:546-620 | a chained ledger of two reservations, an incident for each and a release for each: by one zero-cost proof, under whatever address it is filed, both incidents are released and neither reservation is active any more |
| Incidents.OutstandingButInactive | scripts/aggregate_frontier_evidence.py:565-644 | an outstanding incident's reservation is left out of the active sum exactly when the ledger has an artifact for it, or a reconciliation with another decision or for another incident |
| Incidents.OutstandingIsCovered | scripts/aggregate_frontier_evidence.py:561-644 | on a chained ledger, when the outstanding incidents name different reservations of their forecast amounts that no other entry resolves, the active sum is what they hold and what the remaining active reservations amount to, so with no negative reservation it is at least what they hold |
| Incidents.StaleIncident | scripts/aggregate_frontier_evidence.py:508-644 | a chained ledger of a reservation, an incident, and an artifact or a reconciliation with any other decision: the incident is outstanding and the reservation not active |
| SqlLogic.AnyOfFires | alembic/versions/0013_snapshot_evidence_seal.py:317-329 | a chain of OR takes effect exactly when one of its parts is true, whatever is unknown |
| SqlLogic.DigestTestsAgree | alembic/versions/0013_snapshot_evidence_seal.py:151-156 | the regular expression and the length-and-glob test give the same truth value, null included, and refuse exactly ill-formed digests |
| SnapshotGuards.InsertMeans | alembic/versions/0013_snapshot_evidence_seal.py:146-159 | in either dialect an insert passes exactly for a sealed draft without publication metadata |
| SnapshotGuards.ContentMeans | alembic/versions/0013_snapshot_evidence_seal.py:164-179 | the immutable-column comparison refuses exactly a change of sealed content |
| SnapshotGuards.PublicationAgrees | alembic/versions/0013_snapshot_evidence_seal.py:361-393 | nested branches and one condition agree unless it is unknown whether the row is being published and the metadata changes |
| SnapshotGuards.UpdateMeans | alembic/versions/0013_snapshot_evidence_seal.py:164-197 | an update passes exactly when content stays, status moves forward, and metadata changes only by proper publishing; in PostgreSQL the id stays too |
| SnapshotGuards.WholeRowAddsId | alembic/versions/0016_runtime_budget_authority.py:197-216 | beside the content guard, the whole-row guard adds exactly that the id is fixed, however it normalises JSON |
| SnapshotGuards.InsertsAgree | alembic/versions/0013_snapshot_evidence_seal.py:312-336 | the dialects accept the same inserts |
| SnapshotGuards.UpdatesAgree | alembic/versions/0013_snapshot_evidence_seal.py:337-398 | on a stored row the dialects agree on an update exactly when it keeps the id or SQLite refuses it too; PostgreSQL is the stricter |
| SnapshotGuards.TriggersAloneDiffer | alembic/versions/0013_snapshot_evidence_seal.py:361-393 | without the column constraints a null status hides a metadata change from SQLite's trigger alone |
| SnapshotTable.Table.Insert | alembic/versions/0013_snapshot_evidence_seal.py:146-159 | accepted exactly when guard, constraints, indexes and the self reference allow it; the table is then the old one with the row, else unchanged |
| SnapshotTable.Table.Update | alembic/versions/0013_snapshot_evidence_seal.py:164-197 | accepted exactly when guard, constraints, indexes and the self reference allow it; one row is replaced, else nothing changes |
| SnapshotTable.Table.Delete | alembic/versions/0013_snapshot_evidence_seal.py:160-162 | always refused, nothing changes |
| SnapshotTable.Table.Probe | alembic/versions/0012_snapshot_publication_integrity.py:89-104 | the uniqueness probe passes exactly when no other row conflicts |
| SnapshotTable.Table.CheckReferences | alembic/versions/0009_commercial_run_integrity.py:338-352 | the reference check passes exactly when every row a snapshot supersedes is in the table |
| SnapshotTable.InsertExact | alembic/versions/0013_snapshot_evidence_seal.py:146-159 | in either dialect an insert passes exactly for a sealed draft without publication metadata, with a new id, that supersedes nothing, itself or a row there |
| SnapshotTable.UpdateExact | alembic/versions/0013_snapshot_evidence_seal.py:164-197 | an update passes exactly when it keeps the content, moves the status forward, changes metadata only by publishing properly, is alone published in its scope, and keeps the id, or in SQLite takes a free one while nothing refers to the old |
| SnapshotTable.Lifecycle | alembic/versions/0012_snapshot_publication_integrity.py:105-148 | from the empty table a sealed draft is inserted, published and withdrawn, with the three tables written out |
| SnapshotTable.StepIsLater | alembic/versions/0013_snapshot_evidence_seal.py:142-208 | one statement loses no row, changes no content and moves status only forward |
| SnapshotTable.RunIsLater | alembic/versions/0012_snapshot_publication_integrity.py:105-148 | over every sequence of statements no row disappears, content never changes, status only moves forward, and metadata is fixed once a row has left draft |
| SnapshotTable.RunSound | alembic/versions/0013_snapshot_evidence_seal.py:142-208 | over every sequence rows stay sealed, metadata is null while draft and well-formed once published, at most one row per scope is published, and what a row supersedes is in the table |
| SnapshotTable.DialectsRunAlike | alembic/versions/0013_snapshot_evidence_seal.py:312-406 | both dialects keep the same table throughout a sequence of statements exactly when no update that SQLite accepts changes an id |
| SnapshotTable.DialectsStepAlike | alembic/versions/0013_snapshot_evidence_seal.py:312-406 | one statement does the same in both dialects exactly when SQLite does not let it change an id |
| SnapshotTable.IdsStay | alembic/versions/0013_snapshot_evidence_seal.py:164-177 | if no accepted update touches the id, ids name the same rows for ever |
| SnapshotTable.PostgresLeavesIds | alembic/versions/0016_runtime_budget_authority.py:197-216 | in PostgreSQL every sequence of statements leaves ids alone |
| SnapshotTable.RenameExact | alembic/versions/0009_commercial_run_integrity.py:338-352 | SQLite lets a row be renamed exactly when the new id is its own, or is free and no row supersedes this one |
| SnapshotTable.IdsMayChange | alembic/versions/0013_snapshot_evidence_seal.py:337-358 | SQLite lets a row that stands alone and supersedes nothing be renamed; PostgreSQL accepts the same update only if the id is the old one |
| Withdrawal.WithdrawDuplicates | alembic/versions/0012_snapshot_publication_integrity.py:27-79 | the grouping pass sets exactly the superseded published rows to withdrawn and changes nothing else |
| Withdrawal.WithdrawnExact | alembic/versions/0012_snapshot_publication_integrity.py:54-79 | a row is withdrawn exactly when it is published and another published row agrees in the six grouping columns and has a later publication time, or an equal one and a later creation time, or both equal and a greater id; a missing publication time is the latest in PostgreSQL and the earliest in SQLite |
| Withdrawal.OneKeptPerScope | alembic/versions/0012_snapshot_publication_integrity.py:54-79 | among rows that agree in the six grouping columns, one published row is kept as it was and no other stays published: the latest by publication time, then creation time, then id |
| Withdrawal.KeptAlone | alembic/versions/0012_snapshot_publication_integrity.py:60-79 | no two rows of a scope are still published |
| Withdrawal.PublicIndexBuildable | alembic/versions/0012_snapshot_publication_integrity.py:84-96 | after the pass the public index always holds |
| Withdrawal.ControlledIndexExact | alembic/versions/0012_snapshot_publication_integrity.py:97-104 | after the pass the controlled index holds exactly when published snapshots of a run and board share a season |
| Withdrawal.TwoSeasonsClash | alembic/versions/0012_snapshot_publication_integrity.py:60-104 | two published rows of one run in two seasons: the pass keeps both and the controlled index fails |
| Withdrawal.PassReadiesTable | alembic/versions/0012_snapshot_publication_integrity.py:82-104 | the primary key and both indexes hold on the same condition, and the rows satisfy what the runs start from exactly when every row has its evidence cutoff |
| BudgetGuards.BudgetGuardsAgree | alembic/versions/0015_release_integrity_controls.py:294-324 | both dialects refuse the same budget writes, nulls included |
| BudgetGuards.BudgetMeans | alembic/versions/0015_release_integrity_controls.py:121-137 | a write passes exactly when the counters are not negative and the spend does not fall |
| Accounts.StepIsLater | alembic/versions/0016_runtime_budget_authority.py:271-335 | one statement keeps every row, its id, terms, links and spend, and moves status forward |
| Accounts.RunIsLater | alembic/versions/0016_runtime_budget_authority.py:271-335 | over every sequence of statements ids and terms are fixed, spend never falls, a ledger goes pending, active, revoked without stepping back, and a revocation time is fixed |
| Accounts.OneActivePerScope | alembic/versions/0011_account_billing_integrity.py:281-288 | after every sequence at most one authorization per backend and account scope is active |
| Accounts.KeysStayUnique | alembic/versions/0011_account_billing_integrity.py:130-288 | after every sequence no two ledgers share an id, a backend and scope, an envelope or an opening digest, and no two authorizations an id, an envelope or the row they supersede |
| Accounts.RowsStayChecked | alembic/versions/0011_account_billing_integrity.py:130-280 | after every sequence backends and states are known ones, amounts are in range, and exactly the revoked rows have a revocation time |
| Accounts.UpdateLinks | alembic/versions/0016_runtime_budget_authority.py:316-324 | an update that keeps id and grant, as the trigger demands, leaves all supersession links as they are |
| Accounts.RunKeepsChains | alembic/versions/0011_account_billing_integrity.py:221-227 | while the rows of accepted inserts supersede only rows of the tables before the statement, the links form chains |
| Accounts.InsertExact | alembic/versions/0011_account_billing_integrity.py:221-227 | from chains, an insert of any number of rows leaves chains exactly when each of them supersedes only rows before it |
| Accounts.ChainsExact | alembic/versions/0011_account_billing_integrity.py:221-227 | from any consistent tables with chains, over every sequence of statements the links form chains exactly when each row of an accepted insert supersedes only rows before it; old links always stay |
| Accounts.OneRowKeepsOrder | alembic/versions/0011_account_billing_integrity.py:221-227 | an accepted insert of one row meets that condition exactly when the row does not supersede itself |
| Accounts.OneChainPerRoot | alembic/versions/0011_account_billing_integrity.py:221-227 | two authorizations with the same root lie on one chain, so the links form disjoint finite chains |
| Accounts.Root | alembic/versions/0011_account_billing_integrity.py:221-227 | every row has a root at or before it that supersedes nothing |
| Accounts.RootReached | alembic/versions/0011_account_billing_integrity.py:221-227 | every row reaches its root by following the links |
| Accounts.SelfSupersessionAccepted | alembic/versions/0011_account_billing_integrity.py:221-227 | a row naming itself is accepted and breaks the chains |
| Accounts.MutualSupersessionAccepted | alembic/versions/0011_account_billing_integrity.py:221-227 | two rows that name each other are accepted in one insert, neither names itself, and the chains are broken |
| Accounts.MutualEpochs | alembic/versions/0011_account_billing_integrity.py:209-288 | two revoked epochs of one account that meet every check and name each other |
| Accounts.Tables.InsertLedger | alembic/versions/0011_account_billing_integrity.py:130-144 | accepted exactly when checks, spend guard, unique keys and references allow it; the tables are then the statement's outcome, else unchanged |
| Accounts.Tables.UpdateLedger | alembic/versions/0016_runtime_budget_authority.py:271-306 | accepted exactly when the contract trigger, spend guard and constraints allow it, else nothing changes |
| Accounts.Tables.InsertGrants | alembic/versions/0011_account_billing_integrity.py:209-288 | rows inserted together are accepted exactly when checks, unique keys and references allow all of them, else nothing changes |
| Accounts.Tables.UpdateGrant | alembic/versions/0016_runtime_budget_authority.py:308-335 | accepted exactly when the authorization trigger and constraints allow it, else nothing changes |
| Accounts.Tables.DeleteLedger | alembic/versions/0011_account_billing_integrity.py:457-459 | always refused |
| Accounts.Tables.DeleteGrant | alembic/versions/0011_account_billing_integrity.py:512-514 | always refused |
| Accounts.Tables.CheckReferences | alembic/versions/0011_account_billing_integrity.py:212-227 | the reference check passes exactly when every foreign key finds its row |
| Accounts.InsertLedgerExact | alembic/versions/0011_account_billing_integrity.py:130-208 | a new ledger passes exactly when it meets its checks and shares no key with a row there |
| Accounts.UpdateLedgerExact | alembic/versions/0016_runtime_budget_authority.py:271-306 | an update of a ledger passes exactly when the new row meets its checks, keeps id and terms, does not lower the spend, and keeps state and revocation time or moves on: pending to active or revoked, active to revoked |
| Accounts.InsertGrantExact | alembic/versions/0011_account_billing_integrity.py:209-288 | a new authorization passes exactly when it meets its checks, names a ledger, supersedes nothing, itself or a row nothing supersedes yet, and shares neither key nor active scope with a row there |
| Accounts.UpdateGrantExact | alembic/versions/0016_runtime_budget_authority.py:308-335 | an update of an authorization passes exactly when the new row meets its checks, keeps id and grant, and keeps state and revocation time or revokes |
| Accounts.Lifecycle | alembic/versions/0011_account_billing_integrity.py:452-558 | from empty tables a ledger is opened, activated and authorized, spent from, its authorization revoked and superseded, and the ledger revoked; the tables after each stage are written out |
| Redaction.PgDocument | alembic/versions/0013_snapshot_evidence_seal.py:229-233 | the jsonb comparison admits exactly the objects whose every name is "redacted" and whose last value is true |
| Redaction.SqliteDocument | alembic/versions/0013_snapshot_evidence_seal.py:426-433 | the three JSON tests admit exactly the one-member document |
| Redaction.SealsAgree | alembic/versions/0013_snapshot_evidence_seal.py:426-433 | the two agree on a document exactly when it is not a repeated redaction, and SQLite is the stricter |
| Redaction.SealsDisagree | alembic/versions/0013_snapshot_evidence_seal.py:229-233 | the smallest document they disagree on |
| Redaction.CallUpdateMeans | alembic/versions/0013_snapshot_evidence_seal.py:217-235 | a tool call's one admitted update is its redaction with all keys and digests unchanged |
| Redaction.ResultUpdateMeans | alembic/versions/0013_snapshot_evidence_seal.py:255-266 | a validator result's one admitted update is its redaction with all keys and digests unchanged |
| Redaction.CallUpdatesAgree | alembic/versions/0013_snapshot_evidence_seal.py:409-443 | the dialects differ on an update exactly when it redacts with a repeated document |
| Redaction.ResultUpdatesAgree | alembic/versions/0013_snapshot_evidence_seal.py:454-478 | the same for validator results |
| Redaction.Tables.RecordCallRow | alembic/versions/0013_snapshot_evidence_seal.py:242-244 | the seal does not guard inserts: the trace is appended as it is |
| Redaction.Tables.RecordResultRow | alembic/versions/0013_snapshot_evidence_seal.py:273-275 | the seal does not guard inserts: the result is appended as it is |
| Redaction.Tables.UpdateCallRow | alembic/versions/0013_snapshot_evidence_seal.py:212-245 | accepted exactly for a redaction of an existing row with its keys, and only that row changes |
| Redaction.Tables.UpdateResultRow | alembic/versions/0013_snapshot_evidence_seal.py:250-276 | accepted exactly for a redaction of an existing row with its keys, and only that row changes |
| Redaction.Tables.DeleteCallRow | alembic/versions/0013_snapshot_evidence_seal.py:214-216 | always refused |
| Redaction.Tables.DeleteResultRow | alembic/versions/0013_snapshot_evidence_seal.py:252-254 | always refused |
| Redaction.RunOnlyRedacts | alembic/versions/0013_snapshot_evidence_seal.py:209-276 | over every sequence of statements no trace is lost, each is as recorded or redacted with keys and digests intact, and redaction is never undone |
| Grid.ExpectedPairsSize | paper/reproduce_powered_release.py:126-127 | distinct ids have n(n-1)/2 two-element subsets |
| Grid.PairCheckExact | paper/reproduce_powered_release.py:125-167 | the checks pass exactly when the ids are distinct and each unordered pair of different ids is compared in exactly one row, with no other rows |
| Grid.SortedSetsAgree | paper/verify_complete_core_release.py:80-91 | comparing sorted pairs and comparing unordered pairs decide alike |
| Grid.CoreCheckExact | paper/verify_complete_core_release.py:64-91 | the roster and pair requirements hold exactly for 27 distinct nonempty ids with the complete pair graph |
| Grid.CoreReleaseExact | paper/verify_complete_core_release.py:61-92 | the whole check passes exactly for 27 distinctly named models complete on 534 tasks, each pair compared once on all tasks, with the stated count the number of pairs found significant |
| Grid.CellsSize | paper/reproduce_epicure_native.py:175-180 | a product grid of distinct lists has the product of their lengths |
| Grid.GridCheckExact | paper/reproduce_epicure_native.py:166-182 | a key list as long as its grid with the same key set covers each cell exactly once |
| Grid.RankCheckExact | paper/reproduce_powered_release.py:300-310 | sorted ranks equal 1 to n exactly when some row is ranked and the ranks are distinct and lie in 1 to n |
| TexEscape.LatexEscapeIsOnePass | paper/build_public_scorer_sensitivity_assets.py:896-903 | the five chained replacements are a one-pass map on all strings |
| TexEscape.TexEscapeIsOnePass | scripts/aggregate_frontier_evidence.py:1039-1049 | the eight chained replacements are a one-pass map whose image of a backslash has its braces escaped |
| TexEscape.TexEscapeFaithful | scripts/aggregate_frontier_evidence.py:1039-1049 | they equal the intended one-pass map exactly on strings without a backslash |
| TexEscape.BackslashCost | scripts/aggregate_frontier_evidence.py:1039-1049 | each backslash costs exactly two characters more than intended |
| TexEscape.EscapeInjective | paper/build_epicure_native_assets.py:88-102 | a one-pass map with prefix-free images confuses no two strings |
| TexEscape.ChainsInjective | paper/build_selection_robustness_assets.py:725-732 | neither chain confuses two strings, not even where it is unfaithful |
| TexEscape.DecodeTex | paper/build_epicure_native_assets.py:88-102 | a decoder recovers every string from its one-pass escape |
| TexEscape.TexSafe | paper/build_epicure_native_assets.py:88-102 | the escaped text has every ampersand, percent, dollar, hash and underscore behind a backslash, and no tilde or caret |
| TexEscape.ChainsSafe | scripts/aggregate_frontier_evidence.py:1039-1049 | so have both chains for the characters they replace; the longer one leaves no bare brace either, its own included |

## Left out

- Floating point: rounding, NaN and infinities, numpy's summation order and the `isclose` tolerance; all arithmetic is exact.
- Random resampling and everything built on `np.random`: bootstrap intervals, random subset draws, quantiles. The kernels they call are modelled on one draw.
- SHA-256 and JSON canonicalisation: one function parameter, assumed injective where needed.
- Input and output: reading, parsing and writing of JSON, CSV, safetensors and pickle files, plots, tables, argument parsing, downloads.
- `load_matrix`, `_balanced_scores`, `_standardized_difference`, `_pair_order_agreement`, `_wilson` and the replay recomputation in `replay`: single formulas or joins of the parts modelled here.
- Fixed release facts (counts, hashes, model names, decision statuses) and the legacy upgrade scripts.
- Holm.AdjustMap: takes the sorted key list as given, in any order that puts p-values ascending; how Python compares the keys of tied p-values is not modelled, and does not matter by its contract.
- Ranks.DisplayOrder: `casefold` and the short name are a field of the row; strings are compared by code point.
- Selection.SelectForRoster: the frozen order key is a parameter, not SHA-256, and task families come as a map per panel; the roster lies within the panel, as its caller builds it.
- TotalVariation.SplitVariation: one random subset at a time, with a nonempty rest, as the fixed stratum sizes give.
- Ledger.ReadLedger: the members the pipeline looks at hold strings or null, or are absent; other members are kept as opaque text. A digest member that is not a string never equals a digest and reads as null here.
- Reservations.ReservationsConserved: amounts are finite decimals added exactly; a reserved amount that is not a decimal, which makes the original raise, and the precision of decimal contexts in sums are not modelled.
- CompactDecimal.RoundTrip: the 28-digit limit of the default context is modelled as an error; NaN, infinities and signals are not.
- Incidents.IncidentRecords: reconciliation files come as a map from their content address; the descriptive members of a record are left out.
- The choice of the latest summary and the payload assembled around it in `aggregate_frontier_evidence.py`.
- SnapshotTable.RunSound: each statement touches one row. References are checked when a statement ends, so rows inserted together that supersede one another, or renames of several rows at once, are more than a sequence of such statements and are not modelled. Foreign keys to other tables, column lengths and the backfills of the migration are not modelled either, and JSON columns are compared as stored text.
- SnapshotGuards.UpdateMeans: PostgreSQL's whole-row trigger of migration 0009 is modelled in the form migration 0016 gives it. Between the two it compares `json` columns with an operator that type lacks, so whether an update goes through there is not modelled.
- SnapshotTable.RunIsLater: the status trigger is attached to updates that name the status column; when a statement does not, the status is unchanged and the trigger would pass.
- SqlLogic.DigestTestsAgree: SQLite's `length` and `GLOB` stop at a NUL inside a text, so there a digest followed by a NUL and more passes; PostgreSQL text cannot hold a NUL. Texts without one are what the lemma is about.
- Withdrawal.WithdrawDuplicates: PostgreSQL puts null publication times first and SQLite last in a descending order; both are modelled. On PostgreSQL the pass also meets that trigger of migration 0009 in its first form, which is not modelled. Text is compared by code point, not by a database collation.
- Accounts.RunIsLater: for PostgreSQL, where the contract triggers exist. They are modelled in the form migration 0016 gives them, which compares whole rows as jsonb and so fixes the id too; JSON columns are opaque text. The authority guards 0016 adds can only refuse more and are not modelled. Several authorizations may be inserted by one statement; ledgers come and rows are updated one at a time, which leaves out only that such a statement on several rows is refused as a whole, since what ledgers and updates write refers to no row of the same statement.
- Accounts.Tables.InsertLedger: columns the triggers only compare are grouped as text; NOT NULL columns are plain values.
- The other guards of migration 0015 (retention redaction) and the finish-reason guards of 0020 to 0023: parts of the invariant live in other migrations, or one branch settles each.
- Redaction.RunOnlyRedacts: uniqueness of tool calls and validator results, and the write-once digests of response arms, are not modelled; an insert is always accepted.
- Redaction.SqliteDocument: names are compared after decoding escapes, and malformed text in a SQLite JSON column, which makes the test itself fail, is not a document here. From version 3.42 SQLite also reads JSON5 text such as {redacted:true}, which PostgreSQL's json type refuses; only JSON is modelled.
- Redaction.PgDocument: text is any sequence of characters. A cast to jsonb fails where a string holds \u0000, even in a value that a later one of the same name replaces; documents with that character are not told apart.
- Grid.GridCheckExact: rows that are not objects, which the key list skips, are not modelled.
- Grid.CoreReleaseExact: counts are integers or absent; a count of another JSON type is not modelled.
