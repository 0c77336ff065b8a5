# Proofs about the platform's migrations, leases, ranking and signed heartbeats

A Dafny 4.11 model of the parts of the platform where being wrong is expensive: schema changes made
under live traffic, the lease rules the database enforces, the check that keeps the migration
history deployable, the order in which submissions rank, and the bytes a validator signs.
`dafny verify dfyconfig.toml` checks everything.

| file | what it holds |
|---|---|
| `ChargeCeiling`, `CeilingMigration` | the online migration that splits the charge ceiling from the token reservation: every interleaving of application writes and migrator transactions, and the program with its retries, page walk and sweep |
| `TableLocks` | PostgreSQL table locks with their wait queue; deadlock freedom of that migration and the deadlock of its abandoned first version |
| `MigrationHistory`, `BranchMerge`, `Graph` | the migration-order check: worklist cycle detection, heads, merge result, what a branch may add |
| `MigrationRunner` | the deploy-time runner: one transaction per migration, bounded replay |
| `TicketTable`, `TicketLeases`, `ScoreLedger` | ticket triggers, constraints and what every run of writes keeps |
| `LeaseDedupe`, `SettingsChain` | the one-lease-per-validator clean-up; the append-only settings history |
| `Ranking`, `Uuid`, `Lexicographic` | the comparator in its Python and SQL forms |
| `ThresholdSweep`, `IdentifierRename` | anti-copy calibration: threshold choice and the renaming transform |
| `LaneRotation` | the fresh-submission / cohort lane rotation and its rollout lock |
| `BenchmarkProgress`, `SystemHealth`, `BenchmarkCapacity`, `StackHealth`, `CanonicalJson`, `Printing`, `Timestamps` | signing tokens: printers, parsers, unambiguity |

## How it is modelled

- Concurrency is interleaving. The charge-ceiling table changes by application writes and by committed
  migrator transactions, in any order; a crash leaves a prefix of the migrator's transactions and a
  re-run appends more. The old build never names the new column, `reserved_tokens` is written once at
  insert, and the new build (which stores a ceiling of at least the reservation,
  `ditto/db/queries/inference.py:831-836`) starts after the column is pinned. An UPDATE moves a row
  version to another page; that is the application step `Rewrite`.
- Programs with loops and state are classes and methods. Outside events (contention, failures,
  commits nobody heard of, concurrent writes) come from a scripted field, `upcoming`, so a theorem over every script is a theorem
  over every schedule. Delays, jitter and logging are not modelled.
- A trigger is a function from old row and new row to a stored row or a refusal; a run is any sequence of
  attempted writes. Ticket keys are never rewritten. Slots are the numbers 0 to 7, timestamps integers.
- Scores and thresholds are reals, ids and counts unbounded naturals.

Where comments and code disagree the model follows the code:

- The split migration says the application locks tickets, grants, requests in that order.
  `begin_inference_request` first reads the grant (`ditto/db/queries/inference.py:538`), which takes a weak
  lock on grants before tickets. `TableLocks.NoDeadlock` is therefore proved twice: for the stated table
  order with any number of migrators, and for any application order with one migrator at a time. Without
  either the same transactions can deadlock: `TableLocks.WithoutRegimeDeadlocks`.
- "A new migration that chains off anything else is a second head" (`scripts/check_migration_order.py:366`)
  fails when the branch adds a merge revision: `BranchMerge.SideBranchAccepted`. New migrations extend the
  base head exactly when each one whose parents are all in the base names that head among them:
  `BranchMerge.ExtendsHeadIff`. They form one chain on it exactly when none is a merge:
  `BranchMerge.LinearIffNoMergeRevision`.
- The deploy runner asks that migrations which commit early be idempotent step by step
  (`alembic/env.py:144-153`). That is not enough: `MigrationRunner.IdempotentPartsAreNotEnough`. What replay
  needs, exactly, is that starting over after any number of early parts ends in the clean result:
  `MigrationRunner.ReplaySafeIff`.
- An old replica's re-lease is called non-consumable, but the trigger sets `legacy_completion_allowed`, so it
  can be scored: `TicketLeases.OldReleaseIsConsumable`.
- The scoring check watches only updates that take a ticket to scored. A ticket inserted as scored, or one
  whose `legacy_completion_allowed` is cleared after scoring, escapes it: `TicketLeases.ScoredInsertEscapes`,
  `TicketLeases.ClearedEntitlementEscapes`. Scored tickets stay entitled throughout a run exactly when no
  write of it is of that kind: `TicketLeases.ScoredTicketsAreEntitledIff`.
- The 48-hour migration's downgrade deletes rows, which breaks histories the application can write:
  `SettingsChain.DeletingBreaksLine`. The history stays one line exactly when no surviving revision
  supersedes a deleted one: `SettingsChain.DeletingKeepsLineIff`.
- The renaming transform is documented as consistent. It merges identifiers when a new name is already
  taken: `IdentifierRename.ChainedRenameMerges`, and exactly then: `IdentifierRename.ConsistentIff`, and
  `IdentifierRename.MappingConsistentIff` for a mapping of the caller's own.
- The calibration module labels its choice the best-F1 point (`ditto/anticopy/calibration.py:31`, `:289`). The
  code, as `evaluate` says itself, takes the most recall under a precision floor, and that is what is proved
  optimal; `ThresholdSweep.ChoiceIsNotBestF1` has an input where the two differ.

## Model

| member | source | states |
|---|---|---|
| ChargeCeiling.ServeExactly | alembic/versions/2026_07_26_split_inference_reservation_from_charge_ceiling.py:43-44 | an application write touches its own row and never the schema: old-build inserts store NULL, or 0 once pinned; new-build inserts a ceiling of at least the reservation |
| ChargeCeiling.ApplyExactly | alembic/versions/2026_07_26_split_inference_reservation_from_charge_ceiling.py:205-285 | a migrator transaction fails only for want of the column, loses no row, rewrites no reservation and fills exactly the NULL rows it names |
| ChargeCeiling.RunKeepsSound | alembic/versions/2026_07_26_split_inference_reservation_from_charge_ceiling.py:236-285 | over every interleaving, crash and re-run: until the final commit each ceiling is NULL or the row's own reservation, afterwards never NULL; reservations stay positive |
| ChargeCeiling.FinalizeSucceeds | alembic/versions/2026_07_26_split_inference_reservation_from_charge_ceiling.py:267-285 | in every reachable state the locked final transaction cannot fail SET NOT NULL and leaves every row its own positive reservation as ceiling; on a finished table it changes nothing |
| ChargeCeiling.InsertAfterFillBreaksPin | alembic/versions/2026_07_26_split_inference_reservation_from_charge_ceiling.py:267-273 | without the shared lock, any request admitted after the last fill makes SET NOT NULL fail |
| ChargeCeiling.PinnedIsFixpoint | alembic/versions/2026_07_26_split_inference_reservation_from_charge_ceiling.py:69-71 | on a finished table every migrator transaction is a no-op |
| ChargeCeiling.RerunChangesNothing | alembic/versions/2026_07_26_split_inference_reservation_from_charge_ceiling.py:69-71 | re-running a finished upgrade amid live writes leaves exactly the table those writes alone would leave |
| ChargeCeiling.CeilingIsKept | alembic/versions/2026_07_26_split_inference_reservation_from_charge_ceiling.py:14-15 | a row present at the final commit keeps its ceiling and reservation as long as it exists |
| ChargeCeiling.ZeroCeilingIffLate | alembic/versions/2026_07_26_split_inference_reservation_from_charge_ceiling.py:73-79 | a zero ceiling is exactly an old-build insert after the final commit |
| CeilingMigration.Database.Await | alembic/versions/2026_07_26_split_inference_reservation_from_charge_ceiling.py:186-190 | between statements exactly the scripted application writes happen, and each NULL ceiling afterwards is an old one or on a written row |
| CeilingMigration.Database.PickBatch | alembic/versions/2026_07_26_split_inference_reservation_from_charge_ceiling.py:219-231 | the sweep takes NULL rows only, as many as there are up to 20000 |
| CeilingMigration.Database.Commit | alembic/versions/2026_07_26_split_inference_reservation_from_charge_ceiling.py:155-162 | a transaction takes effect as a whole or not at all, and fails only for want of the column; a sweep leaves 20000 fewer NULLs or none |
| CeilingMigration.Database.WithRetry | alembic/versions/2026_07_26_split_inference_reservation_from_charge_ceiling.py:147-176 | retries exactly on contention, twelve attempts at most, and succeeds exactly when the attempt it ends on goes through; then the transaction is the last step after nothing but application writes. On failure nothing was committed, or the transaction as a whole was and the client did not hear of it |
| CeilingMigration.Database.Backfill | alembic/versions/2026_07_26_split_inference_reservation_from_charge_ceiling.py:179-233 | a row still NULL was stored or moved by the application since the walk began, and there is none left unless twelve batches were swept; without trouble it succeeds whatever the application writes |
| CeilingMigration.Database.Upgrade | alembic/versions/2026_07_26_split_inference_reservation_from_charge_ceiling.py:236-285 | from any state an earlier run left: it completes despite up to eleven contended attempts; success ends with the final commit, both columns, no NULLs, and on first completion every row carrying its reservation; the locked final step only meets NULLs on rows written during this run; failure keeps the invariant |
| CeilingMigration.Database.Downgrade | alembic/versions/2026_07_26_split_inference_reservation_from_charge_ceiling.py:288-309 | completes despite up to eleven contended attempts; success removes both columns and the constraint and keeps the invariant |
| TableLocks.ReentrantIsFree | alembic/versions/2026_07_26_split_inference_reservation_from_charge_ceiling.py:267-283 | a disciplined transaction never waits for a table it already holds |
| TableLocks.RunKeepsInv | alembic/versions/2026_07_26_split_inference_reservation_from_charge_ceiling.py:43-57 | over every disciplined run: holders are compatible, the queue is exact, waiting migrators hold nothing |
| TableLocks.NoDeadlock | alembic/versions/2026_07_26_split_inference_reservation_from_charge_ceiling.py:43-57 | no reachable lock state has a cycle of waits, counting both holders and earlier waiters |
| TableLocks.SomebodyCanProceed | alembic/versions/2026_07_26_split_inference_reservation_from_charge_ceiling.py:51-57 | whenever somebody waits, some waiter waits only for running transactions |
| TableLocks.GrantServesIff | alembic/versions/2026_07_26_split_inference_reservation_from_charge_ceiling.py:147-154 | a waiter is served exactly when it waits for nobody, and then holds its lock and leaves the queue |
| TableLocks.SomebodyIsServed | alembic/versions/2026_07_26_split_inference_reservation_from_charge_ceiling.py:147-154 | whenever somebody waits, some waiter gets its lock once the running transactions it waits for have ended |
| TableLocks.AbandonedDeadlocks | alembic/versions/2026_07_26_split_inference_reservation_from_charge_ceiling.py:31-49 | the abandoned single transaction (requests, then grants) reaches a cycle with one inference call |
| TableLocks.SplitMigrationIsDisciplined | alembic/versions/2026_07_26_split_inference_reservation_from_charge_ceiling.py:236-309 | the next statement of any transaction of the split migration obeys the lock discipline |
| TableLocks.HoldsWhatItAsked | alembic/versions/2026_07_26_split_inference_reservation_from_charge_ceiling.py:236-309 | over every run a migrator holds or awaits exactly the locks its statements so far ask for |
| TableLocks.SplitMigrationNeverDeadlocks | alembic/versions/2026_07_26_split_inference_reservation_from_charge_ceiling.py:236-309 | any run of the split migration's transactions amid application transactions, restarted at will, is disciplined and has no cycle of waits |
| TableLocks.OneTableEach | alembic/versions/2026_07_26_split_inference_reservation_from_charge_ceiling.py:236-309 | every step locks its one table, a write lock to fill and an exclusive one otherwise, strongest first |
| TableLocks.ExclusiveStepIsAlone | alembic/versions/2026_07_26_split_inference_reservation_from_charge_ceiling.py:260-283 | over every run, while the final step or a column change runs, nobody else holds any lock on its table |
| TableLocks.FillsCoexist | alembic/versions/2026_07_26_split_inference_reservation_from_charge_ceiling.py:62-64 | the backfill takes no lock an application transaction would wait for |
| TableLocks.WithoutRegimeDeadlocks | alembic/versions/2026_07_26_split_inference_reservation_from_charge_ceiling.py:43-57 | with two deploys and callers in opposite table orders, single-table transactions do reach a cycle |
| MigrationHistory.IndexRevisions | scripts/check_migration_order.py:124-131 | indexes the history, or reports a duplicate exactly when there is one |
| MigrationHistory.CollectChildren | scripts/check_migration_order.py:133-143 | lists each revision under a parent once per mention and finds the roots, or reports an unknown parent exactly when there is one |
| MigrationHistory.DecrementListed | scripts/check_migration_order.py:157-160 | lowers each counter by its listed entries and queues exactly the revisions that reach zero |
| MigrationHistory.VisitOneRevision | scripts/check_migration_order.py:155-160 | one pop keeps every counter equal to its revision's unvisited parents |
| MigrationHistory.VisitAll | scripts/check_migration_order.py:148-160 | terminates, visits each revision at most once and after its parents; an unvisited one waits for an unvisited parent |
| MigrationHistory.HistoryHeads | scripts/check_migration_order.py:118-164 | accepts exactly when revisions are distinct, parents known, one root, no cycle; returns the revisions nobody names; each refusal names its own fault |
| MigrationHistory.ValidateLinearHistory | scripts/check_migration_order.py:167-175 | accepts exactly the valid histories with one head |
| MigrationHistory.DescendsFromRoot | scripts/check_migration_order.py:145-164 | in an accepted history every revision descends from the root |
| MigrationHistory.AncestorOfHead | scripts/check_migration_order.py:167-175 | with one head every revision is an ancestor of it |
| BranchMerge.MergeResult | scripts/check_migration_order.py:209-220 | the two directories as one, base entries replacing head entries, in path order |
| BranchMerge.MergeIsUnion | scripts/check_migration_order.py:209-217 | when shared paths agree the merge is exactly the union |
| BranchMerge.MergeSymmetric | scripts/check_migration_order.py:209-220 | and does not depend on which side is the base |
| BranchMerge.MergeKeepsBase | scripts/check_migration_order.py:209-220 | the merge keeps every migration of the base |
| BranchMerge.CheckBranch | scripts/check_migration_order.py:337-342 | accepts exactly when the base is valid and the merge result is valid with one head; the base is then part of the result |
| BranchMerge.PassingBranch | scripts/check_migration_order.py:337-368 | what a passing check says of the files: base head below merged head, and both conditions below |
| BranchMerge.AddedFormOneChain | scripts/check_migration_order.py:366-368 | in an accepted merge without merge revisions the added migrations are one chain, each the only parent of the next, from base head to merged head |
| BranchMerge.LinearIffNoMergeRevision | scripts/check_migration_order.py:366-368 | and they form such a chain exactly when none of them is a merge revision |
| BranchMerge.ExtendsHeadIff | scripts/check_migration_order.py:366-368 | in an accepted merge every added migration descends from the base head exactly when each one with all parents in the base names that head |
| BranchMerge.SideBranchAccepted | scripts/check_migration_order.py:366-368 | with a merge revision, a migration that does not extend the base head is accepted |
| BranchMerge.BaseHeadSurvives | scripts/check_migration_order.py:272-284 | the base head is an ancestor of the merged head in every accepted merge |
| MigrationRunner.ReplaySafeIff | alembic/env.py:144-153 | interrupting a migration anywhere, any number of times, leaves no trace exactly when it is replayable |
| MigrationRunner.IdempotentPartsAreNotEnough | alembic/env.py:148-151 | a migration of idempotent parts that is not replayable |
| MigrationRunner.TransactionalIsReplayable | alembic/env.py:146-148 | a migration that commits nothing early is replayable |
| MigrationRunner.Runner.Migrate | alembic/env.py:113-123 | one migration, early commits included: its outcome is the first trouble it meets; contended or failed it leaves the version alone and a schema from which it still completes to the clean one; otherwise it commits once |
| MigrationRunner.Runner.RunPending | alembic/env.py:92-123 | oldest first; the applied set stays ancestor-closed, no migration commits twice, and a clean end means all are applied and the schema is that of a clean deploy |
| MigrationRunner.Runner.Commit | alembic/env.py:105-107 | committing the next migration keeps the applied set ancestor-closed |
| MigrationRunner.Runner.Run | alembic/env.py:158-181 | ends within four attempts; contention is reported only after the fourth, and fewer than four contentions anywhere are outlasted; a normal return means everything is applied and the schema is that of a clean deploy |
| MigrationRunner.Redeploy | alembic/env.py:102-111 | over any number of deploys, each disturbed in its own way, the first normal return leaves what one clean deploy would: same set, each committed once in order, same schema; a deploy that only meets contention, fewer than four times, returns normally |
| TicketTable.InsertStoredIff | alembic/versions/2026_07_28_enforce_bench_version_floor.py:159-175 | a new ticket is stored as written exactly when its benchmark is 7 or later and its slot in range and free |
| TicketTable.UpdateStoredIff | alembic/versions/2026_07_28_enforce_bench_version_floor.py:138-187 | an update is stored exactly when it leases nothing anew below version 7, scores nothing without entitlement and keeps the constraints; every stored field is given |
| TicketTable.RefusalReasons | alembic/versions/2026_07_23_add_validator_ticket_purpose.py:120-127 | each refusal names its own reason |
| TicketTable.OtherWrites | alembic/versions/2026_07_09_add_validator_tickets.py:49-50 | an insert over a key, or an update of none, changes nothing; a deletion removes just its row |
| TicketTable.TriggersCommute | alembic/versions/2026_07_28_enforce_bench_version_floor.py:159-187 | floor and purpose triggers accept the same updates and store the same row in either order |
| TicketTable.RunKeepsValid | alembic/versions/2026_07_22_parallel_capacity_and_inference.py:31-47 | every run keeps the CHECKs and the one-issued-per-slot index |
| TicketLeases.Store.Attempt | alembic/versions/2026_07_23_add_validator_ticket_purpose.py:110-140 | one write through triggers, CHECKs and index leaves the table the guards prescribe |
| TicketLeases.Store.AnyDoubleIssued | alembic/versions/2026_07_22_parallel_capacity_and_inference.py:145-161 | the downgrade is refused exactly when the old one-per-validator index could not be created |
| TicketLeases.RetiredLeaseNeverGrows | alembic/versions/2026_07_28_enforce_bench_version_floor.py:138-187 | over every run a retired issued lease was issued at install, with the same stamp and no later deadline |
| TicketLeases.NoNewRetiredTicket | alembic/versions/2026_07_28_enforce_bench_version_floor.py:159-187 | no retired ticket appears after install |
| TicketLeases.RetiredLeasesAreOver | alembic/versions/2026_07_28_enforce_bench_version_floor.py:45-59 | once the deadlines known at install have passed, no run holds a live retired lease |
| TicketLeases.LeaseCanExpire | alembic/versions/2026_07_28_enforce_bench_version_floor.py:152-156 | from every reachable state any ticket can still be expired, changing nothing else |
| TicketLeases.LeaseCanBeScoredIff | alembic/versions/2026_07_23_add_validator_ticket_purpose.py:120-127 | a reachable unscored ticket can be scored exactly when it is classified or may complete as legacy |
| TicketLeases.AtMostOneLeasePerSlot | alembic/versions/2026_07_22_parallel_capacity_and_inference.py:31-47 | in every reachable state a validator holds at most eight issued tickets, all in different slots |
| TicketLeases.PurposeIsForCurrentLease | alembic/versions/2026_07_23_add_validator_ticket_purpose.py:105-119 | over every run by rule-following writers, a purpose on an issued ticket was written for its current lease |
| TicketLeases.PurposeIsForCurrentLeaseFromInstall | alembic/versions/2026_07_23_add_validator_ticket_purpose.py:68-119 | and this holds from the classifying migration onwards, whatever the table held |
| TicketLeases.RetestEvidenceWins | alembic/versions/2026_07_23_add_validator_ticket_purpose.py:68-104 | only finished tickets are classified; retest evidence wins over score evidence |
| TicketLeases.UnstampedReleaseKeepsPurpose | alembic/versions/2026_07_23_add_validator_ticket_purpose.py:114-119 | a re-lease that does not restamp issued_at carries the old purpose |
| TicketLeases.OldReleaseIsConsumable | alembic/versions/2026_07_23_add_validator_ticket_purpose.py:105-127 | after every run, a restamped lease without a revision bump loses its purpose and can be scored at once |
| TicketLeases.UnclassifiedScoreIff | alembic/versions/2026_07_23_add_validator_ticket_purpose.py:120-140 | after a write a ticket is scored without entitlement exactly when it was before and is untouched, or the write escapes the check |
| TicketLeases.ScoredInsertEscapes | alembic/versions/2026_07_23_add_validator_ticket_purpose.py:133-140 | the table accepts a ticket inserted as scored, revision 0, legacy completion not allowed |
| TicketLeases.ClearedEntitlementEscapes | alembic/versions/2026_07_23_add_validator_ticket_purpose.py:120-127 | and an update that clears the entitlement of a scored ticket |
| TicketLeases.ScoredTicketsAreEntitledIff | alembic/versions/2026_07_23_add_validator_ticket_purpose.py:120-127 | throughout a run every scored ticket is classified or legacy-allowed exactly when no write of the run escapes the check |
| TicketLeases.EntitledFromInstall | alembic/versions/2026_07_23_add_validator_ticket_purpose.py:68-127 | and this holds from the classifying migration onwards, whatever the table held |
| ScoreLedger.StoredIff | alembic/versions/2026_07_28_enforce_bench_version_floor.py:109-117 | a score is stored as written exactly when its benchmark is 7 or later and its key free; a move likewise; a deletion removes just its row |
| ScoreLedger.RetiredScoresAreFrozen | alembic/versions/2026_07_28_enforce_bench_version_floor.py:108-117 | over every run a retired score row was present at install with identical contents |
| LeaseDedupe.Store.ExpireSurplus | alembic/versions/2026_07_14_one_issued_ticket_per_validator.py:22-52 | leaves exactly one issued ticket for each validator that had any, so the unique index can be created |
| LeaseDedupe.ExactlyOneSurvives | alembic/versions/2026_07_14_one_issued_ticket_per_validator.py:24-47 | the survivor is the least under (heartbeat-named, issued_at, agent_id) |
| LeaseDedupe.SurvivesIff | alembic/versions/2026_07_14_one_issued_ticket_per_validator.py:24-47 | an issued ticket is kept exactly when it beats every other of its validator: named by the heartbeat, else older, else lower agent id; otherwise it expires with a retry six hours after its deadline |
| LeaseDedupe.NamedLeaseSurvives | alembic/versions/2026_07_14_one_issued_ticket_per_validator.py:19-21 | a lease named by the heartbeat always survives |
| LeaseDedupe.OthersUntouched | alembic/versions/2026_07_14_one_issued_ticket_per_validator.py:41-46 | only surplus issued tickets change, and only to expired with a six-hour retry |
| SettingsChain.HistoryStaysLinear | alembic/versions/2026_07_24_add_artifact_release_settings.py:38-55 | over every interleaving of readers and writers, unique parents keep one line of revisions |
| SettingsChain.StaleWritersAreRefused | alembic/versions/2026_07_24_add_artifact_release_settings.py:50-55 | in every run an insert is stored exactly when the head its writer read is still the head and the hours are in range, and adds just that row |
| SettingsChain.Settings.AdoptFortyEight | alembic/versions/2026_07_24_widen_artifact_release_embargo_to_48h.py:27-50 | its INSERT meets key, unique parent and bound; extends the line by at most one revision, ends on 48 hours, changes no older row, and is a no-op when already there |
| SettingsChain.Settings.ClampToFortyEight | alembic/versions/2026_07_26_raise_artifact_release_embargo_ceiling_to_720h.py:30-42 | every window becomes the smaller of itself and 48 hours; revisions, parents and the line stay |
| SettingsChain.DeletingBreaksLine | alembic/versions/2026_07_24_widen_artifact_release_embargo_to_48h.py:53-60 | a history the application can write that the deleting downgrade tears apart |
| SettingsChain.DeletingKeepsLineIff | alembic/versions/2026_07_24_widen_artifact_release_embargo_to_48h.py:53-60 | deleting rows instead keeps one line exactly when no surviving revision supersedes a deleted one |
| Uuid.TextOrder | ditto/score_order.py:70-75 | canonical UUID text order is 128-bit order, and the text is unique |
| Uuid.Pow16Bits | ditto/score_order.py:70-75 | 32 hexadecimal digits hold exactly the 128-bit values |
| Uuid.TextReadsBack | ditto/score_order.py:70-75 | hyphens after 8, 12, 16 and 20 lowercase digits; without them the text is the 128-bit value in hexadecimal |
| Ranking.PythonAgreesWithSql | ditto/score_order.py:57-91 | for every partial score map, the sort key orders two rows as the ORDER BY terms order them with those scores stored |
| Ranking.BeforeIsStrictTotal | ditto/score_order.py:57-75 | on distinct agents the order is strict and total |
| Ranking.RankingIsSortedPermutation | ditto/score_order.py:94-101 | ranking sorts and loses no row |
| Ranking.RankingIgnoresInputOrder | ditto/score_order.py:94-101 | the ranking does not depend on the order of the input |
| Ranking.RankingIsSqlOrder | ditto/score_order.py:78-101 | the ranking on any score map is in the order SQL gives on the scores that count |
| Ranking.RankingOnScores | ditto/score_order.py:57-64 | ranking on a partial score map is ranking rows with those composites stored |
| Ranking.OthersKeepTheirOrder | ditto/score_order.py:94-101 | changing one agent's score leaves all others in the same order |
| Ranking.PlaceIsCount | ditto/score_order.py:94-101 | a row's place is the number of rows that beat it |
| Ranking.RaisingNeverHurts | ditto/score_order.py:94-101 | raising an agent's score never worsens its place |
| ThresholdSweep.Operate | ditto/anticopy/calibration.py:296-309 | the counting loop yields precision, recall and F1 of the confusion counts |
| ThresholdSweep.OperatingMeans | ditto/anticopy/calibration.py:296-309 | with the confusion counts as numbers of pairs: precision and recall are their shares, with the empty cases, and f1 * (2tp + fp + fn) = 2tp |
| ThresholdSweep.CandidateThresholds | ditto/anticopy/calibration.py:335-336 | the distinct observed scores in order, then one threshold nothing reaches |
| ThresholdSweep.CandidatesRealiseAll | ditto/anticopy/calibration.py:320-321 | every real threshold predicts the same pairs as some candidate |
| ThresholdSweep.Evaluate | ditto/anticopy/calibration.py:312-346 | sweeps only the candidates, yet the chosen point is optimal over all real thresholds in the three senses below |
| ThresholdSweep.ChoiceIsOptimal | ditto/anticopy/calibration.py:323-330 | if any real threshold meets the floor with positive recall, the choice meets it with at least that recall |
| ThresholdSweep.ChoiceIsMostPrecise | ditto/anticopy/calibration.py:338-342 | no real threshold of the same recall is more precise |
| ThresholdSweep.NeverFiresIffNoneQualifies | ditto/anticopy/calibration.py:329-344 | for a floor of at most 1 the choice is never-fire exactly when no real threshold qualifies |
| ThresholdSweep.FallbackIsMostPrecise | ditto/anticopy/calibration.py:340-344 | when none qualifies the choice is the most precise over all real thresholds, then the one with the most recall |
| ThresholdSweep.ChoiceIsNotBestF1 | ditto/anticopy/calibration.py:323-330 | an input on which every valid choice has a smaller F1 than another threshold |
| IdentifierRename.RenameIdents | ditto/anticopy/calibration.py:142-153 | for any mapping, the replacement loop renames each word as its chain of replacements prescribes |
| IdentifierRename.MappingConsistentIff | ditto/anticopy/calibration.py:142-153 | under any mapping distinct identifiers stay distinct exactly when each new name is free when its turn comes |
| IdentifierRename.ConsistentIff | ditto/anticopy/calibration.py:132-153 | under the default mapping distinct identifiers stay distinct exactly when no new name is taken by a word not yet replaced |
| IdentifierRename.ChainedRenameMerges | ditto/anticopy/calibration.py:150-151 | defined names `a` and `r_0` both become `r_1` |
| LaneRotation.CheckCoherent | ditto/api_models/queue_policy_settings.py:516-558 | accepts exactly the policies in which neither lane starves and no rollout waits forever; each refusal names its own fault |
| LaneRotation.WholeCycle | ditto/api_models/queue_policy_settings.py:565-571 | any whole cycle has exactly as many fresh jobs as fresh slots |
| LaneRotation.FreshShare | ditto/api_models/queue_policy_settings.py:565-571 | fresh jobs among any n consecutive ones lie within k*(n/c) and k*(n/c) + min(k, n mod c) |
| LaneRotation.LongestRuns | ditto/api_models/queue_policy_settings.py:450-458 | at most k fresh and at most c-k cohort jobs in a row |
| LaneRotation.RolloutLockedChange | ditto/api_models/queue_policy_settings.py:574-592 | names exactly the locked fields that differ, whatever order slots are written in |
| LaneRotation.LanesFixedWhileOpen | ditto/api_models/queue_policy_settings.py:574-592 | across any revisions accepted while a rollout is open every lane decision stays the same |
| BenchmarkProgress.CountsFaultOf | ditto/api_models/benchmark_progress.py:77-93 | accepts exactly the counts that are safe for their stage; each refusal names its own fault |
| BenchmarkProgress.TokenRoundTrip | ditto/api_models/benchmark_progress.py:96-111 | parsing a progress token gives back what was signed, absent cases included |
| BenchmarkProgress.TokenInjective | ditto/api_models/benchmark_progress.py:96-97 | different reports never sign the same bytes |
| BenchmarkProgress.RunTokenIsSuffix | ditto/api_models/benchmark_progress.py:105-110 | without a run token the bytes are the four-field form; with one only a suffix is added |
| Timestamps.IsoRoundTrip | ditto/api_models/benchmark_progress.py:102-104 | the microsecond ISO text determines the instant |
| Timestamps.JsonTextIsIso | ditto/api_models/benchmark_capacity.py:108-112 | the JSON timestamp is the ISO text without offset and without empty microseconds, plus Z |
| SystemHealth.TokenRoundTrip | ditto/api_models/system_health.py:48-64 | parsing a host-metrics token gives back the sample, or its absence |
| CanonicalJson.PrefixCode | ditto/api_models/benchmark_capacity.py:108-112 | canonical JSON printing is a prefix code up to a following digit, hence injective |
| CanonicalJson.ObjectText | ditto/api_models/benchmark_capacity.py:108-112 | an object prints as its quoted keys and values with only commas and colons between them |
| CanonicalJson.ConcatenationUnique | ditto/api_models/stack_health.py:141-147 | any concatenation of length-prefixed tokens decodes in exactly one way |
| CanonicalJson.Utf8ReadsBack | ditto/api_models/stack_health.py:147 | the UTF-8 bytes behind the announced length determine the character |
| CanonicalJson.PrintIsAscii | ditto/api_models/stack_health.py:137-147 | what is signed is ASCII, so the announced UTF-8 byte length is the number of characters |
| BenchmarkCapacity.ValidateSlots | ditto/api_models/benchmark_capacity.py:77-94 | accepts exactly the coherent slot advertisements; each refusal names its own fault |
| BenchmarkCapacity.FreeSlotsExactly | ditto/api_models/benchmark_capacity.py:96-101 | the free slots are exactly the healthy ones nothing runs in, in advertised order, and none unless accepting |
| BenchmarkCapacity.FreeSlotsAreFree | ditto/api_models/benchmark_capacity.py:96-101 | free slots are distinct, configured and idle, so free + active <= configured <= 8 |
| BenchmarkCapacity.CapacityText | ditto/api_models/benchmark_capacity.py:104-113 | the signed capacity, key by key and with the text of every admission state |
| BenchmarkCapacity.ActiveText | ditto/api_models/benchmark_capacity.py:32-55 | an active slot's members, key by key |
| BenchmarkCapacity.ProgressText | ditto/api_models/benchmark_capacity.py:104-113 | its progress, key by key, absent values as null |
| BenchmarkCapacity.PayloadInjective | ditto/api_models/benchmark_capacity.py:104-113 | different capacities, or a capacity and none, never sign the same payload |
| BenchmarkCapacity.TokenDecodesOneWay | ditto/api_models/benchmark_capacity.py:104-113 | a capacity token ends where it says, whatever follows, and names one capacity |
| StackHealth.IdentityPatterns | ditto/api_models/validator_capabilities.py:10-12 | the digest, revision and version patterns, character by character |
| StackHealth.ObservationFaultOf | ditto/api_models/stack_health.py:79-106 | accepts exactly the observations consistent with the reported health; each refusal names its own fault |
| StackHealth.IdentityText | ditto/api_models/stack_health.py:134-147 | an observed identity's present members, key by key |
| StackHealth.ComponentText | ditto/api_models/stack_health.py:134-147 | a component's present members, key by key and with the text of every health state |
| StackHealth.StackText | ditto/api_models/stack_health.py:134-147 | the whole signed token: byte length, then the present components, key by key |
| StackHealth.TokenDecodesOneWay | ditto/api_models/stack_health.py:134-147 | with absent observations dropped, a stack-health token still names one valid report and ends where it says |

## Left out

- Row-level locks, lock timeouts as durations and PostgreSQL's deadlock detector; only table locks and their queue.
- TableLocks.SplitMigrationIsDisciplined: the lock modes of each statement are PostgreSQL's documented ones and are taken as given.
- Deciding when the sweep converges: the loop bound and the residue handling are modelled, insert rates are not.
- Reading migrations from git and Python source, file-name dates, and the wording of error messages.
- MigrationRunner.Runner.RunPending: the order in which alembic applies pending revisions is taken as some topological order; application writes between migrations are modelled only for the charge-ceiling migration.
- IdentifierRename.RenameIdents: the names of a caller's mapping are single words, because other strings would need the regular-expression engine's own rules.
- The rollout floor `desired_version >= 7` and its comment about `from_version`: one comparison.
- Ticket columns no guard reads (`retry_after`, failure telemetry, `first_reported_at`) and foreign keys.
- NaN and floating-point rounding in scores and thresholds, where `max_score + 1e-9` could equal `max_score` for scores far above 1.
- Packing crates, regular-expression tokenising, the remaining obfuscation steps and the similarity signals.
- Policy fields other than the lane rotation and cohort sizes; the remaining fields are single ranges.
- JSON string escapes: every string in the signed models is printable ASCII without quotes or backslashes.
- How the JSON timestamp is written by the serialisation library: taken as seconds, an optional six-digit fraction and `Z`.
- Ticket issuance, inference admission, the KOTH fold, the dashboard and the HTTP API.
