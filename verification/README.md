# Verification of the migration sweep and its formats

A Dafny model of CryptBox, a library that seals database columns, derives searchable
blind indexes from them, and migrates live tables between key generations and from
legacy storage. `dafny verify dfyconfig.toml` checks every proof.

The model is built from the bytes up, one module per component.

* **Formats** (`Bytes`, `Padding`, `SealContext`, `EnvelopeFormat`, `BlindFormat`): the
  envelope header and payload bounds, ISO/IEC 7816-4 padding with bounded `usize`, the
  seal-context encoding with two's-complement `i64`, and the bit-truncated blind index.
  Each has a parser, a printer, proofs that they are inverse both ways, and an account of
  what every malformed string is reported as. `Vectors` checks the published vectors.
* **Keys and values** (`Keyring`, `Crypto`, `EnvelopeSuite`, `Envelopes`, `Binding`,
  `KeySeparation`, `BlindIndexes`, `Records`): keyrings, sealing, opening, resealing,
  probes, and opening lookup candidates. The primitives are function parameters with stated
  laws (`Crypto.Primitives.Lawful`), and instances show that the laws can be met. `Binding`
  states what authentication adds: the call that opens was made by some sealing of a log.
  `KeySeparation` states what key derivation adds, from premises on HKDF and HMAC at the
  calls at hand.
* **The planner** (`RowPlanner`, `PlannerLaws`, `PlanOutcomes`): classification and planning
  of a row over its stored bytes. The laws that the sweep needs of it are proved, not
  assumed; and every outcome and every error is stated in terms of the row, the configured
  legacy handler, the codec and the keys.
* **The sweep** (`SweepProtocol`, `SweepSafety`, `SweepTheorems`, `SweepReports`): a
  transition system with any number of workers on one table and one durable checkpoint.
  Workers load a batch, process it row by row with a compare-and-swap, save, finish, fail,
  crash and restart; other writers insert, replace and delete rows in between. Theorems
  are about every sequence of events, from every table with a checkpoint that is true of
  it: the table before any run, or what any earlier runs left.
* **The driver** (`SweepStore`, `SweepTrace`, `SweepDriver`, `SweepScan`, `SweepVerifier`,
  `SweepRuns`): `run` and `verify` as methods over a mutable store whose every call may meet
  other writers and may fail before or after its effect. `Run` is proved to be an execution
  of the protocol that starts once, fails exactly when its store does, and leaves what the
  next run may start from. `Verify` is proved to report what it saw and to see what was
  there, and among writers of current rows to be the authority on convergence.
* **End to end** (`Migration`, `MovedRecords`): the sweep over the real planner, and rows
  whose record ID changes under it. Nothing is assumed of the stored bytes.
* **Imperative cores and derives** (`Codec`, `Schema`, `Normalizer`, `RecordDerive`,
  `RecordImpl`, `RecordBinding`, `RecordSearch`): the plaintext buffer, duplicate detection,
  normalizer names, the checks of `#[derive(Record)]`, the sealing code it emits, what that
  binds, and searching what it stored.

The central results:

1. `SweepTheorems.CheckpointIsSwept`, by the invariant `SweepSafety.StepKept`: whatever
   the interleaving, a row at or below the checkpoint is current unless another writer,
   behind the sweep, last left it otherwise. `SweepTheorems.StaleWriterEscapes` shows why
   that exception cannot be dropped.
2. `SweepRuns.ResumedRunsConverge`: after any number of runs, each of which may have
   crashed, lost its store or stopped at a row, the checkpoint is true, and if the last
   run completed then every row is current and verification is terminal.
   `SweepRuns.RunThenVerify` is that procedure, run to its report.
3. `SweepTheorems.NothingIsLost`: the sweep is invisible to readers. After any events each
   row reads as if only the other writers had run, if each update made lands well.
4. `Migration.StrictReadsAfterSweep`: after a completed sweep, the current key alone and
   no legacy handler read every row as the permissive reader would have.
5. `Migration.SearchAfterSweep`: after a completed sweep, a search with current keys finds
   a value if and only if a row holds it and it normalizes to the query.
   `Migration.SearchDuringSweep`: at no moment before does a search miss a sealed row.
6. `PlannerLaws.RewriteIsFixedPoint`, `SweepTheorems.OneUpdateEach`,
   `SweepTheorems.ReplayChangesNothing`: every rewrite is final, each row is rewritten at
   most once, and replay changes no byte. `PlannerLaws.PlansExactly` says which rows can be
   rewritten at all.
7. `SweepVerifier.Verify` and `SweepScan.TerminalExactly`: among writers of current rows a
   terminal report means that every row is current, and a table of current rows is always
   reported terminal; on a quiet table the two are equivalent.
8. `PlanOutcomes`: the outcome and the error of classifying, planning and reading any row,
   exactly. A legacy row is what its configured handler makes of it, a rewrite keeps every
   byte that is current, and the first failure is the one reported.
9. `Binding.OpensOnlyAsSealed` and `Binding.FailsElsewhereExactly`: whatever opens is byte
   for byte an envelope sealed under the same seal ID and record ID, and any other context
   gets exactly the error that the kinds of record ID decide; `KeySeparation` adds that it
   opens under no other root key. `RecordBinding.MovedCiphertextFails`: a ciphertext moved to
   another field or record is always noticed.
10. `KeySeparation.ProbedExactly`: where the kept bits of the MAC tell values apart, an index
    is probed for by exactly the queries that normalize as its value does.

Three premises recur.

*True checkpoint* (`SweepSafety.SweptTo`): every row up to the checkpoint is current. It
holds without a checkpoint, and every run keeps it.

*Timely writers* (`SweepTheorems.TimelyWriters`): other writers store rows that are current,
or that the sweep has yet to reach, such as a repair of the row that stopped it. Writers of
current rows are always timely. Results that do not need it do not have it.

*Updates land well* (`SweepTheorems.UpdatesLandWell`): whatever row an update meets reads
alike before and after. An update compares a row's ciphertext and index bytes
(docs/operations.md:184-191) and not the record-ID columns, although the trait's comment
speaks of every byte of the row (src/migrate/sweep.rs:73-75); so a rewrite planned under one
record ID may land under another. A step is invisible to readers exactly if its update lands
well (`SweepTheorems.StepIsStutter`). All updates do if rows that are not current keep their
record IDs (`SweepTheorems.InPlaceLandsWell`), if the other writers write current rows,
wherever they move them (`SweepTheorems.CurrentWritersLandWell`), and if only sealed rows
move and the two attempts on each that an update then meets are genuine
(`MovedRecords.NothingIsLostIfLegacyStays`). For one rewrite the condition is exact
(`MovedRecords.LandsWellExactly`), and `MovedRecords.MovedLegacyRowIsLost` is a run that
moves a legacy row and loses its value. Packaged stores load no such columns, so there every
update lands well.

The operations guide (docs/operations.md:161-164) assigns a run one owner because
concurrent workers can overwrite progress. The model allows any number of them and any
order of saves, so the checkpoint may also move backwards; the invariant covers that.

## Model

| member | source | states |
|---|---|---|
| SweepTheorems.CheckpointIsSwept | src/migrate/sweep.rs:190-209 | In every state reachable from one of which the invariant holds, every row at or below the durable checkpoint is current or was last left otherwise by another writer behind the sweep; no premise on the writers |
| SweepTheorems.CheckpointStaysTrue | src/migrate/sweep.rs:183-209 | Among timely writers the checkpoint stays true of the table, whatever became of the workers |
| SweepTheorems.FinishedExactly | src/migrate/sweep.rs:177-209 | Once a worker has finished, the rows that are not current are exactly those another writer last left so behind the sweep |
| SweepTheorems.FinishedConverges | src/migrate/sweep.rs:177-209 | Among writers of rows that are current or not yet reached, a finished worker means that every row is current |
| SweepTheorems.ConvergedEverAfter | src/migrate/sweep.rs:177-209 | The same, and every row stays current through all further events if later writers write current rows |
| SweepTheorems.ConvergedStays | src/migrate/sweep.rs:183-189 | A table of current rows stays one under any workers and writers of current rows; without other writers not a byte changes |
| SweepTheorems.ReplayChangesNothing | src/migrate/sweep.rs:147-150 | On a converged table workers started from any checkpoint or resumed from any memory make no update |
| SweepTheorems.StaleWriterEscapes | tests/e2e/sweep.rs:46-56 | A concrete run in which a writer that stores a row that is not current defeats a finished sweep |
| SweepTheorems.TimelyWritersLeaveNoTaint | tests/e2e/sweep.rs:46-56 | Writers of rows that are current or not yet reached leave no row that the sweep must excuse |
| SweepTheorems.NothingIsLost | src/migrate/sweep.rs:262-290 | Over any events the table reads as if only the other writers had run: no value is lost, changed or overwritten. The one premise speaks of each update that is made: the row it meets reads alike before and after |
| SweepTheorems.InPlaceLandsWell | src/migrate/sweep.rs:262-290 | Every update lands well if rows that are not current keep their record IDs |
| SweepTheorems.CurrentWritersLandWell | src/migrate/sweep.rs:262-290 | Among writers of current rows every update lands well, wherever they move rows |
| SweepTheorems.CurrentIsInert | src/migrate/sweep.rs:274-286 | The bytes of a current row are rewritten under no record ID, which is why such a row may move |
| SweepTheorems.AnchoredAlways | src/migrate/sweep.rs:262-290 | In every reachable state each row, stored or loaded, has its own record ID or bytes that are free to have any |
| SweepTheorems.StepIsStutter | src/migrate/sweep.rs:262-290 | A step of a worker leaves what every row reads as if and only if the update it makes, if any, lands well; a writer's step changes exactly its row |
| SweepTheorems.SameWritersSameValues | src/migrate/sweep.rs:183-200 | Runs over one table that agree on the other writers' events end with the same values, however they were interrupted, repaired, resumed, parallel or batched, and whichever state they start from, if their updates land well |
| SweepTheorems.RowsAlways | src/migrate/sweep.rs:262-290 | A property of rows that rewrites and writers keep holds of every row of every reachable table; only rows that some plan rewrites must keep their record IDs |
| SweepTheorems.OneUpdateEach | src/migrate/sweep.rs:274-290 | Without other writers and from any true checkpoint, by the time a worker finishes each row that was not current has had exactly one successful update and each that was has had none |
| SweepTheorems.OnceAlways | src/migrate/sweep.rs:274-290 | In every state on the way a row holds its first bytes and was never updated, or is current and was updated once |
| SweepSafety.StepKept | src/migrate/sweep.rs:190-290 | Every step keeps the inductive invariant: all rows up to a worker's position are settled, or pending in its batch with exactly the loaded bytes |
| SweepSafety.ProcessKept | src/migrate/sweep.rs:267-288 | Processing one row keeps the invariant: a rewrite lands only on the bytes it was planned from, and a lost one was lost to a settled row |
| SweepSafety.LoadKept | src/migrate/sweep.rs:262-265 | Loading a batch keeps the invariant up to its last row, or to the end of the table when nothing is left |
| SweepSafety.SaveKept | src/migrate/sweep.rs:200-206 | Saving the checkpoint after a whole batch keeps the invariant |
| SweepSafety.ForeignKept | src/migrate/sweep.rs:108-110 | Any write, insert or delete by another writer at any moment keeps the invariant; a row that is not current counts against the sweep only behind it |
| SweepSafety.InvAlways | src/migrate/sweep.rs:190-290 | The invariant holds after every sequence of events |
| SweepSafety.StartedInv | src/migrate/sweep.rs:183-195 | A run may start from a table and a checkpoint exactly when every row up to the checkpoint is current; without a checkpoint it always may |
| SweepReports.EveryRowIsCounted | src/migrate/sweep.rs:256-291 | From any start rows loaded are conserved: current + stale + legacy + conflicts plus the rows still to process equals the rows loaded, and a run counts none as malformed |
| SweepReports.UpdatesAreReported | src/migrate/sweep.rs:274-287 | Whoever else is at work and however often it crashed, a worker reports as stale or legacy exactly as many rows as it has itself updated since it last started |
| SweepReports.RowsBeforeFailureAreCurrent | src/migrate/sweep.rs:122-130 | Among any workers and timely writers, when a worker has stopped its planner refused that row with that error, and every row before it is current |
| SweepReports.FailureIsRefused | src/migrate/sweep.rs:122-130 | A stopped worker holds a batch of at most batch-size rows after the cursor it loaded from, and the row its planner refused is in it |
| SweepReports.FailureIsNextToCheckpoint | src/migrate/sweep.rs:122-130 | The row at which a sole worker, resumed from any true checkpoint, has stopped is among the at most batch-size rows it loaded after the durable checkpoint, and every earlier row is current; if no one else wrote, the rows between are exactly those before it in its batch |
| SweepReports.RepairIsTimely | docs/operations.md:201-204 | The row that stopped a sole worker may then be changed in any way: the sweep has yet to reach it |
| SweepReports.SoleWorker | src/migrate/sweep.rs:183-200 | From any start and among any other writers, a sole worker's position is always the durable checkpoint |
| SweepReports.QuietBatches | src/migrate/sweep.rs:262-265 | Without other writers a worker's batch is exactly the first rows of the table after the cursor it loaded from |
| SweepProtocol.NextCursor | src/migrate/sweep.rs:67-72 | The next row is the one with the least cursor strictly after the given one |
| SweepProtocol.LoadBatchExact | src/migrate/sweep.rs:67-72 | A batch is ascending, strictly after the cursor, holds the table's bytes, skips no row up to its last, and is short only at the end of the table |
| SweepScan.LoadIsPaging | src/migrate/sweep.rs:67-72 | A batch is the next rows of the full scan, which goes on strictly after the batch's last row |
| SweepScan.ScanIsComplete | src/migrate/sweep.rs:67-72 | Paging from a cursor meets every later row exactly once, in cursor order |
| SweepScan.ScanOfWholeTable | src/migrate/sweep.rs:211-216 | A pass from the start meets as many rows as the table has |
| SweepScan.CountInParts | src/migrate/sweep.rs:296-320 | Counting a scan batch by batch is counting it whole, the aborting error included |
| SweepScan.CountExactly | src/migrate/sweep.rs:307-318 | Every row is counted once and none as a conflict; the report stays terminal exactly when every row is current |
| SweepScan.CountsOfEachState | src/migrate/report.rs:25-31 | Each counter of a pass counts exactly the rows of its state |
| SweepScan.CountAborts | src/migrate/sweep.rs:307-318 | Counting fails if and only if some row aborts it |
| SweepScan.FirstAborts | src/migrate/sweep.rs:307-318 | The error of a pass is the one of the first row that aborts it, whatever the rows after it |
| SweepScan.ConfigurationErrors | src/migrate/sweep.rs:349-356 | The errors that abort are seven: the key, randomness, duplicate, internal and arity ones |
| SweepScan.CurrentBatchExtends | src/migrate/sweep.rs:296-320 | A batch of current rows extends the part of the table known to be current to its last row, or to the whole table when nothing was left |
| SweepScan.TerminalExactly | src/migrate/report.rs:36-49 | The report of a full pass is terminal if and only if every row is current, and its counts sum to the table's size |
| SweepScan.ConflictsDoNotCount | src/migrate/report.rs:36-49 | Conflicts do not keep a report from being terminal |
| SweepScan.VerificationAborts | src/migrate/sweep.rs:311-317 | A pass over a quiet table aborts if and only if the table holds a row that aborts |
| SweepStores.Store.LoadCheckpoint | src/migrate/sweep.rs:85-88 | Returns the durable checkpoint unless the call fails; other writers may act first |
| SweepStores.Store.SaveCheckpoint | src/migrate/sweep.rs:90-94 | Stores the checkpoint, unless the call fails before its effect |
| SweepStores.Store.LoadRows | src/migrate/sweep.rs:96-105 | Returns the first rows strictly after the cursor as the other writers left them |
| SweepStores.Store.CompareAndSwap | src/migrate/sweep.rs:107-115 | Replaces the row exactly when it still holds the loaded bytes after the other writers acted, and reports whether it did |
| SweepStores.Store.Begin | tests/migrate.rs:646-661 | Applies the other writers' events scripted around a call |
| SweepStores.ExecuteOthers | tests/migrate.rs:646-661 | Those events change the protocol's table as they change the store's, and no worker's memory |
| SweepStores.OthersKeepCurrent | docs/operations.md:234-237 | Writers of current rows leave no row that was current, or absent, otherwise |
| SweepStores.AnsweredExactly | tests/migrate.rs:646-661 | Calls went as the script says if and only if what is left of it is its end, and no call failed but the last, exactly if that is reported |
| SweepStores.FaultsAnswered | tests/migrate.rs:646-661 | Calls that were answered use up no failure of the script, and a failed call exactly one |
| SweepDriver.Run | src/migrate/sweep.rs:190-209 | Ends, and its effect is an execution of the protocol from the durable checkpoint, with one start: same table, same checkpoint, report equal to the finished worker's tally, row errors where the protocol has them. It ends in a store failure if and only if its last store call failed, and in nothing else if an earlier one did; each planned row drew its own randomness, in order; a run that completes saved once for every load but the last, and on a quiet store loaded exactly as often as the rows left need |
| SweepDriver.RunBatch | src/migrate/sweep.rs:197-206 | One turn of the run: a batch processed, then its last cursor saved, with the same account of failures and randomness |
| SweepDriver.ProcessBatch | src/migrate/sweep.rs:256-291 | Loads and processes one batch as the protocol does, and returns the last cursor, or none when nothing was left |
| SweepDriver.LoadNext | src/migrate/sweep.rs:262-265 | Loads the batch strictly after the cursor as the protocol does |
| SweepDriver.ProcessRows | src/migrate/sweep.rs:267-288 | Processes a batch in order and stops at the first failure |
| SweepDriver.ProcessRow | src/migrate/sweep.rs:269-287 | Plans a row and applies its rewrite as one step of the protocol |
| SweepDriver.ApplyRewrite | src/migrate/sweep.rs:276-286 | A matched update is recorded under the row's state, a lost one as a conflict, and a store failure ends the worker |
| SweepDriver.SaveProgress | src/migrate/sweep.rs:200-206 | Saves the cursor of the batch just processed, and goes on from it |
| SweepDriver.Resumed | src/migrate/sweep.rs:194-195 | A run starts from the durable checkpoint with an empty report |
| SweepTraces.DrawsAreDistinct | src/envelope/suite/xchacha20_poly1305.rs:47-57 | If the random source never repeats itself, no two rows of a run are planned with the same randomness |
| SweepDriver.RunLeavesTrueCheckpoint | src/migrate/sweep.rs:183-209 | However a run from a true checkpoint ends, it leaves a true checkpoint; if it completed, verification counts every row as current |
| SweepRuns.ResumedRunsConverge | src/migrate/sweep.rs:183-209 | After any number of runs, each resuming from what the one before it left, the checkpoint is true, and if the last completed, verification counts every row as current |
| SweepRuns.RunRepeatedly | tests/migrate.rs:834-873 | Running until a run completes, within a number of attempts, is a chain of runs each resuming from what the one before it left. Every run that did not complete was refused a row or used up one of the store's failures, exactly; among writers of current rows the chain meets the premises of convergence |
| SweepDriver.CurrentWritersAreTimely | src/migrate/sweep.rs:183-189 | A run on a store whose other writers write current rows is a run among timely writers |
| SweepDriver.QuietRun | src/migrate/sweep.rs:190-209 | A run on a store no one else writes to is an execution without other writers, so the exact results about such executions are about it |
| SweepVerifier.Verify | src/migrate/sweep.rs:237-252 | Ends and writes nothing. Whoever else writes, the report counts each row seen once, in cursor order; each of them was in the table at some moment, a pass that completes saw every row that no one touched meanwhile, and it fails if and only if its last load did. Among writers of current rows, a terminal report means that every row is current, and a table of current rows neither aborts the pass nor fails to be terminal. On a quiet store the report is the whole table's, with the exact number of loads, independent of the batch size |
| SweepVerifier.VerifyBatch | src/migrate/sweep.rs:296-320 | Counts one batch: malformed rows are tallied, the first configuration error aborts |
| SweepScan.LoadsExactly | src/migrate/sweep.rs:237-252 | A pass over `n` rows loads ceil(n / batch size) + 1 times |
| SweepRuns.RunThenVerify | tests/migrate.rs:699-721 | Runs and then a verification, among writers of current rows: if a run completed, every row is current, no configuration error aborts the pass, and a report is terminal; a terminal report means convergence even if none did. If the store fails less often than there are attempts, then a run completes or some run was refused a row; if it never fails, the verification does not |
| SweepDriver.SweepReport.Record | src/migrate/report.rs:25-31 | Increments the counter of the row's state and no other |
| SweepDriver.Sweep.WithBatchSize | src/migrate/sweep.rs:169-175 | The batch size given, or at least one |
| RowPlanner.FindStaleColumns | src/migrate/row.rs:371-375 | The loop computes each column's staleness, or the first error |
| RowPlanner.DeriveReplacements | src/migrate/row.rs:392-403 | The loop re-derives stale columns and copies current ones, or returns the first error |
| RowPlanner.Plan | src/migrate/row.rs:349-415 | The planner's loops and early returns compute the planning function |
| PlannerLaws.PlanRefinesClassify | src/migrate/row.rs:303-415 | Planning succeeds only with the row's classification, rewrites exactly the rows that are not current, and fails as classification fails |
| PlannerLaws.UnknownKeyDoesNotPlan | src/migrate/row.rs:360-388 | A well-formed envelope of the row's kind under a key the ring lacks is stale, and its plan is an error |
| PlannerLaws.OtherWritersRowDoesNotPlan | src/migrate/row.rs:360-388 | Every value sealed by a writer whose current key the ring lacks is such an envelope |
| PlannerLaws.PlansExactly | src/migrate/row.rs:349-430 | A row plans if and only if it classifies and is current; or is legacy and reads, encodes, seals and indexes; or is stale, all its indexes parse, its envelope opens and seals anew if stale, and its stale indexes derive |
| PlannerLaws.CurrentExactly | src/migrate/row.rs:303-330 | A row is current if and only if its envelope needs no reseal for its kind of context and no index is stale |
| PlannerLaws.LegacyExactly | src/migrate/row.rs:303-318 | A row is legacy exactly when its bytes lack the envelope magic and its arity is right |
| PlannerLaws.ValidPlannerExists | src/migrate/row.rs:417-430 | The planner's premises can be met, and then an empty legacy row is rewritten |
| PlannerLaws.RewriteIsFixedPoint | src/migrate/row.rs:349-430 | What the planner writes classifies as current, and planning it again with any randomness writes nothing |
| PlannerLaws.RewriteKeepsValue | src/migrate/row.rs:349-430 | The permissive reader gets the same value, or the same error, before and after a rewrite |
| PlannerLaws.RewrittenEnvelope | src/migrate/row.rs:378-430 | A rewrite stores a valid envelope that needs no reseal |
| PlannerLaws.LegacySealReads | src/migrate/row.rs:417-430 | A migrated legacy row opens to what its legacy bytes were recovered and decoded to |
| PlannerLaws.RefreshReads | src/migrate/row.rs:376-388 | The plaintext a rewrite derives indexes from is what the row's reader opens |
| PlannerLaws.IndexOrigins | src/migrate/row.rs:390-437 | Each index written is derived from the value the row reads as, or is its own current bytes |
| PlannerLaws.RewriteKeepsConsistency | src/migrate/row.rs:390-437 | A rewrite keeps indexes consistent with the value, and gives a migrated legacy row consistent ones |
| PlannerLaws.ConsistentCurrentIsDerived | src/migrate/row.rs:455-461 | In a consistent current row every index is, in all its bytes, the derivation under the current key |
| PlannerLaws.StaleBytesAreNeverCurrent | src/migrate/row.rs:303-330 | Bytes that need a rewrite under one record ID are current under none |
| PlannerLaws.StrictReadOfCurrent | src/migrate/read.rs:120-200 | For a current row, the strict read with the current key alone equals the permissive read |
| PlannerLaws.FreshIsCurrent | src/bound.rs:11-19 | A value encoded, sealed with the planner's keys and indexed with all its index keys is a row that classifies as current, is consistent, and reads as the value: the premises on writers are what the library's own writers meet |
| PlanOutcomes.ClassifiesExactly | src/migrate/row.rs:303-330 | The state or error of any row, decided by the first of arity, magic, structure, kind of context, header, and the first index that is not current; later indexes are not looked at |
| PlanOutcomes.ReadsExactly | src/migrate/read.rs:99-205 | Legacy bytes read as the codec decodes what the configured handler returns for them, or themselves without a handler, or the handler's error; envelopes read as the codec decodes what opens; the strict reader refuses legacy bytes |
| PlanOutcomes.LegacyReports | src/migrate/row.rs:417-437 | A legacy row's plan fails with the first error of: the configured handler, decoding, encoding, sealing, the first index that does not derive |
| PlanOutcomes.LegacyWrites | src/migrate/row.rs:417-430 | It succeeds only if the handler does, and writes the sealing of what its value encodes to, with every index derived from it; the written row reads as that value |
| PlanOutcomes.UnreadableIndexReports | src/migrate/row.rs:371-375 | The first index of a sealed row that does not parse or has no keys is the plan's error, even behind a stale one |
| PlanOutcomes.SealedReports | src/migrate/row.rs:376-415 | A sealed row with nothing stale is left alone; otherwise the plan fails with the first error of: opening, sealing anew if the header is not current, decoding if an index is stale, the first stale index that does not derive |
| PlanOutcomes.SealedWrites | src/migrate/row.rs:381-415 | An envelope with a current header keeps its bytes, any other is the sealing of the same plaintext; stale indexes are derived from the value, and every other keeps its bytes |
| Migration.RulesAreLawful | src/migrate/row.rs:303-430 | The real planner obeys the laws the sweep's theorems need |
| Migration.StrictReadsAfterSweep | src/migrate/sweep.rs:183-252 | From any true checkpoint, once a worker finished, and ever after: verification counts every row as current, and if every update landed well, strict reads equal what permissive reads would have given with only the other writers running |
| Migration.StrictReadsAmongCurrentWriters | src/migrate/sweep.rs:183-252 | The same among writers of current rows, with no premise on record IDs |
| Migration.AbortsExactly | src/migrate/sweep.rs:323-357 | A row aborts a verification if and only if it has the wrong number of columns, or its envelope is current and the first index not of a current key parses and has no keys; bad bytes alone never do |
| MovedRecords.LandsWellExactly | docs/operations.md:184-191 | If envelopes open under one record ID only, a rewrite that lands on moved bytes leaves the row reading as it did if and only if the record ID is the same or the bytes were an envelope already |
| MovedRecords.MovedRowReadsAlikeExactly | docs/operations.md:184-191 | The same under the ideal log of performed sealings, for the two envelopes involved |
| MovedRecords.NothingIsLostWhereGenuine | src/migrate/sweep.rs:262-290 | The sweep loses nothing over any run in which each update meets the record ID it was planned for, or rewrites a sealed row whose two envelopes were sealed for no other record and whose two attempts at the new one are no forgeries |
| MovedRecords.NothingIsLostIfLegacyStays | src/migrate/sweep.rs:262-290 | The same, asking of writers that legacy rows keep their record IDs, and of sealed rows that moved only what is said of those two attempts |
| MovedRecords.MovedLegacyRow | docs/operations.md:184-191 | A valid planner, a legacy row and a record ID, such that the row reads there and the rewrite planned for it does not |
| MovedRecords.MovedLegacyRowIsLost | docs/operations.md:184-191 | The run that loses it: start, load, the writer's move, update. Its final table reads as `AuthenticationFailed` where the writer alone would have left a readable value |
| MovedRecords.CheckingBindsUuids | src/envelope/suite.rs:184-193 | Over primitives whose tag covers the end of the authenticated data, no envelope that opens under one UUID record ID opens under another |
| Migration.ConsistencyAlways | src/migrate/row.rs:390-406 | If sealed rows start consistent and writers keep that, every row of every reachable table is consistent |
| Migration.ProbedByCurrentKey | src/blind.rs:432-443 | In a current consistent row the stored index is among the probes of every query that normalizes like its value, with the current index key alone |
| Migration.SearchIsExact | src/record.rs:169-216 | Over current consistent rows, probing, selecting and opening finds a value if and only if a row holds it and it normalizes to the query |
| Migration.SearchDuringSweep | src/blind.rs:432-443 | In every reachable table a sealed row is found by every query that normalizes like its value, with all readable index keys |
| Migration.FoundDuringIsStored | src/record.rs:169-216 | What such a search finds is what some row reads as, and normalizes to the query |
| Migration.SearchAfterSweep | src/record.rs:169-216 | The same, of the table any interleaving of a completed sweep leaves |
| Records.OpenMatching | src/record.rs:190-216 | Fails only if the query cannot be normalized; otherwise returns each candidate's hit or error in the order of the rows |
| Records.HitsAreMatches | src/record.rs:178-216 | A record is a hit if and only if some row opens to it and its value normalizes to the query |
| Records.RowContributes | src/record.rs:196-216 | One row contributes a hit, its error, or nothing, and exactly one of them |
| Records.FailuresAreReported | src/record.rs:181-182 | The error of a candidate that does not open is among the results |
| Records.CandidatesInParts | src/record.rs:201-213 | A lookup over pages is the concatenation of the lookups over each |
| BlindIndexes.ProbesFindIndex | src/blind.rs:432-443 | Whichever key of the ring derived an index, the probes of a query that normalizes alike include it |
| BlindIndexes.ProbesReport | src/blind.rs:430-443 | The query's error comes before missing keys; a query too long to frame is an error; otherwise there is one probe for each readable key |
| BlindIndexes.ConsistencyExactly | src/blind.rs:445-461 | Recomputing an index accepts exactly what some key of the ring derived from the value |
| BlindIndexes.ConsistencyReports | src/blind.rs:445-461 | Its errors: missing keys, a key the ring lacks, a value without an index; otherwise equality decides |
| BlindIndexes.DerivedParses | src/blind/recipe.rs:11-40 | A derived index is valid and names its key and precision |
| BlindIndexes.DeriveReports | src/blind.rs:408-428 | Missing keys come before the normalizer's error; what is derived parses to the current key and the precision |
| BlindIndexes.CandidateReports | src/blind.rs:468-480 | A candidate matches if and only if both sides normalize alike; the query's error comes first |
| BlindIndexes.IndexKeyInfoInjective | src/blind/recipe.rs:23-26 | The key-derivation input determines key ID, precision, seal ID, record and index ID |
| BlindIndexes.IndexInputInjective | src/blind/recipe.rs:27-37 | The HMAC input determines all of these and the normalized value |
| BlindFormat.AcceptedIndexes | src/blind/format.rs:58-87 | The strings the parser accepts are exactly the encodings of some digest under a valid header |
| BlindFormat.InspectEncoded | src/blind/format.rs:58-132 | Parsing an encoded index returns its key ID and precision |
| BlindFormat.IndexIsReported | src/blind/format.rs:58-87 | Every string of at least header length is reported as another version, else as no index, else as its fields |
| BlindFormat.ShortIndexIsReported | src/blind/format.rs:58-87 | A string shorter than a header is no index |
| BlindFormat.EncodeInspected | src/blind/format.rs:58-132 | Every accepted string is the encoding of what it parses to |
| BlindFormat.TruncationKeepsLeadingBits | src/blind/format.rs:111-139 | Two digests encode equally under one header if and only if their first `bits` most significant bits agree |
| BlindFormat.FinalByteMaskIsShift | src/blind/format.rs:134-139 | The mask is the shift the source computes |
| BlindFormat.BuildIndexHeader | src/blind/format.rs:102-109 | Filling the header in place gives version, key ID and big-endian precision |
| BlindFormat.EncodeIndex | src/blind/format.rs:113-131 | Masking the last byte in place gives the canonical truncation |
| EnvelopeFormat.ParsePrint | src/envelope.rs:42-49 | A header with a payload in range parses back to its fields |
| EnvelopeFormat.PrintParse | src/envelope/format.rs:126-181 | Every accepted string equals the header rebuilt from its parsed fields followed by its payload |
| EnvelopeFormat.AcceptedEnvelopes | src/envelope.rs:42-49 | A string is accepted if and only if it is some header followed by a payload in range |
| EnvelopeFormat.NotCiphertextExactly | src/envelope/format.rs:115-130 | Bytes count as legacy exactly when they lack the magic; malformed envelopes never do |
| EnvelopeFormat.FlagBits | src/envelope/format.rs:103-109 | The accepted flag bytes are exactly the two that the padded flag prints |
| EnvelopeFormat.StartIsReported | tests/vectors.rs:155-185 | The version is judged as soon as it is there, before the length; the magic alone is malformed |
| EnvelopeFormat.HeaderIsReported | docs/wire-format.md:217-240 | Every string with a whole header is reported as an unknown suite, else reserved flags, else a payload out of range, else its fields |
| EnvelopeFormat.FormsAreExhaustive | docs/wire-format.md:217-240 | These are all the strings with the magic |
| EnvelopeSuite.EncryptInto | src/envelope/suite/xchacha20_poly1305.rs:129-151 | Appends ciphertext and tag, and fails exactly on an oversized message or buffer |
| EnvelopeSuite.SealInto | src/envelope/suite/xchacha20_poly1305.rs:85-111 | Growing the buffer yields header, nonce, ciphertext and tag, with the buffer so far authenticated |
| EnvelopeSuite.KeyInfoInjective | src/envelope/suite.rs:163-181 | The key-derivation input determines format, suite, key ID and context |
| EnvelopeSuite.AadInjective | src/envelope/suite.rs:184-193 | The authenticated data determine seal ID, record ID and the whole stored prefix |
| Envelopes.SealParses | src/envelope.rs:56-65 | What sealing emits is accepted and reports suite, padding, current key and fingerprint |
| Envelopes.SealSucceedsExactly | src/envelope/suite/xchacha20_poly1305.rs:115-123 | Sealing fails exactly for want of padding room, randomness or message room, with that error, in that order; the seal-time limit is the parse-time one |
| Envelopes.SealWrites | src/envelope/suite/xchacha20_poly1305.rs:85-111 | What is stored, in terms of HKDF and the AEAD alone: header, nonce, ciphertext and tag of the padded message, of exactly the target length |
| Envelopes.OpenSeal | src/bound.rs:11-30 | Any reader that holds the writer's key opens a sealed value to its plaintext, whatever padding policy it now has |
| Envelopes.OpenReads | src/envelope.rs:79-113 | What is opened, in terms of HKDF and the AEAD alone, and every error in its order, an unknown key among them |
| Envelopes.OpenCallOfSeal | src/envelope/suite/xchacha20_poly1305.rs:59-82 | The reader's AEAD call on a sealed envelope is the writer's |
| Envelopes.NeedsResealExactly | src/envelope.rs:115-126 | A reseal is due exactly when suite, current key or padding flag differ; malformed and foreign envelopes are errors |
| Envelopes.ResealIsCurrent | src/bound.rs:51-61 | A reseal keeps the plaintext, opens in its target context and needs no other |
| Envelopes.ContextMismatchExactly | src/envelope.rs:79-93 | A reader of another context gets `ContextMismatch` exactly when the kinds of record ID differ, before any key lookup |
| Envelopes.CurrentEnvelopeNeedsNoPreviousKeys | src/envelope.rs:98-113 | An envelope that needs no reseal opens alike with the current key alone |
| Binding.OpensOnlyAsSealed | src/envelope/suite.rs:183-193 | If an attempt is no forgery and opens, a logged sealing under the same seal ID and record ID wrote exactly these bytes and this value |
| Binding.DecryptsOnlyAsSealed | src/envelope/suite.rs:183-193 | A call that decrypts and is no forgery was made by a logged sealing under the same context, from the same plaintext |
| Binding.OpensInNoOtherContext | src/bound.rs:21-30 | An envelope sealed only for one seal ID and record ID opens for no other, with any keyring |
| Binding.FailsElsewhereExactly | src/envelope.rs:79-113 | An envelope that opens in its context reports in any other `ContextMismatch` if the kinds of record ID differ and `AuthenticationFailed` if not |
| KeySeparation.OpensOnlyUnderItsKey | src/envelope/suite.rs:163-181 | If HKDF separates the calls at hand, whatever opens was sealed under the very key that opened it |
| KeySeparation.SealKeysSeparate | src/envelope/suite.rs:163-181 | If HKDF separates two calls, two sealings have one AEAD key if and only if root key, key ID, seal ID and record ID agree |
| KeySeparation.OtherMaterialFails | src/envelope/suite.rs:163-181 | A ring that holds another root key under an envelope's key ID gets `AuthenticationFailed` |
| KeySeparation.IndexesSeparate | src/blind/recipe.rs:11-40 | If HKDF and the kept bits of HMAC separate two derivations, their stored indexes are equal if and only if key, seal, index, precision and normalized value are |
| KeySeparation.ProbedExactly | src/blind.rs:408-443 | Then a stored index is among the probes of a query if and only if the query normalizes as its value did and the ring holds its key |
| KeySeparation.EchoingSeparates | src/blind/recipe.rs:11-40 | The premise can be met: concrete lawful primitives separate any two one-byte values |
| KeySeparation.RootsOfOneLengthSeparate | src/envelope/suite.rs:163-181 | So can the premise on HKDF, for root keys of one length, which all are |
| Binding.AttemptParts | src/envelope/suite/xchacha20_poly1305.rs:59-82 | Every byte of an opened envelope is authenticated |
| Binding.LabelsAreDisjoint | src/envelope/suite.rs:13-14 | No two of the four labels agree in every position both have |
| Binding.InputsAreDisjoint | src/envelope/suite.rs:163-193 | No key-derivation info, authenticated data, index-key info or index input of one kind equals one of another, whatever their parts |
| SealContexts.ParseEncode | src/seal_context.rs:198-222 | A reader recovers seal ID, record ID and whatever follows from a context's bytes |
| SealContexts.EncodeParse | src/seal_context.rs:198-222 | Every string it reads is the encoding of what it read |
| SealContexts.EncodePrefixFree | src/seal_context.rs:194-222 | Contexts followed by anything are equal only part by part |
| SealContexts.PayloadRoundTrip | src/seal_context.rs:205-208 | Big-endian two's complement loses no 64-bit integer, negative ones included |
| SealContexts.FingerprintsDiffer | src/seal_context.rs:170-186 | Fingerprints tell kinds of record ID apart and nothing else |
| SealContexts.BuildContext | src/seal_context.rs:198-222 | Appending part by part builds the encoding and its fingerprint |
| PaddingPolicy.BlockTargetIsLeastMultiple | src/padding.rs:86-98 | Block padding grows to the least multiple of the size strictly above the length, or overflows |
| PaddingPolicy.ValidExactly | src/padding.rs:54-80 | The sizes the constructors accept |
| PaddingPolicy.LengthTargetIsFixed | src/padding.rs:99-106 | Fixed padding grows to exactly one more than the length, and fails exactly on excess or overflow |
| PaddingPolicy.UnpadPad | src/padding.rs:86-143 | Unpadding what was padded returns the plaintext |
| PaddingPolicy.UnpadAcceptsExactly | src/padding.rs:134-143 | Unpadding succeeds if and only if the bytes are a plaintext, 0x80 and zeros, and returns that plaintext |
| PaddingPolicy.PadToLength | src/padding.rs:122-131 | Filling the buffer gives plaintext, marker and zeros |
| PaddingPolicy.UnpadBuffer | src/padding.rs:134-143 | The backward scan computes the unpadding function |
| Keyrings.NewRing | src/key/keyring.rs:149-165 | Builds a valid ring of all keys, or reports the first key that repeats an ID |
| Keyrings.Insert | src/key/keyring.rs:155-162 | Inserts a key in ID order, and reports exactly the IDs already taken |
| Keyrings.GetExact | src/key/keyring.rs:59-63 | A key is found under an ID exactly when it is the ring's key of that ID |
| Keyrings.ReadableIsComplete | src/key/keyring.rs:124-133 | The readable keys are the current one first, then every other in ID order, each exactly once |
| PlaintextBuffer.ZeroizingByteBuffer.Reserve | src/codec.rs:27-50 | Keeps the contents, makes exactly enough room, and panics exactly on overflow |
| PlaintextBuffer.ZeroizingByteBuffer.ExtendFromSlice | src/codec.rs:22-25 | Appends within the reserved room; all reallocations so far copied at most twice what the buffer holds |
| PlaintextBuffer.Serialize | src/codec.rs:53-63 | Over any sequence of writes the buffer holds their concatenation, with at most twice its length copied |
| Schema.SharedIds | src/schema.rs:345-358 | The loop groups entries by ID, groups in first-appearance order, and keeps the shared ones |
| Schema.ReportedExactly | src/schema.rs:344-358 | An ID is reported exactly when two entries declare it, with exactly their markers in registration order |
| Schema.DistinctInOrder | src/schema.rs:344-358 | Groups come in the order in which their IDs first appear |
| Schema.GroupsPartition | src/schema.rs:348-355 | Grouping loses and repeats no entry |
| Schema.ReportIsEmptyExactly | src/schema.rs:600-617 | The manifest's report is empty exactly when the compile-time check finds no repeated ID |
| Schema.SharedContexts | src/schema.rs:258-276 | The loop collects the distinct kinds per seal ID and keeps the seal IDs of several kinds |
| Schema.ContextsReportedExactly | src/schema.rs:256-276 | A seal ID is reported exactly when it is registered in two different kinds of context |
| Schema.HasDuplicate | src/schema.rs:603-617 | True if and only if two of the IDs are equal |
| Schema.Equal | src/schema.rs:619-629 | Byte by byte equality of IDs |
| Normalizers.ValidNormalizer | src/blind.rs:494-519 | The backward scan accepts exactly the versioned names, and exactly what the derive accepts |
| Normalizers.DeriveAcceptsExactly | derive/src/attr.rs:355-364 | The check on both sides of the last slash accepts exactly the versioned names |
| Normalizers.DigitsAreDecimal | src/blind.rs:494-519 | A version is written in the ten ASCII digits |
| RecordChecks.CheckDistinct | derive/src/record.rs:358-372 | Reports every repeating ID with the field of its first declaration |
| RecordChecks.CheckRecord | derive/src/record.rs:374-458 | No problem is reported if and only if the record has one record ID, not optional, a sealed field, no repeated seal or index ID, and no index column that is taken |
| RecordChecks.CheckColumns | derive/src/record.rs:440-457 | Reports each generated index column that a field or an earlier index has |
| RecordChecks.ColumnsAreDistinct | derive/src/record.rs:440-457 | All columns of an accepted record's stored form are pairwise distinct |
| RecordChecks.SealedFieldsDiffer | derive/src/record.rs:415-429 | Two sealed fields of an accepted record have different seal IDs |
| RecordImpl.OpenOfSealIsIdentity | derive/src/record.rs:809-922 | The emitted open of the emitted seal returns the record, absent optional fields included, for any reader with the writer's key |
| RecordImpl.ContextsDiffer | derive/src/record.rs:415-416 | Two sealed fields of one record, or of two records, never share a context |
| RecordBinding.FieldsAreSealed | derive/src/record.rs:832-880 | Each stored field is its own: a present secret is sealed under its seal ID, the record's ID and its own randomness, an absent one stores nothing |
| RecordBinding.MovedCiphertextFails | derive/src/record.rs:832-880 | A ciphertext put into another field or another record fails there with the error that the kinds of record ID decide, and the record does not open |
| RecordBinding.OpenReports | derive/src/record.rs:860-922 | Opening a record reports its first field that does not open or decode |
| RecordBinding.SealFieldReports | derive/src/record.rs:832-880 | Sealing a field reports the codec's error, then the sealing's, then the first index's |
| RecordSearch.StoredIndexIsProbed | derive/src/record.rs:809-922 | The index column that a record's sealing emits is among the probes of every query that normalizes like the field's value, for any reader whose ring holds the writer's index key |
| RecordSearch.StoredRecordIsFound | src/record.rs:169-216 | Opening the candidates yields the record itself, absent optional fields included, if its stored row is among them |
| RecordSearch.FoundRecordMatches | src/record.rs:169-216 | Every record found is what some row opens to, and its value normalizes to the query |
| Crypto.LawsHaveAModel | src/crypto.rs:34-75 | The laws assumed of the primitives can be met |
| Crypto.CheckingIsLawful | src/crypto.rs:34-75 | They can be met by primitives that refuse other authenticated data |
| Vectors.StandaloneVector | docs/wire-format.md:393-401 | The published context of a standalone value |
| Vectors.RecordVector | docs/wire-format.md:419-426 | The published context of the record 7 |
| Vectors.NegativeRecordVector | docs/wire-format.md:432-434 | The published context of the record -1 |
| Vectors.UuidRecordVector | docs/wire-format.md:436-438 | The published context of a UUID record |
| Vectors.HeaderVectors | docs/wire-format.md:393-438 | The headers of the published envelopes, byte for byte |
| Vectors.PaddedVector | docs/wire-format.md:404-410 | The published padded plaintext |
| Vectors.IndexVectors | docs/wire-format.md:576-588 | The published indexes parse to their precision; another version, a bit past the precision and a byte too many are reported as such |

## Left out

- Ciphers, HKDF, HMAC, SHA-256 and randomness: foreign code; the primitives are parameters with the laws of `Crypto.Primitives.Lawful`, and randomness is an argument of each sealing that may be an error. Failures that cannot occur for the fixed 32-byte outputs are not modelled.
- The context fingerprint's hash: it takes three values, which the source pins; the model has the table.
- Zeroization, `Secret`, redacted output and constant-time comparison: not functional properties.
- SQL stores, asynchronous calls, serde and base64 forms, UUID text: thin layers over code outside this model.
- `MaybeSealed::from_legacy_bytes`: bypasses classification; the planner and the permissive reader never use it.
- Custom codecs, normalizers and legacy handlers are total function parameters; `V` and the record columns are type parameters. Codecs are assumed to decode what they encode.
- Report counters are unbounded here and `u64` in the source.
- Allocation: a vector may reserve more than asked, and running out of memory is not modelled; the capacity panic is.
- PlaintextBuffer.Serialize: the serializer is any list of chunks; the wipe of outgrown allocations is not modelled.
- SweepDriver.Run: a sweep that other writers outpace with new rows forever would not end; the store's script of other writers is finite, of any length.
- Collisions: two different inputs could have equal outputs of HKDF, and truncated ones of HMAC often do; the results of `KeySeparation` name the calls that they need apart.
- Token spans, messages and generated text of the derives: only the field-list checks and the meaning of the emitted code are modelled. Field names are identifiers; the raw spelling `r#name` is not distinguished.
- Planner type-state and builder methods, key-source traits, examples, fuzz targets and benchmarks: no behaviour beyond what they call.
