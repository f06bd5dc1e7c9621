# RTsql in Dafny

RTsql is an embedded SQL engine written in Rust. This project models the parts
of it whose correctness is hardest to see from the code and proves what they
promise. There are four groups.

**Versions, scans and indexes.** Rows live in append-only pages as versions
that point to the version they replace. `VersionHeap` and `DataScan` model the
full table scan, which works out who supersedes whom and yields the current
version of each row, `SnapshotReads` what a snapshot sees of it by transaction
ids alone, and `PageSummaries` the shortcuts its readers share.
`IndexBuild`, `KeyEncoding`, `IndexTree` and `RangeScan` model index backfill,
order-preserving keys, the tree range walk and the index range scan, and prove
that it returns what the full scan returns.
`TombstoneOverlay` and `DeleteProtocol` model `DELETE`, which can be dropped
between any two of its writes, `Rollback` what undoes it, and `DeleteExecutor`
the code that does both.

**Ownership and staleness protocols.** `ImplicitTransactions` (guard, registry,
reclaim), `PreparedStatements` (version stamps) and `TransactionIds` (the id
allocator across checkpoints, crashes and restarts, over the log of `LogFile`)
are step systems; their results hold of every run.

**Operators and their memory budget.** `NestedLoopJoin`, `HashJoin`, `AntiJoin`,
`ScalarSubqueryFilter` and `Aggregation` are executors with cursors and caches.
Each has a ghost `Remaining()`, the rows and the error still to come, given by a
definition on lists; `next` is proved to peel it (`Streams.Peels`), so draining
an executor gives exactly the list definition; what that holds is then stated by
positions, without the functions that build it (`Selections`). `QueryBudget` is
the shared counter, also under concurrent use.

**Calendar.** `Calendar`, `DateArithmetic`, `DateIntervals` and `DateText` cover
civil dates, `datediff`, interval sums in 64-bit arithmetic, and date text.

`Options`, `Values`, `Rows` and `Streams` hold what the others share. Code that
updates state step by step is a class or a method with loops, proved against a
function on values; protocols with interleaving are datatypes of steps.

Check everything with `dafny verify dfyconfig.toml`.

## Where the code does not do what it promises

Each of these is stated as a lemma, with the exact condition under which the
promise holds.

- More than 64 rolled-back updates of one row make every full scan fail when it
  reaches the row (`DataScan.RollbacksCanBlockScan`, `DataScan.TooDeepExactly`);
  the index range scan still returns it (`RangeScan.RangeScanSurvivesRollbacks`,
  `RangeScan.RangeScanIsFullScan`).
- A delete dropped after it linked its tombstone and before it removed all index
  entries gets a second copy of each remaining entry when it is rolled back
  (`Rollback.IndexesReclaimed`, `Rollback.IndexesRestoredExactly`).
- Rolling back an update and a delete of the same row restores the row's index
  entries once or twice, depending on the iteration order of a hash set
  (`Rollback.UpdateThenDelete`, `Rollback.OrderIrrelevantExactly`).
- A delete by a transaction that began after a snapshot was taken hides the row
  from that snapshot (`SnapshotReads.LateDeleteHidesRow`,
  `SnapshotReads.SnapshotIsStableExactly`).
- A row that a transaction updated is there twice for its own snapshot reads, and
  for readers without a snapshot, until it commits
  (`SnapshotReads.OwnUpdateIsReadTwice`, `VersionHeap.OneCurrentPerRow`).
- A page summary is shared by all readers. A page marked visible for one reader
  shows an older one rows it must not see (`PageSummaries.OlderReaderIsMisled`,
  `PageSummaries.FlagHoldsExactly`); the first insertion on a page after a restart
  hides its older rows from readers that began before
  (`PageSummaries.OldRowIsSkipped`, `PageSummaries.InsertKeepsLeastExactly`).
- A statement dropped after its commit record is durable, and before it leaves
  the active set, can be rolled back by a later reclaim
  (`ImplicitTransactions.DurableCommitCanBeReclaimed`,
  `ImplicitTransactions.DurableRolledBackExactly`).
- A reclaim pass that is itself dropped forgets what it drained, and no later
  pass picks it up (`ImplicitTransactions.DroppedPassLosesTransaction`,
  `ImplicitTransactions.LostStaysActive`, `ImplicitTransactions.NoneLeftActive`).
- A schema change dropped before it bumps the version is not noticed by a
  prepared statement until some later change bumps it
  (`PreparedStatements.UnbumpedChangeGoesUnnoticed`, `PreparedStatements.UnnoticedChange`,
  `PreparedStatements.NextBumpCatchesUp`).
- The checkpoint site is truncated and rewritten in place; a crash in between
  can make a transaction id be handed out again (`TransactionIds.TornSiteReusesAnId`).
- Nothing keeps two checkpoints apart; one that another has overtaken puts its
  lower watermark back, and a transaction id is handed out again without any
  crash (`TransactionIds.OverlapReusesAnId`). For both, `TransactionIds.StepKeepsInvIff`
  and `TransactionIds.HarmfulRunReusesAnId` give the exact condition, and
  `TransactionIds.SeparateCheckpointsReuseNothing` says what is safe.
- The 64-bit budget counter can wrap and then grants more than the limit
  (`QueryBudget.WrapGrantsTooMuch`, `QueryBudget.DecisionIsExact`). That takes 2^64
  bytes granted or in progress at once (`QueryBudget.OvergrantNeedsAWord`), which
  rows held in memory do not add up to; with charges of bounded size the limit
  holds (`QueryBudget.WithinWordStaysWithinLimit`,
  `QueryBudget.BoundedChargesStayWithinLimit`).
- NOT IN misses values that are equal in SQL and different as keys
  (`AntiJoin.SqlEqualityNotIn`).
- Adding an interval of more than 3,387,336 months to a date or timestamp can
  wrap a 64-bit product and be accepted as a wrong date (`DateIntervals.WrongDate`,
  `DateIntervals.DateIntervalSum`, `DateIntervals.DateSumSafeMonths`,
  `DateIntervals.TsIntervalSum`, `DateIntervals.TsSumSafeMonths`).
- A forward month shift that shortens the day is not read back by `datediff`
  (`DateArithmetic.DateDiffUndoesAddMonths`).

## Model

| member | source | states |
|---|---|---|
| `VersionHeap.ChainIsLinear` | src/executor/data_scan.rs:234-306 | standing versions with the same first version lie on one line |
| `VersionHeap.OneCurrentPerRow` | src/executor/data_scan.rs:345-384 | a row has at most one current version for any reader, unless the later of two is not committed |
| `VersionHeap.SupersededMapOf` | src/executor/data_scan.rs:241-306 | the map holds every version that is pointed to, with its best pointer: latest creator, then latest position |
| `VersionHeap.StandingPointerWins` | src/executor/data_scan.rs:287-297 | a pointer that was not rolled back wins over every rolled-back one |
| `VersionHeap.WalkIsSuppression` | src/executor/data_scan.rs:312-343 | the bounded walk says hidden only if a newer version suppresses the slot and open only if none does; otherwise it gives up |
| `DataScan.BuildSupersededMap` | src/executor/data_scan.rs:241-306 | the page loop computes exactly that map |
| `DataScan.CurrentFromMembers` | src/executor/data_scan.rs:389-638 | the reference list holds exactly the living, visible versions nothing newer suppresses |
| `DataScan.CurrentFromSorted` | src/executor/data_scan.rs:389-638 | the reference list is in scan order and repeats nothing |
| `DataScan.ScanIsExpected` | src/executor/data_scan.rs:389-638 | for every snapshot and every trustworthy page summary the scan filters and projects the current versions in order, up to the first slot it reaches whose walk is too deep, where it fails |
| `DataScan.ScanEndIsFirst` | src/executor/data_scan.rs:312-343 | before that slot no walk on a page that is not skipped gives up |
| `DataScan.CurrentUntilMembers` | src/executor/data_scan.rs:389-638 | the reference list up to a slot holds exactly the current versions before it |
| `DataScan.ScanSelectsCurrent` | src/executor/data_scan.rs:389-638 | so a scan returns all current versions, or a prefix of them and the depth error; never a wrong row |
| `DataScan.FullAnswerIs` | src/executor/data_scan.rs:197-232 | what the full answer holds: the current rows the predicate keeps, all without one, in scan order, each with exactly the columns asked for, up to the first on which the predicate fails |
| `DataScan.CappedRows` | src/executor/data_scan.rs:220-232 | a cap lets at most that many rows through and changes nothing below it |
| `SnapshotReads.SnapshotIsStableExactly` | src/executor/data_scan.rs:345-384 | whatever others insert, update, delete, commit or roll back after a snapshot was taken, it sees the same versions if and only if no row it sees is deleted by a transaction that began later |
| `SnapshotReads.SnapshotAnswerIsStable` | src/transaction/snapshot.rs:62-86 | so if only transactions active at the snapshot delete, the full answer is the same before and after |
| `SnapshotReads.LateDeleteHidesRow` | src/executor/data_scan.rs:366-376 | a delete by a transaction that began after the snapshot hides the row; an update by it does not |
| `SnapshotReads.ReadsOwnWrites` | src/transaction/snapshot.rs:88-92 | a transaction sees what it wrote and has not replaced |
| `SnapshotReads.OwnDeleteHides` | src/executor/data_scan.rs:366-376 | a row a transaction deleted is gone for it |
| `SnapshotReads.OwnUpdateIsReadTwice` | src/executor/data_scan.rs:377-384 | a row a transaction updated is there twice for it until the commit |
| `DataScan.TooDeepExactly` | src/executor/data_scan.rs:312-343 | the scan gives up on a slot exactly when it has more than 64 superseders and none of the nearest 64 suppresses it |
| `DataScan.RollbacksCanBlockScan` | src/executor/data_scan.rs:312-343 | the result of any scan after n rolled-back updates of one row: the depth error and no row if n exceeds 64, else exactly the row |
| `DataScan.TruthfulSkips` | src/storage/page_visibility.rs:26-41 | a truthful page summary only skips pages that offer the reader nothing |
| `DataScan.CheckPageAllVisible` | src/storage/buffer_pool.rs:682-729 | true exactly when every slot is a committed, living version the snapshot sees |
| `DataScan.Scanner.SlotIsSuperseded` | src/executor/data_scan.rs:312-343 | the loop returns the verdict of the walk |
| `DataScan.Scanner.SummarisePage` | src/executor/data_scan.rs:560-638 | a page is marked visible only if every slot is visible to this snapshot; that never changes which pages this reader skips |
| `PageSummaries.TruthfulByPage` | src/storage/buffer_pool.rs:624-640 | the summaries are true for a reader exactly if each page's summary is |
| `PageSummaries.FlagHoldsExactly` | src/storage/buffer_pool.rs:630-640 | the mark, shared by all readers, is true for another one exactly if it sees every writer on the page |
| `PageSummaries.LaterReadersSeeWriters` | src/transaction/snapshot.rs:68-86 | which every reader does whose snapshot was taken later |
| `PageSummaries.OlderReaderIsMisled` | src/executor/data_scan.rs:441-530 | a statement that began before a commit reads its row from a page marked since |
| `PageSummaries.InsertKeepsLeastExactly` | src/storage/buffer_pool.rs:648-672 | an insertion keeps a page's least creator true exactly if one was named before or no living version on the page is older |
| `PageSummaries.OldRowIsSkipped` | src/storage/page_visibility.rs:26-41 | after the first insertion since a restart, a reader that began before it skips a committed row |
| `DataScan.Scanner.YieldCapped` | src/executor/data_scan.rs:220-232 | one passing row beyond the cap ends the scan |
| `DataScan.Scanner.Advance` | src/executor/data_scan.rs:389-638 | one round of the slot loop peels or keeps the remaining result and makes progress |
| `DataScan.Scanner.Next` | src/executor/data_scan.rs:389-638 | each call peels the scan result; it terminates |
| `Streams.DrainedIsOutcome` | src/executor/executor_trait.rs:11-14 | calling `next` until it stops gives exactly the rows and the error of the remaining result |
| `Selections.RowsOfExactly` | src/executor/executor_trait.rs:11-14 | draining an input gives the rows before its first error, in order, and that error |
| `KeyEncoding.StringCodeOrder` | src/executor/value.rs:468-493 | escaped string codes sort as the strings do, a string before its extensions |
| `KeyEncoding.KeyOrder` | src/executor/value.rs:332-351 | derived index keys sort exactly as the column tuples do, and equal keys come from equal tuples |
| `KeyEncoding.KeyExistsExactly` | src/executor/value.rs:332-351 | a row has a key exactly if its columns are integers and texts of the declared types that together fit into thirty-two bytes |
| `KeyEncoding.RangeIsConstraint` | src/executor/value.rs:357-433 | a row's key lies between the sentinels exactly when its columns meet the prefix constraint, for every encodable row and constraint |
| `KeyEncoding.EmptyRangeHasNoKey` | src/storage/btree/index_manager.rs:171-182 | a range recognised as empty admits no key |
| `KeyEncoding.EncodeString` | src/executor/value.rs:468-493 | the byte loop gives the code, giving up only when the code cannot fit |
| `KeyEncoding.DeriveRowKey` | src/executor/value.rs:332-351 | the column loop gives the derived key |
| `IndexTree.SkippedSubtree` | src/storage/btree/index_manager.rs:203-224 | a subtree that is skipped holds no entry in range |
| `IndexTree.ScanRange` | src/storage/btree/index_manager.rs:643-719 | the stack walk returns exactly the rows of the entries in range, in tree order |
| `IndexTree.ScanIsInKeyOrder` | src/storage/btree/index_manager.rs:643-719 | which is key order over a tree whose leaves are sorted |
| `IndexTree.OverlappingBranches` | src/storage/btree/index_manager.rs:656-719 | leaving out branches loses no entry in range |
| `IndexTree.LeafRows` | src/storage/btree/index_manager.rs:656-719 | a leaf contributes exactly its entries in range |
| `IndexBuild.TailsAreCurrent` | src/executor/create_index.rs:135-201 | on a quiescent, well-formed table the unpointed living slots are exactly what the full scan yields, in the same order |
| `IndexBuild.TailsOfVersions` | src/executor/index_range_scan.rs:107-170 | the candidate tails of the omitted-row pass are the same slots |
| `IndexBuild.CollectVersions` | src/executor/create_index.rs:129-185 | the page loop collects exactly the pointed-to versions and all slots |
| `IndexBuild.Backfill` | src/executor/create_index.rs:121-226 | one entry for each living tail whose row has a key |
| `RangeScan.RangeScanIsFullScan` | src/executor/index_range_scan.rs:96-216 | range scan and filtered full scan fail together and otherwise return the same rows, each as often, exactly if the full scan does not stop at a chain that is too deep |
| `RangeScan.RangeScanSurvivesRollbacks` | src/executor/index_range_scan.rs:107-188 | after more than 64 rolled-back updates of a row the range scan still returns it, where the full scan fails |
| `RangeScan.ConstraintRange` | src/executor/value.rs:357-433 | for a prefix constraint the hypothesis "key in range means predicate" holds of the real keys |
| `RangeScan.RangeScanner.TreeRows` | src/executor/index_range_scan.rs:193-207 | the rows behind the index entries in range |
| `RangeScan.RangeScanner.OmittedPass` | src/executor/index_range_scan.rs:107-188 | the living tails without a key that satisfy the predicate, or its error |
| `RangeScan.RangeScanner.Next` | src/executor/index_range_scan.rs:193-216 | each call peels tree rows followed by omitted rows |
| `TombstoneOverlay.CurrentUnderOverlay` | src/executor/delete.rs:163-225 | every reader, on any well-formed table, sees the old table, minus the rows that linked tombstones delete if the deleter counts as committed for it |
| `TombstoneOverlay.DoomedIsTarget` | src/executor/delete.rs:163-225 | a row that a reader sees is deleted only by a tombstone on that very version, if the reader takes deleted versions as their row's newest |
| `TombstoneOverlay.ScanUnderOverlay` | src/executor/delete.rs:163-225 | so does a whole scan, up to its first chain that is too deep: same rows, same order |
| `TombstoneOverlay.NoDeeper` | src/executor/data_scan.rs:312-343 | tombstones on versions the reader takes as newest make no walk too deep that was not |
| `TombstoneOverlay.DeeperByOne` | src/executor/data_scan.rs:312-343 | on any table and for any reader they lengthen a walk by one step at most |
| `TombstoneOverlay.TombstoneCanDeepen` | src/executor/data_scan.rs:312-343 | an uncommitted tombstone on an uncommitted version can make a walk too deep |
| `DeleteProtocol.WriteKeepsSafe` | src/executor/delete.rs:177-225 | every write of a delete only adds tombstones of the deleter, keeps linked ones registered, and deletes no other row |
| `DeleteProtocol.LinkedIsRegistered` | src/executor/delete.rs:177-225 | after every prefix of a statement, linked implies registered |
| `DeleteProtocol.UncommittedDeleteIsInvisible` | src/executor/delete.rs:177-225 | after every prefix of a single- or multi-row delete, and whoever else is writing, a scan by any reader that took the deleter as active (in its snapshot, or at scan start without one) and is not the deleter returns the pre-delete rows, or some of them and the depth error |
| `DeleteProtocol.ReclaimedDeleteIsInvisible` | src/transaction/manager.rs:323-530 | dropped after any prefix and rolled back: the same holds of the scan of every reader |
| `DeleteProtocol.RolledBackReads` | src/transaction/manager.rs:323-530 | whatever a transaction wrote, after its rollback every reader sees the table as if it had written nothing |
| `DeleteProtocol.CommittedDelete` | src/executor/delete.rs:139-265 | for every other reader exactly the deleted rows are gone, the others keep their order |
| `DeleteProtocol.CompleteDeleteUnindexes` | src/executor/delete.rs:228-242 | a complete delete takes one entry of the row out of every index with a key for it, and touches no other entry |
| `DeleteProtocol.RemainingMembers` | src/executor/delete.rs:139-265 | which are the deleted versions and no others where these were committed for the reader |
| `Rollback.RollBackNeutralises` | src/transaction/manager.rs:323-530 | whatever order versions come in, rollback neutralises exactly those of the transaction |
| `Rollback.IndexesReclaimed` | src/transaction/manager.rs:615-680 | a statement of any number of deletes dropped after any write and rolled back in any order of the registry: every index as it was, with one more copy of the last row's entry where it was linked and the entry not yet removed |
| `Rollback.IndexesRestoredExactly` | src/transaction/manager.rs:615-680 | so the indexes come back exactly if and only if the last delete was not linked yet or no index removal was outstanding |
| `Rollback.OrderIrrelevantExactly` | src/transaction/manager.rs:513-525 | every order of the registry gives the same indexes if and only if no version of the transaction with a predecessor of the transaction has entries to put back |
| `Rollback.RollBackOrderMatters` | src/transaction/manager.rs:513-525 | where one has, rolling it back before its predecessor puts its entries back once more than after it |
| `Rollback.UpdateThenDelete` | src/transaction/manager.rs:513-525 | an update followed by a delete of one row: its entry comes back once or twice |
| `Rollback.RollBackOrderIrrelevant` | src/transaction/manager.rs:513-525 | otherwise any two orders of any number of versions give the same indexes |
| `Rollback.OnlyForeignPredecessors` | src/transaction/manager.rs:615-680 | that is so wherever the transaction deleted only rows it did not write |
| `DeleteExecutor.Table.DeleteRow` | src/executor/delete.rs:139-265 | executed up to any write: the state after that many writes; no effect for a missing key; the missing-slot case |
| `DeleteExecutor.Table.RemoveEntries` | src/executor/delete.rs:228-242 | the first indexes lose the row's entry, the others are untouched |
| `DeleteExecutor.Table.RollBack` | src/transaction/manager.rs:323-530 | nothing without a registered version, else every version of the transaction in registry order |
| `ImplicitTransactions.RunKeepsInv` | src/database.rs:158-196 | over every run: an active implicit transaction is under a live guard, registered, in exactly one reclaim pass, or was lost with a dropped pass |
| `ImplicitTransactions.ReclaimSparesTheLiving` | src/database.rs:600-666 | reclaim aborts only transactions whose statement is gone and that have not committed |
| `ImplicitTransactions.Settled` | src/transaction/manager.rs:110-187 | what has committed or aborted stays so in every continuation |
| `ImplicitTransactions.EndsAsItWasEnded` | src/transaction/manager.rs:110-187 | over every run a transaction is committed at the end exactly if its statement finished the commit, and aborted exactly if its statement or a pass aborted it |
| `ImplicitTransactions.NoneLeftActive` | src/database.rs:600-666 | once guards, registry and passes are empty, no implicit transaction is active if and only if every dropped pass held nothing active |
| `ImplicitTransactions.LostStaysActive` | src/database.rs:601-604 | a transaction lost with a dropped pass stays active in every continuation |
| `ImplicitTransactions.DroppedPassLosesTransaction` | src/database.rs:601-604 | a run that drops a pass, and every continuation of it, leaves its transaction active |
| `ImplicitTransactions.DurableCommitCanBeReclaimed` | src/transaction/manager.rs:110-136 | a statement dropped after its commit record is durable and before it leaves the active set is rolled back in memory |
| `ImplicitTransactions.DurableLostOnlyByDrop` | src/transaction/manager.rs:110-136 | a durable commit is lost only if its statement is dropped before the commit finishes |
| `ImplicitTransactions.DurableRolledBackExactly` | src/transaction/manager.rs:110-136 | after any run a durable commit can be rolled back if and only if its statement was dropped before it finished, and no dropped pass has lost it |
| `ImplicitTransactions.Database.ReclaimAbandoned` | src/database.rs:600-625 | one pass alone: which transactions are aborted, which stay registered, and which error is reported |
| `ImplicitTransactions.Database.ExecuteDml` | src/pipeline.rs:549-669 | a write statement dropped after any call or failing in any of them, with the reclaim before it and the one in the checkpoint after it: its transaction never stays active unregistered, and commits exactly if the commit was reached and succeeded |
| `ImplicitTransactions.Database.EndWithAbort` | src/pipeline.rs:606-653 | only a successful abort disarms the guard |
| `ImplicitTransactions.Database.DropGuard` | src/database.rs:183-196 | an armed guard registers its transaction, a disarmed one does not |
| `PreparedStatements.PlanIsNotStale` | src/database.rs:958-1007 | in every interleaving the plan used reflects every applied schema change bumped before that execution's version check, and nothing else |
| `PreparedStatements.SeenIsWhatWasBumped` | src/database.rs:990-996 | the changes an execution must reflect are those bumped when it checked the version |
| `PreparedStatements.UnbumpedChangeGoesUnnoticed` | src/pipeline.rs:383-388 | in every run without a bump, every execution of a current prepared statement uses its kept plan, which lacks every change applied meanwhile |
| `PreparedStatements.UnnoticedChange` | src/pipeline.rs:383-388 | so the execution after a change that was applied and not bumped runs without it |
| `PreparedStatements.NextBumpCatchesUp` | src/database.rs:958-1007 | every execution that checks the version after the next bump, whosever it is, uses a plan with all that was applied by then |
| `TransactionIds.StepKeepsInvIff` | src/wal/checkpoint.rs:169-256 | with any number of checkpoints in progress, every step keeps all durable ids covered if and only if the files it leaves lead a restart past them, which only steps that replace a file can fail |
| `TransactionIds.FreshSiteIsHarmless` | src/wal/checkpoint.rs:108-132 | a checkpoint that no other has overtaken writes its site without harm |
| `TransactionIds.FreshCutIsHarmless` | src/wal/writer.rs:146-186 | and cuts the log without harm, also if it crashes on the way, unless another has put a lower watermark into the site |
| `TransactionIds.FreshCutIsReadable` | src/wal/writer.rs:146-186 | such a cut leaves a readable log |
| `LogFile.OverwrittenKeeps` | src/wal/writer.rs:146-186 | a crash while the log is rewritten in place, after any number of bytes, leaves a file that is refused or still has every record that was to be kept |
| `LogFile.InterruptedRewriteCanBeRead` | src/wal/writer.rs:146-186 | it can be readable: from the second checkpoint on the log begins with a mark |
| `TransactionIds.IdsAreNeverReused` | src/database.rs:414-436 | over every run of sessions, of checkpoints in any interleaving and given up anywhere, and of crashes and restarts, whose steps are harmless, a new id exceeds every id that ever had a durable record |
| `TransactionIds.SeparateCheckpointsReuseNothing` | src/wal/checkpoint.rs:169-256 | if checkpoints do not overlap, all steps are harmless but tears of the site file |
| `TransactionIds.OverlapReusesAnId` | src/wal/checkpoint.rs:169-256 | two overlapping checkpoints, without a crash in either, make an id be handed out twice |
| `TransactionIds.FirstTearIsHarmless` | src/wal/checkpoint.rs:108-132 | a tear of a site that holds no watermark yet is harmless |
| `TransactionIds.HarmfulStepReusesAnId` | src/wal/checkpoint.rs:108-132 | after a harmful step and a restart some number of allocations hands out an id that has a durable record |
| `TransactionIds.HarmfulRunReusesAnId` | src/database.rs:414-436 | and every run up to a harmful step can be continued that way |
| `TransactionIds.TornSiteReusesAnId` | src/wal/checkpoint.rs:108-132 | a run in which a crash tears the site file and an id is handed out twice |
| `TransactionIds.Allocator.Allocate` | src/transaction/tx_id.rs:14-16 | the next number |
| `TransactionIds.Allocator.AdvancePast` | src/transaction/tx_id.rs:28-41 | at least the given id, never lower than before, whoever else allocates |
| `QueryBudget.CounterIsExact` | src/executor/query_budget.rs:99-117 | in every interleaving of add, check, undo and release the counter is what is outstanding modulo the word; refused charges leave no trace |
| `QueryBudget.GrantsStayWithinLimit` | src/executor/query_budget.rs:99-117 | in every interleaving in which no charge fits the wrapped counter and not the limit, grants never exceed the limit |
| `QueryBudget.OvergrantNeedsAWord` | src/executor/query_budget.rs:99-108 | such a charge needs 2^64 bytes granted or in progress |
| `QueryBudget.WithinWordStaysWithinLimit` | src/executor/query_budget.rs:99-117 | so in every interleaving that stays below that, grants never exceed the limit and refused charges leave no trace |
| `QueryBudget.BoundedChargesStayWithinLimit` | src/executor/query_budget.rs:99-117 | as it does if the limit and the largest charges that can be in progress at once fit a word |
| `QueryBudget.DecisionIsExact` | src/executor/query_budget.rs:103-107 | in every reachable state a charge is decided as by an unbounded counter exactly when the counter has not wrapped to where it seems to fit |
| `QueryBudget.WrapGrantsTooMuch` | src/executor/query_budget.rs:99-108 | at every limit an interleaving with a charge of 2^64 - 1 bytes grants one byte more than the limit |
| `QueryBudget.InsertGrowsBy` | src/executor/query_budget.rs:50-75 | a bucket insertion grows the table by the row, and by the key if the bucket is new |
| `QueryBudget.MapSumSet` | src/executor/query_budget.rs:50-75 | sizes of maps do not depend on iteration order; setting an entry changes them by that entry |
| `QueryBudget.RowWeighs` | src/executor/query_budget.rs:20-50 | a row weighs sixteen bytes for each value, and its text |
| `QueryBudget.Budget.Charge` | src/executor/query_budget.rs:99-108 | granted exactly when it fits, refused without trace |
| `QueryBudget.Budget.Release` | src/executor/query_budget.rs:112-117 | the same bytes back |
| `QueryBudget.Budget.ChargeBucketInsert` | src/executor/query_budget.rs:50-75 | inserted and charged its exact growth, or nothing changed |
| `Aggregation.FoldMeans` | src/executor/aggregate.rs:118-238 | each accumulator, fed value by value, means its function on the whole list: counts, sums, least and greatest, distinct values, texts in order |
| `Aggregation.SumIsLastSum` | src/executor/aggregate.rs:160-233 | SUM and AVG, with or without DISTINCT, hold the last running sum of the values they add up: the first, then each next one added |
| `Aggregation.IntegerSum` | src/executor/value.rs:276-284 | over integers, where no partial sum overflows, that is the sum |
| `Aggregation.NonNullAre` | src/executor/aggregate.rs:118-238 | the values counted are those other than NULL, in order |
| `Aggregation.DistinctAre` | src/executor/aggregate.rs:211-233 | the distinct values are each value at its first arrival, in that order |
| `Aggregation.DistinctIsSet` | src/executor/aggregate.rs:211-233 | distinct values: the same values, none twice |
| `Aggregation.GroupsPartitionRows` | src/executor/aggregate.rs:401-452 | the groups partition the rows by key; each group has the accumulators of its own rows in input order |
| `Aggregation.WithKeyAre` | src/executor/aggregate.rs:401-452 | the rows of a group are those with its key, in input order |
| `Aggregation.GroupMeans` | src/executor/aggregate.rs:401-452 | so each group's accumulator means its function on the group's own rows |
| `Aggregation.StateChangeWeighs` | src/executor/aggregate.rs:299-316 | updating one accumulator changes the resident size by that accumulator's change |
| `Aggregation.StateWeighs` | src/executor/aggregate.rs:299-316 | an accumulator weighs sixteen bytes for each value and text it holds, and their text |
| `Aggregation.Aggregator.UpdateState` | src/executor/aggregate.rs:461-479 | the charge follows the accumulator's growth, up and down |
| `Aggregation.Aggregator.OpenGroup` | src/executor/aggregate.rs:430-439 | a new group is charged exactly its key |
| `Aggregation.Aggregator.ConsumeInput` | src/executor/aggregate.rs:401-456 | on success the groups of all rows, charged exactly key bytes plus growth over the initial state; out of memory only if that would exceed the limit |
| `NestedLoopJoin.JoinIsExact` | src/executor/nested_loop_join.rs:148-228 | each left row gives its matches in right order or (LEFT, FULL) one padded row; FULL then appends each unmatched right row once in right order |
| `NestedLoopJoin.JoinOrigins` | src/executor/nested_loop_join.rs:85-228 | row by row and column by column: the rows come from exactly the matching pairs and, for the outer joins, the rows that match nothing, each once, by left and then right position, leftover right rows last; every column is the one named of the side named, NULL where that row is missing |
| `NestedLoopJoin.JoinError` | src/executor/nested_loop_join.rs:148-228 | a join ends with the right input's error, else with a failed predicate on any pair of rows read, else as the left input does |
| `NestedLoopJoin.JoinCount` | src/executor/nested_loop_join.rs:148-228 | the row count: sum of max(1, matches) (or matches for INNER) plus unmatched rights |
| `NestedLoopJoin.Executor.ReadRight` | src/executor/nested_loop_join.rs:149-159 | the right input is read to its end and charged row by row |
| `NestedLoopJoin.Executor.Materialize` | src/executor/nested_loop_join.rs:149-163 | reading the right input once leaves the join to be produced unchanged |
| `NestedLoopJoin.Executor.NextUnmatchedRight` | src/executor/nested_loop_join.rs:129-143 | each call peels the right rows without a partner |
| `NestedLoopJoin.Executor.Probe` | src/executor/nested_loop_join.rs:184-212 | the cursor over the right rows peels the current left row's matches |
| `NestedLoopJoin.Executor.FinishLeft` | src/executor/nested_loop_join.rs:214-225 | an unmatched left row comes out once, then the next one is due |
| `NestedLoopJoin.Executor.Next` | src/executor/nested_loop_join.rs:148-228 | each call peels the join; it terminates |
| `HashJoin.SameHashKey` | src/executor/join.rs:96-149 | hash keys are equal exactly when all condition columns are non-NULL and equal up to the sign of zero |
| `HashJoin.BucketIsMatching` | src/executor/join.rs:177-192 | a left row's bucket holds exactly its nested-loop matches, in right order |
| `HashJoin.HashJoinIsNestedLoop` | src/executor/join.rs:94-244 | the hash join is the INNER nested loop on that predicate: same rows, same order, same error |
| `HashJoin.HashJoinOrigins` | src/executor/join.rs:94-244 | row by row and column by column: exactly the pairs whose condition columns agree, by left and then right position, every column the one named of the side named |
| `HashJoin.KeyEqualityIsSqlEquality` | src/executor/value.rs:154-177 | key equality is the engine's equality except that an integer never joins a float |
| `Values.SqlEqualsMeans` | src/executor/value.rs:154-177 | the engine's equality: numbers by value, whatever their type and the sign of zero; all else only to itself |
| `HashJoin.Executor.ReadRight` | src/executor/join.rs:177-193 | the build phase fills the buckets and charges exactly their size |
| `HashJoin.Executor.Probe` | src/executor/join.rs:210-239 | the bucket cursor peels the current left row's output |
| `HashJoin.Executor.Next` | src/executor/join.rs:168-244 | each call peels the nested loop's result; it terminates |
| `AntiJoin.EmitsExactly` | src/executor/anti_join.rs:359-403 | with conditions, a row is emitted exactly when three-valued NOT IN is TRUE and, unless the right side is empty, no key column is NULL |
| `AntiJoin.SingleColumnNotIn` | src/executor/anti_join.rs:126-170 | with one condition that is exactly three-valued NOT IN |
| `AntiJoin.TwoColumnsOverReject` | src/executor/anti_join.rs:374-403 | with two conditions, which no plan has, the executor would leave out a row that NOT IN accepts |
| `AntiJoin.SqlEqualityNotIn` | src/executor/anti_join.rs:126-170 | by the engine's own equality the answer is wrong exactly when no NULL is involved, the value is not on the right side, and one that is equal in SQL but a different key is |
| `AntiJoin.NotExistsIsExact` | src/executor/anti_join.rs:359-368 | NOT EXISTS: exactly the left rows whose right side, for the values of its parameters in the row, is empty; in left order and with the columns asked for |
| `AntiJoin.AntiJoinAnswers` | src/executor/anti_join.rs:207-420 | the whole anti-join: the left rows accepted, in order and projected, up to the first whose right side fails |
| `AntiJoin.Executor.BuildTable` | src/executor/anti_join.rs:276-299 | the table of the right rows, with a recorded size equal to its bytes |
| `AntiJoin.Executor.ReadRight` | src/executor/anti_join.rs:216-244 | an independent right side is read once |
| `AntiJoin.Executor.Store` | src/executor/anti_join.rs:345-352 | only a complete, successful result is stored, and charged its exact size |
| `AntiJoin.Executor.Rebuild` | src/executor/anti_join.rs:262-355 | the right rows for a left row are those of a fresh evaluation; the old table is released, the recorded residency is the size of the new one, failures are not cached |
| `AntiJoin.Executor.Next` | src/executor/anti_join.rs:207-420 | cached and uncached execution give the same rows and fail at the same row, unless memory runs out |
| `ScalarSubqueryFilter.Executor.EvalSubquery` | src/executor/scalar_subquery_filter.rs:130-162 | no row is NULL, a second row is an error, whatever follows it |
| `ScalarSubqueryFilter.ScalarIs` | src/executor/scalar_subquery_filter.rs:130-193 | a subquery has a value for a row exactly if, for the values of its parameters in the row, it hands over no error and at most one row: its first column, or NULL without one |
| `ScalarSubqueryFilter.FilterAnswers` | src/executor/scalar_subquery_filter.rs:198-240 | the filter yields exactly the rows of whose subquery values the predicate holds, in order and with the columns asked for, up to the first row without a verdict |
| `ScalarSubqueryFilter.Executor.EvalBinding` | src/executor/scalar_subquery_filter.rs:167-193 | the cached value is that of a fresh evaluation; failures are not cached |
| `ScalarSubqueryFilter.Executor.Inject` | src/executor/scalar_subquery_filter.rs:203-218 | every parameter is overwritten for every row, or the first error is reported |
| `ScalarSubqueryFilter.Executor.Next` | src/executor/scalar_subquery_filter.rs:198-240 | cached and uncached execution give the same rows and fail at the same row, unless memory runs out |
| `Calendar.CivilOfDays` | src/executor/datetime.rs:50-73 | reading back the day count of a valid date gives the date |
| `Calendar.DaysOfCivil` | src/executor/datetime.rs:50-73 | every integer converts to a valid date whose day count it is |
| `Calendar.DaysCountCalendarSteps` | src/executor/datetime.rs:50-92 | the count advances by one along the calendar's own successor |
| `Calendar.DaysOrderIff` | src/executor/datetime.rs:50-59 | the count decides the order of valid dates, both ways |
| `Calendar.UnixEpoch` | src/executor/datetime.rs:15-15 | the epoch and the ends of the supported range |
| `DateArithmetic.FieldsOfTs` | src/executor/datetime.rs:209-218 | the fields of any timestamp are valid and spell it |
| `DateArithmetic.TsOfFields` | src/executor/datetime.rs:209-218 | valid fields are recovered from the microseconds they spell |
| `DateArithmetic.FieldOrderIsMicrosOrder` | src/executor/datetime.rs:209-218 | field order is microsecond order |
| `DateArithmetic.DateDiffAntisymmetric` | src/executor/datetime.rs:334-378 | swapping operands negates every difference; mixed types are an error |
| `DateArithmetic.MonthsAreWholeMonths` | src/executor/datetime.rs:334-378 | the month difference is the only n for which n whole months fit and n + 1 do not |
| `DateArithmetic.WholeYears` | src/executor/datetime.rs:334-378 | years are the truncated twelfth of the months |
| `DateArithmetic.WholeUnits` | src/executor/datetime.rs:334-378 | fixed units count whole units |
| `DateArithmetic.AddMonthsExact` | src/executor/datetime.rs:442-448 | valid, exactly that many months away, day kept or the month's last |
| `DateArithmetic.AddMonthsUnique` | src/executor/datetime.rs:442-448 | no other date fits that description |
| `DateArithmetic.AddMonthsMonotone` | src/executor/datetime.rs:442-448 | shifting never reorders dates |
| `DateArithmetic.AddMonthsAdditive` | src/executor/datetime.rs:442-448 | two shifts add up exactly when the month in between has the day or is at least as long as the last one, and a shift is undone exactly when it kept the day; up to day 28 always |
| `DateArithmetic.DateDiffUndoesAddMonths` | src/executor/datetime.rs:334-378 | `datediff` reads back a month shift exactly unless it went forward and shortened the day |
| `DateIntervals.DateIntervalSum` | src/executor/datetime.rs:456-468 | date plus interval in 64-bit arithmetic: months, then whole days rounded down, in 0001..9999 or an error, if and only if the wrapped sum did not land in the range from outside it |
| `DateIntervals.DateSumSafeMonths` | src/executor/datetime.rs:456-468 | for a month count the sum is right for all supported dates and all microseconds if and only if it is at most 3,387,336 months either way |
| `DateIntervals.WrongDate` | src/executor/datetime.rs:456-468 | 2024-01-01 plus 7,008,000 months is accepted as a day of the year 1469 |
| `DateIntervals.TsMonthShift` | src/executor/datetime.rs:472-490 | a month shift keeps the time of day |
| `DateIntervals.TsIntervalSum` | src/executor/datetime.rs:472-490 | the same for timestamps: exactly the sums in 0001..9999 are accepted, if and only if the wrapped sum did not land there |
| `DateIntervals.TsSumSafeMonths` | src/executor/datetime.rs:472-490 | with the same bound on the months |
| `DateIntervals.EarlierStepsFit` | src/executor/datetime.rs:442-468 | the steps before the last product fit 64 bits for every 32-bit month count |
| `DateIntervals.NoOverflow` | src/executor/datetime.rs:442-490 | no 64-bit intermediate overflows for bases in 0001..9999, 2,400,000 months and 10^18 microseconds |
| `DateArithmetic.SerialRangeIsYearRange` | src/executor/datetime.rs:450-468 | the accepted day serials are exactly years 0001..9999 |
| `DateArithmetic.SupportedIsYearRange` | src/executor/datetime.rs:209-218 | a timestamp is supported exactly when its year field is in 0001..9999 |
| `DateText.DateRoundTrip` | src/executor/datetime.rs:96-124 | every date survives print and parse |
| `DateText.ParseDateExact` | src/executor/datetime.rs:96-112 | an accepted text is the print of its date |
| `DateText.TimestampRoundTrip` | src/executor/datetime.rs:128-198 | every timestamp survives print and parse |
| `DateText.ParseTimestampStable` | src/executor/datetime.rs:128-198 | an accepted text, either separator and any fraction, re-parses to the same value after printing |
| `DateText.TrailingZero` | src/executor/datetime.rs:149-169 | a zero at the end of a fraction of up to five digits changes nothing, whether the text is accepted or not |
| `DateText.ZeroFraction` | src/executor/datetime.rs:149-169 | nor does a zero fraction |
| `DateText.DateIsMidnight` | src/executor/datetime.rs:128-145 | a date alone denotes its midnight |
| `DateText.EitherSeparator` | src/executor/datetime.rs:128-145 | a space and a T denote the same |
| `DateText.DateTextOrder` | src/executor/datetime.rs:114-124 | dates sort as their texts do |
| `DateText.TimestampTextOrder` | src/executor/datetime.rs:172-198 | timestamps sort as their texts do |
| `DateText.Digits` | src/executor/datetime.rs:493-512 | the digit loop reads a number or gives up at the first non-digit |
| `DateText.ScaleFraction` | src/executor/datetime.rs:149-169 | the fraction loops give microseconds |

## Left out

- The parser, planner, CLI, wire formats, encryption, buffer pool eviction, page layout and overflow rows: pages are sequences of slots, the index tree is given, and its insertion and splitting are not modelled.
- Corrupted pages, narrowing of columns and prefetching: error paths and performance paths of the scans that do not affect which rows are returned.
- Concurrent writers during one scan: a scan sees one heap; page ids are positions in the page chain.
- Index backfill and the range scan assume that every version that is not a tombstone is committed or rolled back (`VersionHeap.Settled`); the results about scans and deletes do not.
- The range scan under a snapshot, and keys of the older generation 0.
- NaN, infinities and the rounding of integers beyond 2^53 to floats: a float is a signed zero or a real number.
- Two float zeros of different sign hash differently and compare equal; as members of hash sets and hash maps the model treats them as different, which is what happens unless their hashes collide.
- The update executor, and rollback of inserted and updated versions that still hold index entries: rollback is modelled for versions without index entries.
- DeleteExecutor.Table.DeleteRow: the primary-key search and the log record of the delete are not modelled; the search result is a parameter.
- Cancellation inside the index tree's own writes: each index removal takes effect as a whole or not at all.
- Redo of log records: only the ids in the log are modelled. Bytes reach a file that is rewritten in place in order, part of a frame is always refused, and an I/O error in the middle of rewriting the log with the session going on is not modelled.
- TransactionIds.IdsAreNeverReused: holds of runs whose steps are harmless; TransactionIds.HarmfulRunReusesAnId shows that every harmful one breaks it.
- Memory charged by a subquery's own executors: a subquery is a function of its parameter values.
- QueryBudget.Budget.Charge: counts in unbounded numbers; wrap-around is covered by the concurrent model.
- Sizes in bytes are unbounded numbers, not 64-bit words, outside the concurrent budget model; so are row counts, transaction ids and the schema version.
- Final values of the aggregates (division of AVG, joining of GROUP_CONCAT) and the order of output groups: floating point and hash order.
- Value arithmetic, order and text in aggregates are parameters; MIN and MAX assume that the values of one group can be ranked.
- Output and condition columns beyond the end of a row: plans never name them, so the model reads NULL where the source would panic.
- Date truncation, extraction of single fields and interval literals would only add easy members.
