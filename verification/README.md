# MiniDB in Dafny

A model of the hard parts of this repository, with proofs: the storage, query, transaction and recovery
code of `Capstone-MiniDB`, and the data structures of the lab programs `LAB-5` (red-black tree), `LAB-6`
(B-tree) and `LAB-7` (shunting-yard evaluator). Code that changes things in place is modelled by classes
and loops proved against specification functions; the theorems are about those functions and about whole
runs.

| part | modules |
|---|---|
| Concurrency engine: MVCC, strict two-phase locking, deadlock detection | `WaitGraph`, `TxnEngine`, `TxnSystem`, `TxnData`, `TxnTheorems`, `TxnOutcomes` |
| Session, rollback and crash recovery | `RowCodec`, `RecoveryLog`, `RecoveryProof`, `RecoveryOutcome`, `Session`, `DeleteStatement` |
| Balanced trees | `RedBlackSpec`, `RedBlack`; `BPlusNodes`, `BPlusTree`, `BPlusChain`; `BTreeSpec`, `BTree` |
| Infix to postfix translation and its evaluator | `ShuntingYard`, `InfixGrammar` |
| WHERE parser, plans and pull operators | `WhereParser`, `QueryPlans`, `JoinPlans`, `QueryMeaning`, `Operators`, `SelectQueries` |
| Pages, buffer pool, heap file, log file | `SlottedPage`, `BufferPool`, `HeapFile`, `LogCodec` |

How the parts are modelled:

- **Concurrency.** Every call under the mutex is one action. A thread that blocks in the condition variable
  leaves its request behind and takes another turn of the wait loop at an arbitrary later time, so every
  interleaving and every spurious wake-up is a run. `TxnSystem` records beside the engine what each
  transaction read and wrote and what was committed. The client keeps to the rules the benchmark follows:
  one thread per transaction, no handle used after it ended, `setInitial` once per key before any
  transaction, abort after a `DeadlockAbort`. `TxnOutcomes` says for each call who goes on and who waits, by
  what the transactions have read and written and not by locks.
- **Recovery.** Tables are maps from keys to encoded rows. After a crash each key holds, independently of
  the others, any state it was in since the log was last reset. Three claims one would expect are false of
  the code, and the model says exactly when they hold. Recovery undoes the operations of every transaction
  without a COMMIT record, rolled-back ones included, so it can lose a committed row
  (`RolledBackInsertLosesRow`). An insert is logged before the heap can refuse it as too large; when its
  transaction commits all the same, redo throws on every later start (`CommittedRefusalLocksOut`). And a row
  of 2^16 bytes or more may be stored cut, because its length is passed on in 16 bits; the scan that rebuilds
  the indexes does not get past such a tuple (`CutInsertLocksOut`, `RowCodec.DecodesIffWhole`). `RefusedIff`
  and `SafeLogsIff` say when opening fails, and `RecoveryExactIff` says for all logs when the committed rows
  are shown again. A row of which nothing is kept has an index entry until the next start and is never shown.
- **Trees.** The pointer structures carry ghost intervals, levels or black heights, and each operation is
  proved to keep local invariants from which the global ones follow. `isValid` of the red-black tree uses
  the int limits as strict bounds; it rejects a correct tree that holds one of the two limits
  (`ExtremeKeyRejected`), and `CheckOfRedBlack` says that it rejects no other.
- **Storage.** The buffer pool stands for the sequence of page contents; frames, table, clock hand and data
  file are proved to keep standing for it. A page is bytes, decoded by the same 16-bit fields.
- **Queries.** Every operator has a list meaning; `Open` and `Next` are proved to yield it row by row.
  `QueryMeaning` says what conditions, joins and projections mean without any function of the executor.
  Cost estimates are floating point, so the outcome of the cost comparison is arbitrary.

`dafny verify dfyconfig.toml` checks the whole project.

## Model

| member | source | states |
|---|---|---|
| TxnTheorems.TwoPLSerializable | Capstone-MiniDB/src/txn/transaction_manager.cpp:65-156 | In two-phase-locking mode, after any run: replaying the committed transactions one whole transaction after another on a plain map returns every value they read, and ends in the values the engine holds. |
| TxnTheorems.SnapshotReads | Capstone-MiniDB/src/txn/transaction_manager.cpp:10-29 | In MVCC mode, after any run: each read of a key the transaction has not written returned that key in the database after exactly the first `snapshot` commits, for live and for committed transactions. |
| TxnTheorems.SnapshotsAreStable | Capstone-MiniDB/src/txn/transaction_manager.cpp:148-153 | No call changes the database after an earlier number of commits, so repeated reads of one snapshot agree. |
| TxnTheorems.ConflictExactly | Capstone-MiniDB/src/txn/transaction_manager.cpp:127-146 | A commit is refused if and only if the mode is MVCC and a commit after the snapshot wrote a key of the write buffer; under two-phase locking it never is. |
| TxnTheorems.WritersDoNotOverlap | Capstone-MiniDB/src/txn/transaction_manager.cpp:127-146 | First committer wins: of two committed writers of a key the later one took its snapshot after the earlier one committed. |
| TxnTheorems.NoLostUpdates | Capstone-MiniDB/src/txn/transaction_manager.cpp:127-156 | If every committed writer of a key writes what it read plus a delta, the final value is the initial one plus the sum of the deltas, in both modes. |
| TxnTheorems.NoDeadlock | Capstone-MiniDB/src/txn/transaction_manager.cpp:65-92 | In every reachable state the waits-for graph is acyclic, and from every sleeping transaction its edges lead to a live one that is not asleep. |
| TxnTheorems.VictimIsOnRealCycle | Capstone-MiniDB/src/txn/transaction_manager.cpp:70-81 | No false victims: DeadlockAbort is raised only for a transaction on a cycle of live transactions, each really blocked by a lock the next one holds. |
| TxnOutcomes.ReadsWaitForWritersOnly | Capstone-MiniDB/src/txn/transaction_manager.cpp:31-107 | Said by recorded operations alone: a read goes on at once, and is recorded, if and only if no other live transaction wrote the key; under MVCC it always does. Otherwise the transaction sleeps or is told to abort, and nothing else changes. |
| TxnOutcomes.WritesWaitForUsersOnly | Capstone-MiniDB/src/txn/transaction_manager.cpp:31-116 | A write goes on at once if and only if no other live transaction wrote the key or, under two-phase locking, read it. |
| TxnOutcomes.WokenOnTheSameTerms | Capstone-MiniDB/src/txn/transaction_manager.cpp:71-116 | A woken transaction gets what it waits for on the same terms. |
| TxnOutcomes.VictimsAreDeadlocked | Capstone-MiniDB/src/txn/transaction_manager.cpp:70-81 | Only a transaction on a cycle of live transactions, each waiting for a key the next one wrote or, if it wants to write it, read, is told to abort; so no two readers ever deadlock. |
| TxnOutcomes.DeadlocksAreCounted | Capstone-MiniDB/src/txn/transaction_manager.cpp:70-81 | The counter of deadlocks goes up exactly when a transaction is told to abort. |
| TxnOutcomes.BeginsAfterAllCommits | Capstone-MiniDB/src/txn/transaction_manager.cpp:10-16 | A new transaction has an id of its own, no operations, and for its snapshot all commits so far. |
| TxnOutcomes.CommitsOrConflicts | Capstone-MiniDB/src/txn/transaction_manager.cpp:127-156 | A commit is published as recorded, unless the mode is MVCC and it would overwrite a commit it did not see; the others only notice that they may try again. |
| TxnOutcomes.AbortPublishesNothing | Capstone-MiniDB/src/txn/transaction_manager.cpp:158-163 | An abort publishes nothing and wakes the others. |
| TxnOutcomes.StepIsFrugal | Capstone-MiniDB/src/txn/transaction_manager.cpp:82-125 | Nobody holds a lock that its operations do not call for: exclusive ones for writes, shared ones for reads under two-phase locking only. |
| TxnTheorems.StepKeepsInv | Capstone-MiniDB/src/txn/transaction_manager.cpp:10-163 | Every call, with every outcome, keeps the invariant on lock tables, wait edges, versions, write buffers and commits. |
| TxnTheorems.RunKeepsInv | Capstone-MiniDB/src/txn/transaction_manager.cpp:10-163 | The invariant holds after every run of calls, interleaved with arbitrary wake-ups. |
| TxnTheorems.InitialInv | Capstone-MiniDB/src/txn/transaction_manager.cpp:6-8 | It holds of a fresh engine whose keys were given initial values. |
| TxnTheorems.SerialReplay | Capstone-MiniDB/src/txn/transaction_manager.cpp:148-153 | The first n commits, replayed serially, lead to the database after n commits. |
| TxnTheorems.LatestIsCurrent | Capstone-MiniDB/src/txn/transaction_manager.cpp:102-107 | A locked read of a key outside the write buffer returns the value of the database after all commits so far. |
| TxnTheorems.DeltasAddUp | Capstone-MiniDB/src/txn/transaction_manager.cpp:148-153 | The sum of deltas, commit by commit. |
| TxnData.ConflictIff | Capstone-MiniDB/src/txn/transaction_manager.cpp:135-146 | Validation by the newest timestamp of each key fails exactly when some later commit wrote a buffered key. |
| TxnData.PublishKeepsHistory | Capstone-MiniDB/src/txn/transaction_manager.cpp:148-153 | Appending the buffered values with the new timestamp keeps every version list in timestamp order and in step with the databases after 0, 1, 2, ... commits. |
| TxnData.PublishKeepsData | Capstone-MiniDB/src/txn/transaction_manager.cpp:127-156 | A commit keeps every other transaction valid: what it has read is still the state it reads from. |
| TxnData.CommitMissesReaders | Capstone-MiniDB/src/txn/transaction_manager.cpp:94-116 | Under two-phase locking a commit writes nothing that another live transaction has read. |
| TxnSystem.GrantKeepsLocks | Capstone-MiniDB/src/txn/transaction_manager.cpp:82-91 | Granting a lock, upgrades included, keeps the four lock tables consistent and exclusive locks exclusive. |
| TxnSystem.BlockKeepsWaits | Capstone-MiniDB/src/txn/transaction_manager.cpp:71-79 | Recording a blocked request that closes no cycle keeps the waits-for graph acyclic and every edge justified by a conflicting lock. |
| TxnSystem.ReleaseKeepsLocks | Capstone-MiniDB/src/txn/transaction_manager.cpp:118-125 | Releasing drops exactly the locks of the transaction from both tables. |
| TxnSystem.ReleaseKeepsWaits | Capstone-MiniDB/src/txn/transaction_manager.cpp:118-125 | Waiters whose blocker is gone are woken; for all others every edge still leads to a live lock holder. |
| TxnEngine.TransactionManager.HasCycle | Capstone-MiniDB/src/txn/transaction_manager.cpp:46-63 | The worklist search terminates and answers true exactly when a path of waits leads from the transaction back to itself. |
| TxnEngine.TransactionManager.CanGrant | Capstone-MiniDB/src/txn/transaction_manager.cpp:31-44 | The blockers are the other holders of a conflicting lock; the request can be granted iff there are none. |
| TxnEngine.TransactionManager.VisibleValue | Capstone-MiniDB/src/txn/transaction_manager.cpp:18-29 | The loop finds the newest version not after the snapshot, 0 if there is none. |
| TxnEngine.TransactionManager.TurnOfWaitLoop | Capstone-MiniDB/src/txn/transaction_manager.cpp:70-91 | One turn of the wait loop is the specified step: grant, block with recorded edges, or deadlock. |
| TxnEngine.TransactionManager.AcquireLock | Capstone-MiniDB/src/txn/transaction_manager.cpp:65-92 | A call to acquire, with its early return for locks already held, is the specified step. |
| TxnEngine.TransactionManager.ReadKey | Capstone-MiniDB/src/txn/transaction_manager.cpp:94-110 | Read-your-own-writes, then a locked or a snapshot read. |
| TxnEngine.TransactionManager.ResumeReadKey | Capstone-MiniDB/src/txn/transaction_manager.cpp:71-107 | A reader woken from the condition variable takes another turn and then reads. |
| TxnEngine.TransactionManager.WriteKey | Capstone-MiniDB/src/txn/transaction_manager.cpp:112-116 | Exclusive lock in both modes, then the value goes to the write buffer. |
| TxnEngine.TransactionManager.ResumeWriteKey | Capstone-MiniDB/src/txn/transaction_manager.cpp:71-116 | A woken writer takes another turn and then writes. |
| TxnEngine.TransactionManager.ReleaseAll | Capstone-MiniDB/src/txn/transaction_manager.cpp:118-125 | Both loops over the held keys, then the entries of the transaction are dropped. |
| TxnEngine.TransactionManager.FindConflict | Capstone-MiniDB/src/txn/transaction_manager.cpp:135-141 | The validation loop finds a conflict iff there is one. |
| TxnEngine.TransactionManager.InstallVersions | Capstone-MiniDB/src/txn/transaction_manager.cpp:148-151 | The loop appends one version per buffered key. |
| TxnEngine.TransactionManager.CommitTxn | Capstone-MiniDB/src/txn/transaction_manager.cpp:127-156 | Validation, publication and release as one atomic step. |
| TxnEngine.TransactionManager.AbortTxn | Capstone-MiniDB/src/txn/transaction_manager.cpp:158-163 | The write buffer is dropped and the locks are released. |
| TxnEngine.TransactionManager.Begin | Capstone-MiniDB/src/txn/transaction_manager.cpp:10-16 | A new id, and the current clock as snapshot. |
| TxnSystem.Seed | Capstone-MiniDB/src/txn/transaction_manager.cpp:6-8 | The constructor and one call of setInitial per key lead to the state from which all runs start. |
| WaitGraph.ReplaceEdgesAcyclic | Capstone-MiniDB/src/txn/transaction_manager.cpp:72-77 | Replacing the edges of one node keeps a graph acyclic unless that node lies on a cycle, so checking from the requester is enough. |
| WaitGraph.ClosedSetNoCycle | Capstone-MiniDB/src/txn/transaction_manager.cpp:53-62 | When the search has closed its visited set without meeting the start, there is no cycle through it. |
| WaitGraph.ChainEnds | Capstone-MiniDB/src/txn/transaction_manager.cpp:70-79 | In an acyclic graph every chain of blocked transactions ends at one that is not blocked. |
| RecoveryOutcome.RefusedIff | Capstone-MiniDB/src/catalog/database.cpp:15-31 | Opening the database fails if and only if the disk holds a tuple that was stored cut, or the log holds a committed insert of an image that the heap refuses, at a key that the disk lacks or that an earlier committed operation changed. |
| RecoveryOutcome.SafeLogsIff | Capstone-MiniDB/src/catalog/database.cpp:28-31 | A database can be opened from every disk that a crash can leave if and only if no transaction with a refused insert committed, no insert of the log was stored cut, and no row was cut before. |
| RecoveryOutcome.CommittedRefusalLocksOut | Capstone-MiniDB/src/catalog/database.cpp:90-91 | An insert is logged before the heap is asked. The claim that a database can always be opened again is false: begin, a refused insert and commit are enough. |
| RecoveryOutcome.CutInsertLocksOut | Capstone-MiniDB/src/catalog/database.cpp:28-31 | And so is one committed row of 2^16 bytes or more: with its cut tuple on disk opening fails; without it opening succeeds one last time, stores the tuple, and then fails from every disk. |
| RecoveryOutcome.OpenWithoutLog | Capstone-MiniDB/src/catalog/database.cpp:15-16 | With an empty log opening shows the rows of the start, or fails if one of them is cut. |
| RecoveryOutcome.CutTuplesHaveCauses | Capstone-MiniDB/src/catalog/database.cpp:28-31 | A cut tuple on disk was written by a logged insert of 2^16 bytes or more, or was there at the start. |
| RecoveryOutcome.RefusalIsPermanent | Capstone-MiniDB/src/catalog/database.cpp:15-158 | Once opening failed, every later attempt does, whatever the failed ones wrote to the disk. |
| RecoveryOutcome.RecoveryExactIff | Capstone-MiniDB/src/catalog/database.cpp:116-159 | For every log a session can write and every disk that holds for each key any state since the last reset: the opened database shows exactly the committed rows if and only if the disk holds no cut tuple, no committed insert is unplayable on it and, for each key with undone operations, the row to be kept is what the first undone insert leaves behind. |
| RecoveryOutcome.RecoveryExact | Capstone-MiniDB/src/catalog/database.cpp:116-159 | When no committed change of a key follows an uncommitted operation on it, the opened database shows exactly the committed rows, or opening fails on a cut tuple or an unplayable insert; which of the three is said by log and disk. |
| RecoveryOutcome.NoRollbackIsFine | Capstone-MiniDB/src/catalog/database.cpp:67-80 | The same for every log without ABORT records. |
| RecoveryOutcome.RolledBackInsertLosesRow | Capstone-MiniDB/src/catalog/database.cpp:142-154 | The unconditional claim is false: a rolled-back insert followed by a committed insert of the same key loses the committed row, whatever reached the disk. |
| RecoveryOutcome.RecoveryRestarts | Capstone-MiniDB/src/catalog/database.cpp:129-158 | From any per-key mixture of states reached part-way through redo or undo, opening again ends in the same tables or fails; never when the log is safe in the sense of SafeLogsIff. |
| RecoveryOutcome.RestartCanBeRefused | Capstone-MiniDB/src/catalog/database.cpp:129-140 | That second outcome is real: a five-record log and a disk from which opening succeeds, but not when it is interrupted after its redo pass and tried again. |
| RecoveryOutcome.RedoStaysSeen | Capstone-MiniDB/src/catalog/database.cpp:129-140 | No step of the redo pass creates a state outside the history of the key. |
| RecoveryOutcome.UndoStaysSeen | Capstone-MiniDB/src/catalog/database.cpp:142-154 | Nor does any step of the undo pass. |
| RecoveryOutcome.StopsIffUnplayable | Capstone-MiniDB/src/catalog/database.cpp:129-137 | Redo finds the key of a committed refused insert absent exactly when the disk lacks it or an earlier committed operation changed it. |
| RecoveryProof.ReplayExactIff | Capstone-MiniDB/src/catalog/database.cpp:129-154 | Both passes together show the committed rows if and only if the log is `Recoverable`: for each key with undone operations, the row to be kept is what the first undone insert leaves behind, a condition on the log alone. |
| RecoveryProof.RecoveredValue | Capstone-MiniDB/src/catalog/database.cpp:129-154 | What redo and undo leave at a key, when they run to their end, does not depend on the disk: it is the committed value with the uncommitted operations undone; an untouched row of which the heap kept nothing is gone. |
| RecoveryProof.DeletesAreSmall | Capstone-MiniDB/src/catalog/database.cpp:96-109 | Only rows the heap once took are logged as deleted, so their images fit again when they are put back. |
| RecoveryLog.Kept | Capstone-MiniDB/src/catalog/database.cpp:28-31 | The heap is told the length in 16 bits, so it stores the image unchanged if and only if that is shorter than 2^16 bytes; what it stores always fits a page. |
| RecoveryProof.CommittedRowsAreBase | Capstone-MiniDB/src/catalog/database.cpp:59-65 | Applying the committed transactions in order to the checkpoint gives the rows the session held when no transaction was open. |
| RecoveryProof.RedoFromStart | Capstone-MiniDB/src/catalog/database.cpp:129-140 | Redo over the checkpoint gives the committed value of each key. |
| RecoveryProof.RedoForgets | Capstone-MiniDB/src/catalog/database.cpp:129-140 | After a committed delete was redone, what the disk held no longer matters. |
| RecoveryProof.QuietLogs | Capstone-MiniDB/src/catalog/database.cpp:129-154 | A key without committed deletes and undone inserts is changed at most once by winners, and losers only delete the committed row. |
| RecoveryProof.LosersComeLast | Capstone-MiniDB/src/catalog/database.cpp:142-154 | When losers come last on a key, the first of them found the committed row. |
| RecoveryProof.UndoKeepsIff | Capstone-MiniDB/src/catalog/database.cpp:142-154 | Undoing the losers of a key shows the committed row again iff the per-key check passes. |
| RecoveryLog.RecoverByKey | Capstone-MiniDB/src/catalog/database.cpp:116-159 | Recovery acts on each key separately. |
| RecoveryLog.UndoForgets | Capstone-MiniDB/src/catalog/database.cpp:149-150 | Undoing an insert forgets what the table held before. |
| Session.Database.Rollback | Capstone-MiniDB/src/catalog/database.cpp:67-80 | Rollback restores exactly the rows held at begin, after any mix of inserts and deletes. |
| Session.Database.ReplayUndo | Capstone-MiniDB/src/catalog/database.cpp:69-75 | Replaying the undo list backwards takes the operations back one by one. |
| Session.Database.InsertRow | Capstone-MiniDB/src/catalog/database.cpp:82-94 | Decides by key, text lengths and image length between four outcomes and states rows, log and transaction after each: a duplicate changes nothing; a text too long leaves a transaction open with its BEGIN record; a tuple too large leaves it open with the insert logged; otherwise the row is stored as the heap keeps it, and an implicit transaction commits. Of the encodings shorter than 2^16 bytes those of at most 4088 are taken. |
| Session.InsertEffect | Capstone-MiniDB/src/catalog/database.cpp:82-94 | The records each of these outcomes writes. |
| Session.DeleteEffect | Capstone-MiniDB/src/catalog/database.cpp:96-109 | Outside a transaction a deletion writes BEGIN, DELETE and COMMIT of its own; within one, its DELETE record. |
| Session.Database.DeleteByKey | Capstone-MiniDB/src/catalog/database.cpp:96-109 | Removes exactly the row of the key, iff there is one, and logs its image first; a deletion of its own transaction when none is active. |
| Session.Database.Begin | Capstone-MiniDB/src/catalog/database.cpp:51-57 | Fails iff a transaction is active; otherwise the current rows become the ones to roll back to. |
| Session.Database.Commit | Capstone-MiniDB/src/catalog/database.cpp:59-65 | Fails iff none is active; otherwise the current rows are durable. |
| Session.Database.EnsureTxn | Capstone-MiniDB/src/catalog/database.cpp:40-45 | Opens an implicit transaction iff none is active. |
| Session.Database.PhysInsert | Capstone-MiniDB/src/catalog/database.cpp:28-31 | Succeeds iff the length, cut to 16 bits, fits a page. Heap and index gain what is kept of the row under a new row id; when nothing is kept, the index entry leads to no live tuple. |
| Session.FitsTheHeap | Capstone-MiniDB/src/catalog/database.cpp:28-31 | The session refuses exactly the images that the heap file refuses. |
| Session.Database.PhysDelete | Capstone-MiniDB/src/catalog/database.cpp:33-38 | Heap and index lose the row together. |
| Session.Database.ScanLog | Capstone-MiniDB/src/catalog/database.cpp:120-127 | The committed transactions and the largest id of the log. |
| Session.Database.RedoPass | Capstone-MiniDB/src/catalog/database.cpp:129-140 | The loop is the redo of the log, on heap and index, and throws if and only if the redo meets an insert it cannot apply; operations on unknown tables are skipped. |
| Session.Database.UndoPass | Capstone-MiniDB/src/catalog/database.cpp:142-154 | The backward loop is the undo of the log, and throws if and only if that meets a delete whose image does not fit. |
| Session.Database.RecoverTables | Capstone-MiniDB/src/catalog/database.cpp:116-159 | The passes end in an exception if and only if the specified recovery is refused, and then the log stays as it was; otherwise they leave the recovered rows, an empty log and a session ready for use, with an id for the next transaction that the log did not hold. |
| Session.Database.RebuildIndex | Capstone-MiniDB/src/catalog/catalog.cpp:18-24 | The scan enters one decoded tuple after another in the index, the later one of two with the same key winning; it fails iff some tuple does not decode. |
| Session.OpenFiles | Capstone-MiniDB/src/catalog/database.cpp:9-17 | The scan, then recovery; fails iff one of them does. |
| Session.RebuiltIndexMatches | Capstone-MiniDB/src/catalog/catalog.cpp:18-24 | The index rebuilt by a scan matches the heap if and only if no two tuples have the same key. |
| Session.LastTupleWins | Capstone-MiniDB/src/catalog/catalog.cpp:20-24 | A key leads to the tuple that was scanned last. |
| Session.MatchingIndexUnique | Capstone-MiniDB/src/catalog/catalog.cpp:18-24 | Indexes that match a heap agree on all live tuples, so the maintained index never drifts from a rebuilt one. |
| Session.OpenAfterCrash | Capstone-MiniDB/src/catalog/database.cpp:9-17 | Opening a database after a crash fails if and only if the disk holds a cut tuple or a committed insert is unplayable; otherwise the session shows exactly the committed rows if and only if the log is `Recoverable`. |
| Session.CrashAndReopen | Capstone-MiniDB/src/catalog/database.cpp:9-17 | The same for a crash of any session at any point between calls, whose own log and rows meet what recovery relies on: the rows of the last commit or rollback are shown again. |
| Session.InsertKeeps | Capstone-MiniDB/src/catalog/database.cpp:90-92 | A logged insert, taken or refused, keeps log, undo list and rows of a session in step. |
| Session.DeleteKeeps | Capstone-MiniDB/src/catalog/database.cpp:96-109 | So does a logged delete. |
| Session.RollbackKeeps | Capstone-MiniDB/src/catalog/database.cpp:67-80 | So does a rollback; the undo list leads back to the rows at begin. |
| Session.KnownCommits | Capstone-MiniDB/src/catalog/database.cpp:120-137 | Skipping the records of unknown tables does not change which transactions committed. |
| RowCodec.DecodesIffWhole | Capstone-MiniDB/src/catalog/schema.cpp:26-46 | For every schema and row: what the heap keeps of the encoding decodes, to the row, if and only if the encoding is shorter than 2^16 bytes. |
| RowCodec.CutSuffix | Capstone-MiniDB/src/catalog/schema.cpp:26-46 | A row that lost 2^16 bytes or more never decodes: the last text is too short to hide the cut, so some column throws or is read outside the tuple. |
| RowCodec.RoundTrip | Capstone-MiniDB/src/catalog/schema.cpp:8-46 | Decoding undoes the encoding of every typed row with texts of at most 65535 bytes. |
| RowCodec.ExampleRow | Capstone-MiniDB/src/catalog/schema.cpp:8-24 | The bytes of one row, written out. |
| RowCodec.KeptDecodes | Capstone-MiniDB/src/catalog/schema.cpp:26-46 | A tuple decodes under the key it was stored for, if it decodes. |
| RowCodec.Serialize | Capstone-MiniDB/src/catalog/schema.cpp:8-24 | The loop writes the fields one after another, and throws iff a text is too long for its length field. |
| RowCodec.Deserialize | Capstone-MiniDB/src/catalog/schema.cpp:26-46 | The loop is the specified decoding, with the exception of substr and reads outside the bytes as outcomes. |
| RedBlack.RedBlackTree.Insert | LAB-5/red_black_tree.cpp:37-71 | Insertion with in-place rotations keeps all red-black invariants and parent links; the key set gains exactly the key, and nothing at all changes when it was there. |
| RedBlack.RedBlackTree.FixAfterInsert | LAB-5/red_black_tree.cpp:224-286 | The fix-up terminates, keeps the key set, needs at most two rotations, and leaves a red-black tree. |
| RedBlack.RedBlackTree.FixTurn | LAB-5/red_black_tree.cpp:226-283 | One turn either moves the violation up or rotates and ends it. |
| RedBlack.RedBlackTree.RotateOut | LAB-5/red_black_tree.cpp:242-255 | The cases with a black uncle, after one or two rotations, leave no violation. |
| RedBlack.RedBlackTree.MoveUp | LAB-5/red_black_tree.cpp:235-241 | The case with a red uncle moves the violation to the grandparent. |
| RedBlack.RedBlackTree.RotateLeft | LAB-5/red_black_tree.cpp:166-193 | The pointer assignments are the specified rotation, root and parent links included. |
| RedBlack.RedBlackTree.RotateRight | LAB-5/red_black_tree.cpp:195-222 | The mirror image. |
| RedBlack.RedBlackTree.Contains | LAB-5/red_black_tree.cpp:73-88 | The descent finds the key iff it is in the tree. |
| RedBlack.RedBlackTree.Descend | LAB-5/red_black_tree.cpp:39-52 | The descent of the insertion ends at the key, or at the only empty slot where it belongs. |
| RedBlack.RedBlackTree.Link | LAB-5/red_black_tree.cpp:54-68 | The new red node goes into that slot. |
| RedBlack.RedBlackTree.Validate | LAB-5/red_black_tree.cpp:300-333 | The recursive check with its running black count is the specified check of the tree value. |
| RedBlack.RedBlackTree.IsValid | LAB-5/red_black_tree.cpp:131-151 | Answers true iff the tree holds neither of the two extreme int keys: on those keys alone a correct tree is rejected. |
| RedBlack.ExtremeKeyRejected | LAB-5/red_black_tree.cpp:131-151 | Inserting either int limit into an empty tree makes a correct tree that the check rejects. |
| RedBlack.CheckOfRedBlack | LAB-5/red_black_tree.cpp:300-333 | The check between the int limits accepts a red-black tree iff it holds neither limit. |
| RedBlack.OrderedWithin | LAB-5/red_black_tree.cpp:313-316 | Strict bounds reject an ordered tree iff one of its keys lies outside them. |
| RedBlack.TreeIsRedBlack | LAB-5/red_black_tree.cpp:224-286 | The pointer structure stands for an ordered tree with a black root, no red-red edge and equal black heights, with the same keys, whose height is at most 2 log2(n + 1). |
| RedBlack.RotationKeepsShape | LAB-5/red_black_tree.cpp:166-222 | A rotation in either direction keeps search order, parent links and the key set. |
| RedBlack.RecolourStep | LAB-5/red_black_tree.cpp:235-241 | Recolouring restores all colours except possibly at the grandparent. |
| RedBlack.ZigZagStep | LAB-5/red_black_tree.cpp:244-250 | The inner-grandchild rotation turns the violation into the outer case. |
| RedBlack.FinishStep | LAB-5/red_black_tree.cpp:252-254 | Repainting and the final rotation leave no violation and equal black heights. |
| RedBlack.BlackenRoot | LAB-5/red_black_tree.cpp:285 | Painting the root black keeps the black heights equal. |
| RedBlack.AttachKeepsShape | LAB-5/red_black_tree.cpp:54-68 | Hanging the key into its empty slot keeps search order. |
| RedBlack.AttachKeepsColours | LAB-5/red_black_tree.cpp:54-70 | A new red leaf can only violate the red-red rule, at itself. |
| RedBlackSpec.HeightIsLogarithmic | LAB-5/red_black_tree.cpp:224-286 | 2 ^ height <= (size + 1) ^ 2 in every red-black tree. |
| RedBlackSpec.CheckAccepts | LAB-5/red_black_tree.cpp:300-333 | The one-pass check with a running count accepts exactly the ordered trees without red-red edges whose paths have equal numbers of black nodes. |
| RedBlackSpec.SizeIsKeyCount | LAB-5/red_black_tree.cpp:37-52 | An ordered tree has as many nodes as keys. |
| BPlusTree.BPlusTree.Insert | Capstone-MiniDB/src/index/bplus_tree.cpp:36-56 | Upsert: the map the tree stands for gains the entry, and every structural invariant, the entry count included, still holds. |
| BPlusTree.BPlusTree.InsertInto | Capstone-MiniDB/src/index/bplus_tree.cpp:58-112 | Insertion below a node: the map gains the entry, at most one new right sibling appears, and only the right end of the interval of the node may shrink. |
| BPlusTree.BPlusTree.InsertIntoLeaf | Capstone-MiniDB/src/index/bplus_tree.cpp:61-87 | The leaf case with its split. |
| BPlusTree.BPlusTree.InsertIntoInner | Capstone-MiniDB/src/index/bplus_tree.cpp:89-111 | The inner case: route, insert below, take in a new sibling, split when overfull. |
| BPlusTree.BPlusTree.SplitLeafNode | Capstone-MiniDB/src/index/bplus_tree.cpp:73-85 | The upper half moves to a new leaf, next in the chain, and its first key is copied up. |
| BPlusTree.BPlusTree.SplitInnerNode | Capstone-MiniDB/src/index/bplus_tree.cpp:102-111 | The middle separator is pushed up, not copied. |
| BPlusTree.BPlusTree.GrowRoot | Capstone-MiniDB/src/index/bplus_tree.cpp:48-55 | A split root gets a new root, one level taller. |
| BPlusTree.BPlusTree.Erase | Capstone-MiniDB/src/index/bplus_tree.cpp:114-126 | Lazy deletion: the map loses exactly the key; no node changes its place. |
| BPlusTree.BPlusTree.Search | Capstone-MiniDB/src/index/bplus_tree.cpp:25-34 | Finds the row id of the key iff the map has one. |
| BPlusTree.BPlusTree.FindLeaf | Capstone-MiniDB/src/index/bplus_tree.cpp:15-23 | The descent ends at the leaf whose interval holds the key. |
| BPlusTree.BPlusTree.RangeScan | Capstone-MiniDB/src/index/bplus_tree.cpp:128-139 | Visits exactly the entries with lo <= key <= hi, in ascending order, also across leaves emptied by deletion. |
| BPlusTree.BPlusTree.LowerBound | Capstone-MiniDB/src/index/bplus_tree.cpp:28-29 | Binary search for the first key that is not smaller. |
| BPlusTree.NewRoot | Capstone-MiniDB/src/index/bplus_tree.cpp:48-55 | The tree above a split root satisfies all invariants again. |
| BPlusNodes.LeafChange | Capstone-MiniDB/src/index/bplus_tree.cpp:61-71 | Changing the entries of one leaf affects the map on the interval of that leaf only. |
| BPlusNodes.SplitLeaf | Capstone-MiniDB/src/index/bplus_tree.cpp:73-85 | A leaf split keeps the map, the chain and all intervals. |
| BPlusNodes.SplitInner | Capstone-MiniDB/src/index/bplus_tree.cpp:102-111 | An inner split keeps the map and all intervals. |
| BPlusNodes.SplitBelow | Capstone-MiniDB/src/index/bplus_tree.cpp:98-99 | A parent that takes in the new sibling of a child is in order again, with one child more. |
| BPlusNodes.NoSplitBelow | Capstone-MiniDB/src/index/bplus_tree.cpp:95-96 | When the child did not split, its ancestors are in order as they are. |
| BPlusNodes.OneParent | Capstone-MiniDB/src/index/bplus_tree.cpp:89-99 | No node hangs in two places. |
| BPlusNodes.NodeSizes | Capstone-MiniDB/src/index/bplus_tree.cpp:61-111 | Between two operations a leaf holds at most three keys and an inner node has two to four children. |
| BPlusNodes.LeaveLeaf | Capstone-MiniDB/src/index/bplus_tree.cpp:117-123 | Removing an entry keeps all invariants, however empty the leaf gets. |
| BPlusChain.ChainIsLeafSequence | Capstone-MiniDB/src/index/bplus_tree.cpp:81-82 | The next chain from the first leaf is exactly the left-to-right sequence of leaves, all of them, covering all keys in ascending order. |
| BPlusChain.LeavesWithin | Capstone-MiniDB/src/index/bplus_tree.cpp:13-23 | Separators bound their subtrees. |
| BPlusChain.HeightIsLogarithmic | Capstone-MiniDB/src/index/bplus_tree.cpp:58-112 | All leaves are at one depth, and a tree with h levels above them has at least 2 ^ h leaves. |
| BPlusChain.PointScan | Capstone-MiniDB/src/index/bplus_tree.cpp:128-139 | A scan from a key to itself lists its entry or nothing. |
| BTree.Database.Insert | LAB-6/btree_index.cpp:128-136 | For every degree, 0 included, and with repeated keys: the contents stay sorted and gain exactly the new entry, and all occupancy and depth bounds hold. |
| BTree.Database.InsertNonFull | LAB-6/btree_index.cpp:64-86 | Insertion below a node that is not full; nodes split on the way, and the parent of a split is never full. |
| BTree.Database.SplitFull | LAB-6/btree_index.cpp:81-84 | A full child is split, and the descent goes on right of the median only for a greater key. |
| BTree.Database.SplitChild | LAB-6/btree_index.cpp:41-62 | The copying loops and vector insertions are the specified split of the tree value, without sharing any node. |
| BTree.Database.InsertIntoLeaf | LAB-6/btree_index.cpp:66-76 | The shifting loop puts the entry behind the last one that is not greater. |
| BTree.Database.FindChild | LAB-6/btree_index.cpp:78-79 | The scan from the right finds the child for the key. |
| BTree.Database.MakeRoom | LAB-6/btree_index.cpp:129-134 | A full root is split below a new one; the contents stay. |
| BTree.Database.SearchNode | LAB-6/btree_index.cpp:88-95 | The recursive descent is the specified search. |
| BTree.Database.Search | LAB-6/btree_index.cpp:138-142 | Finds a row inserted under the key iff there is one. |
| BTree.Database.Scan | LAB-6/btree_index.cpp:144-148 | Lists the contents, sorted. |
| BTree.Database.InOrder | LAB-6/btree_index.cpp:97-105 | The recursion appends the in-order listing. |
| BTree.Database.constructor | LAB-6/btree_index.cpp:123-125 | An index of any degree begins empty. |
| BTreeSpec.TreeIsLarge | LAB-6/btree_index.cpp:39-86 | A tree of height h >= 1 holds at least 2 t ^ h - 1 entries. |
| BTreeSpec.SubtreeIsLarge | LAB-6/btree_index.cpp:39-86 | A node h levels above the leaves holds at least t ^ (h + 1) - 1 entries below it. |
| BTreeSpec.SplitInOrder | LAB-6/btree_index.cpp:41-62 | A split does not change the in-order listing. |
| BTreeSpec.SplitShape | LAB-6/btree_index.cpp:41-62 | Splitting a full child of a node that is not full keeps all occupancy bounds and depths. |
| BTreeSpec.RootSplit | LAB-6/btree_index.cpp:129-134 | Splitting a full root makes a legal tree one level taller. |
| BTreeSpec.InsertedSorted | LAB-6/btree_index.cpp:64-86 | Such an insertion keeps a listing sorted and adds exactly the entry. |
| BTreeSpec.ChildInserts | LAB-6/btree_index.cpp:85 | An insertion into the chosen child is an insertion into the node. |
| BTreeSpec.SplitReady | LAB-6/btree_index.cpp:81-84 | After the split the chosen child is not full and the key belongs between its separators. |
| BTreeSpec.SearchIsExact | LAB-6/btree_index.cpp:88-95 | The search finds an entry with the key iff the sorted listing has one, also among equal keys. |
| ShuntingYard.PipelinePreservesMeaning | LAB-7/sql_query_processor.cpp:79-145 | For every infix writing with enough parentheses and every meaning of operators and variables, evaluating the translation gives the value of the expression tree and leaves one value on the stack. |
| ShuntingYard.TranslationIsPostfix | LAB-7/sql_query_processor.cpp:79-111 | Every such writing is translated to the postfix form of its tree. |
| ShuntingYard.MinimalTranslation | LAB-7/sql_query_processor.cpp:79-111 | In particular the writing with only the parentheses that the table of precedences requires. |
| InfixGrammar.GrammarIffParenthesized | LAB-7/sql_query_processor.cpp:29-45 | A grammar with one level for each group of operators, || loosest, then &&, = !=, < > <= >=, + -, * /, all to the left, and ^ to the right, admits exactly the writings with parentheses wherever the table requires them. |
| InfixGrammar.GrammarTranslates | LAB-7/sql_query_processor.cpp:29-111 | Every writing of that grammar is translated to the postfix form of the tree it stands for. |
| InfixGrammar.EvaluatesToItsNumber | LAB-7/sql_query_processor.cpp:79-145 | And evaluated to the number it stands for, and no other: sums, products and quotients of numbers, 1 or 0 for comparisons and for && and ||. |
| InfixGrammar.ApplyIsOperation | LAB-7/sql_query_processor.cpp:121-133 | The cases of the evaluator are those operations. |
| ShuntingYard.TranslatesIffBalanced | LAB-7/sql_query_processor.cpp:79-111 | On arbitrary tokens the translation throws iff the parentheses do not balance. |
| ShuntingYard.TranslationConserves | LAB-7/sql_query_processor.cpp:79-111 | On arbitrary balanced tokens no operator or operand is lost, added or, for operands, reordered. |
| ShuntingYard.WritingIsUnambiguous | LAB-7/sql_query_processor.cpp:29-45 | With this table of precedences two writings with equal tokens mean the same tree. |
| ShuntingYard.PostfixPushesValue | LAB-7/sql_query_processor.cpp:113-145 | Running a postfix form pushes its value and touches nothing below. |
| ShuntingYard.WellFormedIffPostfix | LAB-7/sql_query_processor.cpp:113-145 | A token list without parentheses runs to exactly one value iff it is the postfix form of some tree. |
| ShuntingYard.ToRpn | LAB-7/sql_query_processor.cpp:79-111 | The loop over tokens with explicit stack and output is the specified translation. |
| ShuntingYard.PopStronger | LAB-7/sql_query_processor.cpp:94-100 | The popping loop for an operator. |
| ShuntingYard.PopToOpen | LAB-7/sql_query_processor.cpp:86-91 | The popping loop for a closing parenthesis. |
| ShuntingYard.EvalRpn | LAB-7/sql_query_processor.cpp:114-145 | The evaluation loop is the specified stack machine. |
| ShuntingYard.Minimal | LAB-7/sql_query_processor.cpp:29-45 | Every tree has a writing with only the required parentheses, which means that tree. |
| WhereParser.ParseUndoesPrint | Capstone-MiniDB/src/query/parser.cpp:131-186 | Parsing the minimal printing of a tree returns that tree and stops right behind it when parentheses nest fewer than 500 deep, and otherwise fails with the nesting error. |
| WhereParser.ParsesExactlyWritings | Capstone-MiniDB/src/query/parser.cpp:131-186 | On arbitrary tokens: the parser accepts a tree up to a position iff the tokens up to there are a writing of it that is not nested too deeply and not continued. |
| WhereParser.WritingsAreUnambiguous | Capstone-MiniDB/src/query/parser.cpp:131-186 | Two writings with equal tokens mean the same tree: OR binds weaker than AND, both to the left. |
| WhereParser.OrAccepted | Capstone-MiniDB/src/query/parser.cpp:131-141 | Every writing is accepted with its tree. |
| WhereParser.OrTooDeep | Capstone-MiniDB/src/query/parser.cpp:155-164 | Too deep a nesting anywhere in the expression is reported as such. |
| WhereParser.OrIsWritten | Capstone-MiniDB/src/query/parser.cpp:131-141 | What is accepted is a writing. |
| WhereParser.Print | Capstone-MiniDB/src/query/parser.cpp:131-186 | Every tree has a writing, with parentheses only where needed. |
| WhereParser.Parser.ParseExpr | Capstone-MiniDB/src/query/parser.cpp:131-141 | The OR loop: tree, position and depth as the grammar says; the depth is restored and the end marker is never passed. |
| WhereParser.Parser.ParseAnd | Capstone-MiniDB/src/query/parser.cpp:143-153 | The AND loop. |
| WhereParser.Parser.ParseCmp | Capstone-MiniDB/src/query/parser.cpp:155-186 | The depth guard, parentheses and comparisons. The depth is restored however parsing ends, except by the guard that throws, whose destructor does not run. |
| WhereParser.Parser.ParseComparison | Capstone-MiniDB/src/query/parser.cpp:171-185 | Column, operator and literal. |
| WhereParser.Parser.ParseColRef | Capstone-MiniDB/src/query/parser.cpp:119-123 | A plain or qualified column name. |
| LogCodec.TornTail | Capstone-MiniDB/src/recovery/wal.cpp:47-76 | Reading any byte prefix of an appended log returns exactly the records wholly contained in it, in order. |
| LogCodec.WholeIsMaximal | Capstone-MiniDB/src/recovery/wal.cpp:47-76 | That number of records is the largest that fits. |
| LogCodec.WholeLog | Capstone-MiniDB/src/recovery/wal.cpp:15-76 | Reading a whole log returns all its records. |
| LogCodec.ReadsBackIff | Capstone-MiniDB/src/recovery/wal.cpp:15-32 | A record is read back iff its table name is shorter than 2^16 bytes and its body shorter than 2^32 bytes; otherwise the truncated lengths spoil it. |
| LogCodec.BodyRoundTrip | Capstone-MiniDB/src/recovery/wal.cpp:60-72 | Decoding the fields of a body undoes their encoding, negative keys included. |
| LogCodec.CutRecord | Capstone-MiniDB/src/recovery/wal.cpp:54-58 | A cut within the first record stops the reader; a cut behind it does not affect it. |
| LogCodec.LeRoundTrip | Capstone-MiniDB/src/recovery/wal.cpp:10-13 | Little-endian fields of fixed width. |
| LogCodec.ExampleRecord | Capstone-MiniDB/src/recovery/wal.cpp:10-32 | The bytes of one record, written out. |
| LogCodec.WriteAheadLog.Append | Capstone-MiniDB/src/recovery/wal.cpp:15-32 | The record is packed field by field and appended behind its length. |
| LogCodec.WriteAheadLog.ReadAll | Capstone-MiniDB/src/recovery/wal.cpp:47-76 | The loop over the file is the specified decoding, for arbitrary bytes. |
| BufferPool.BufferPool.EvictVictim | Capstone-MiniDB/src/storage/buffer_pool.cpp:23-47 | Fails iff every frame is pinned; otherwise the frame the sweep is to take becomes free and no page content is lost. |
| BufferPool.BufferPool.Sweep | Capstone-MiniDB/src/storage/buffer_pool.cpp:23-47 | The clock hand takes the first frame ahead of it that is unused, or unpinned and not touched since it last passed; when there is none, the first that is not pinned; within the scan limit, and it fails iff every frame is pinned. Frames it passed have lost their second chance. |
| BufferPool.SweptStep | Capstone-MiniDB/src/storage/buffer_pool.cpp:33-45 | What the hand has seen of the frames, and done to their counters, when it passes one more. |
| BufferPool.BufferPool.FetchPage | Capstone-MiniDB/src/storage/buffer_pool.cpp:49-73 | The frame holds the content of the page, whatever was evicted, and counts as touched; it fails iff the page is not cached and either does not exist or no frame can be freed. |
| BufferPool.BufferPool.NewPage | Capstone-MiniDB/src/storage/buffer_pool.cpp:75-79 | A new page of zeros at the end of the file; fails iff every frame is pinned. |
| BufferPool.BufferPool.UnpinPage | Capstone-MiniDB/src/storage/buffer_pool.cpp:81-87 | One pin less; what the client wrote, and said so, becomes the content of the page. |
| BufferPool.BufferPool.FlushAll | Capstone-MiniDB/src/storage/buffer_pool.cpp:89-91 | Afterwards the file holds exactly the contents of all pages. |
| BufferPool.BufferPool.FlushFrame | Capstone-MiniDB/src/storage/buffer_pool.cpp:14-19 | A dirty frame is written back. |
| BufferPool.FlushKeeps | Capstone-MiniDB/src/storage/buffer_pool.cpp:14-19 | Writing back does not change what the pool stands for. |
| BufferPool.DropKeeps | Capstone-MiniDB/src/storage/buffer_pool.cpp:37-40 | Giving up a clean, unpinned frame loses nothing. |
| BufferPool.LoadKeeps | Capstone-MiniDB/src/storage/buffer_pool.cpp:57-67 | Loading a page from the file shows its content. |
| BufferPool.CloseKeeps | Capstone-MiniDB/src/storage/buffer_pool.cpp:81-87 | What a client wrote to a frame it marked dirty is the new content of the page, and of no other. |
| BufferPool.CleanMeansSaved | Capstone-MiniDB/src/storage/buffer_pool.cpp:89-91 | When no frame is dirty, the file is up to date. |
| BufferPool.PinAndRelease | Capstone-MiniDB/src/storage/buffer_pool.cpp:49-87 | Pinning a page and releasing it again takes no frame away from the sweep. |
| SlottedPage.InsertTuple | Capstone-MiniDB/src/storage/page.hpp:58-69 | Inserts iff the tuple and its slot fit; the page gains one tuple under a slot never used before. |
| SlottedPage.InsertAddsTuple | Capstone-MiniDB/src/storage/page.hpp:58-69 | The bytes written leave every other tuple and the layout intact. |
| SlottedPage.EraseTuple | Capstone-MiniDB/src/storage/page.hpp:84-89 | The page loses exactly the tuple; slots stay used. |
| SlottedPage.EraseRemovesTuple | Capstone-MiniDB/src/storage/page.hpp:84-89 | Writing one length field removes one tuple and keeps the layout. |
| SlottedPage.GetTuple | Capstone-MiniDB/src/storage/page.hpp:73-81 | Returns the bytes of the slot iff it is live. |
| SlottedPage.FreeSpace | Capstone-MiniDB/src/storage/page.hpp:50-56 | The free bytes in 16-bit arithmetic, 0 on a header that makes no sense. |
| SlottedPage.Init | Capstone-MiniDB/src/storage/page.hpp:36-40 | An empty, well-formed page. |
| SlottedPage.FreshPageTakes | Capstone-MiniDB/src/storage/page.hpp:36-69 | A page just formatted takes exactly the tuples of at most 4088 bytes. |
| SlottedPage.RoomInBytes | Capstone-MiniDB/src/storage/page.hpp:50-69 | A page has room for a tuple iff its header, its slots with one more, and the tuple end before the tuples begin. |
| SlottedPage.ExamplePage | Capstone-MiniDB/src/storage/page.hpp:25-69 | The bytes of a page with one tuple of one byte. |
| HeapFile.HeapFile.Insert | Capstone-MiniDB/src/storage/heap_file.cpp:6-36 | First fit: the tuple goes to the first page with room, or to a new one, under a row id never issued; all other tuples keep row id and bytes. It fails only when too large, or when every frame was pinned. |
| HeapFile.HeapFile.Get | Capstone-MiniDB/src/storage/heap_file.cpp:38-48 | Returns the bytes behind the row id iff it is live; fails iff its page cannot be pinned. |
| HeapFile.HeapFile.Erase | Capstone-MiniDB/src/storage/heap_file.cpp:50-56 | Removes exactly the tuple; its row id is never issued again. |
| HeapFile.HeapFile.Scan | Capstone-MiniDB/src/storage/heap_file.cpp:58-71 | Lists the live tuples of the pages in order, none twice; fails only when every frame was pinned. |
| HeapFile.HeapFile.TryPage | Capstone-MiniDB/src/storage/heap_file.cpp:14-24 | One page of the first-fit search. |
| HeapFile.HeapFile.Extend | Capstone-MiniDB/src/storage/heap_file.cpp:26-35 | The heap grows by a page that holds the tuple. |
| HeapFile.PutAdds | Capstone-MiniDB/src/storage/heap_file.cpp:14-23 | Putting a tuple on one page adds one row id and touches no other. |
| HeapFile.TakeOffRemoves | Capstone-MiniDB/src/storage/heap_file.cpp:50-56 | Erasing on one page removes one row id and touches no other. |
| HeapFile.EntriesExact | Capstone-MiniDB/src/storage/heap_file.cpp:58-71 | A scan lists a row id with its bytes iff it is live on a page of the heap. |
| HeapFile.EntriesDistinct | Capstone-MiniDB/src/storage/heap_file.cpp:58-71 | And each once, because a heap never lists a page twice. |
| QueryPlans.ScanChoiceDoesNotMatter | Capstone-MiniDB/src/query/optimizer.cpp:54-90 | For well-typed predicates and either outcome of the cost comparison, index scan plus filter returns the same rows as sequential scan plus filter. |
| QueryPlans.IndexScanIsEnough | Capstone-MiniDB/src/query/executor.cpp:91-111 | The rows fetched by the index, filtered, are the rows of the whole table, filtered. |
| QueryPlans.FoundKeyIsNecessary | Capstone-MiniDB/src/query/optimizer.cpp:14-29 | When the optimizer finds a key equality, only the row with that key can satisfy the predicate. |
| QueryPlans.PkResolves | Capstone-MiniDB/src/query/optimizer.cpp:8-18 | The name comparison of the optimizer agrees with column resolution. |
| QueryPlans.ResolveIsUnique | Capstone-MiniDB/src/query/executor.cpp:18-30 | Resolution finds a column iff it is the only one that can be meant. |
| QueryPlans.ResolveCol | Capstone-MiniDB/src/query/executor.cpp:18-30 | The loop over the columns, with both errors. |
| QueryPlans.WellTypedEvaluates | Capstone-MiniDB/src/query/executor.cpp:32-51 | Evaluating a well-typed predicate never throws. |
| QueryMeaning.EvaluatesToMeaning | Capstone-MiniDB/src/query/executor.cpp:32-51 | And gives what the predicate says: each comparison that of the numbers or texts in the column its name refers to, AND and OR as usual. |
| QueryMeaning.NumbersCompare | Capstone-MiniDB/src/query/executor.cpp:41-46 | For a column of numbers the six operators are ==, !=, <, <=, > and >=. |
| QueryMeaning.TextOrder | Capstone-MiniDB/src/query/executor.cpp:32-46 | Texts are compared by the first position where they differ, a proper prefix coming first. |
| QueryMeaning.CompareMeans | Capstone-MiniDB/src/query/executor.cpp:41-46 | The three-way comparison with each of the six operators. |
| QueryMeaning.ResolveMeans | Capstone-MiniDB/src/query/executor.cpp:18-30 | A name refers to the one column that is called so, with its table or without. |
| QueryMeaning.FilterPicks | Capstone-MiniDB/src/query/executor.cpp:113-126 | A filter keeps exactly the rows that meet the condition, in order. |
| QueryMeaning.ProjectsTo | Capstone-MiniDB/src/query/executor.cpp:128-145 | Each output column holds the value of the column that its name refers to. |
| JoinPlans.JoinOrderDoesNotMatter | Capstone-MiniDB/src/query/optimizer.cpp:92-102 | Whichever of two tables is the inner one, a join projected by name returns every row equally often. |
| JoinPlans.CountDoesNotDependOnOrder | Capstone-MiniDB/src/query/executor.cpp:191-207 | COUNT(*) of a join does not depend on the order either. |
| JoinPlans.AnswerCountsPairs | Capstone-MiniDB/src/query/executor.cpp:149-189 | How often a row occurs in the answer of the nested-loop join is a count over pairs of rows. |
| QueryMeaning.JoinCountsPairs | Capstone-MiniDB/src/query/executor.cpp:149-189 | Namely the number of pairs of rows that hold equal values in the two join columns, meet the condition and show that row. |
| QueryMeaning.JoinsMeans | Capstone-MiniDB/src/query/executor.cpp:184 | The join test is equality of the two values. |
| JoinPlans.SwapStatement | Capstone-MiniDB/src/query/executor.cpp:156-163 | A statement resolved against the columns in the other order names the same columns. |
| JoinPlans.SwapSatisfies | Capstone-MiniDB/src/query/executor.cpp:32-51 | A predicate says the same of the joined row in either order. |
| Operators.Scan.SeqScan | Capstone-MiniDB/src/query/executor.cpp:72-89 | A sequential scan stands for the rows of the heap, in order. |
| Operators.Scan.IndexScan | Capstone-MiniDB/src/query/executor.cpp:91-111 | An index scan stands for the rows its key leads to. |
| Operators.Scan.Next | Capstone-MiniDB/src/query/executor.cpp:84-88 | Yields the rows of the list meaning one by one. |
| Operators.NestedLoopJoin.constructor | Capstone-MiniDB/src/query/executor.cpp:156-163 | The join stands for the list of matching pairs, outer order first. |
| Operators.NestedLoopJoin.Open | Capstone-MiniDB/src/query/executor.cpp:164-172 | The inner side is read into memory and the cursors are reset. |
| Operators.NestedLoopJoin.Next | Capstone-MiniDB/src/query/executor.cpp:173-188 | Yields exactly the pairs of the list meaning, one by one. |
| Operators.Operator.FilterOf | Capstone-MiniDB/src/query/executor.cpp:113-118 | A filter stands for the rows of its child that satisfy the predicate. |
| Operators.Operator.ProjectOf | Capstone-MiniDB/src/query/executor.cpp:128-138 | A projection stands for the named columns of the rows of its child. |
| Operators.Operator.CountOf | Capstone-MiniDB/src/query/executor.cpp:191-196 | COUNT(*) stands for one row with the number of rows of its child. |
| Operators.Operator.Next | Capstone-MiniDB/src/query/executor.cpp:120-145 | Every operator yields the rows of its list meaning one by one, then ends. |
| Operators.Operator.Drain | Capstone-MiniDB/src/query/executor.cpp:277-283 | Pulling a plan dry returns its list meaning. |
| SelectQueries.BuildFiltered | Capstone-MiniDB/src/query/executor.cpp:209-214 | The plan for one table stands for the filtered rows of the whole table, whatever scan was chosen. |
| SelectQueries.SelectFrom | Capstone-MiniDB/src/query/executor.cpp:254-284 | A query over one table shows exactly the rows of the heap that meet the condition, in order: as they are, as their number, or under the selected names. |
| SelectQueries.ShapedAnswers | Capstone-MiniDB/src/query/executor.cpp:254-284 | The list meaning of such a plan is that answer. |
| SelectQueries.SelectJoin | Capstone-MiniDB/src/query/executor.cpp:259-268 | A join query returns each row as often as there are pairs of rows that agree on the join columns, meet the condition and show it, whatever order was chosen. |
| SelectQueries.RunJoin | Capstone-MiniDB/src/query/executor.cpp:264-283 | The plan for given roles returns its list meaning. |
| SelectQueries.CollectKeys | Capstone-MiniDB/src/query/executor.cpp:290-299 | DELETE collects the keys of exactly the matching rows. |
| SelectQueries.DeletedExactly | Capstone-MiniDB/src/query/executor.cpp:286-299 | The key of a row is collected iff the row satisfies the predicate. |
| SelectQueries.CollectedKeys | Capstone-MiniDB/src/query/executor.cpp:290-299 | The collected keys are those of the matching rows, each once. |
| DeleteStatement.RunDelete | Capstone-MiniDB/src/query/executor.cpp:286-305 | On a session: afterwards a row of the table is shown if and only if it does not meet the condition, nothing else changed, and the count is that of the rows that did. |
| DeleteStatement.DeleteKeys | Capstone-MiniDB/src/query/executor.cpp:301-303 | The loop deletes each collected key by a call of its own and counts it. |
| DeleteStatement.CrashInDelete | Capstone-MiniDB/src/query/executor.cpp:301-303 | DELETE is not atomic outside a transaction: after w of its log records were written, exactly the first w / 3 keys count as deleted. |
| DeleteStatement.DeletesInTransaction | Capstone-MiniDB/src/query/executor.cpp:301-303 | Within a transaction the rows to roll back to stay those at its begin. |

## Left out

- The clock, ids and values of the concurrency engine are unbounded integers; 64-bit overflow is not modelled.
- Missing and empty entries of the set-valued lock tables are identified; only `operator[]` tells them apart.
- Threads and the condition variable are atomic steps with arbitrary wake-ups; fairness and starvation are not modelled.
- Serializability in MVCC mode is not claimed: write skew is permitted by design (`Capstone-MiniDB/docs/design_decisions.md:76-78`).
- The order in which `std::map` and `std::unordered_map` are traversed is arbitrary; every loop over one is proved for any order.
- Sessions work on maps from row ids to encoded rows; beside the bytes stands the key under which a row was inserted, which decoding gives back.
- Reads outside a tuple, undefined in C++, count as a failed scan; statements that scan a table holding a cut tuple, and so fail, are not modelled.
- Session.OpenAfterCrash: a crash state in which one key has tuples on two pages, one of them stale, is not modelled; each key has at most one live tuple on disk.
- Session.Database.RecoverTables: a log file whose only content is a torn record reads as empty and is not reset; what later appends to such a file read as is not modelled.
- RecoveryOutcome.RecoveryExact: the condition that no committed change of a key follows an uncommitted operation is sufficient only; the exact condition is RecoveryOutcome.RecoveryExactIff.
- File streams, the text catalog, the REPL, result printing, optimizer messages and the benchmark: input and output.
- The disk manager is a sequence of pages; short reads of the last page and failing writes are not modelled.
- HeapFile.HeapFile.Extend: the callback that saves the catalog after a page was added is left out.
- The heap file, the B+ tree and the session are proved separately; the session uses maps in their place.
- `SELECT *` over a join, whose column order depends on the plan, joins of a table with itself, and ambiguous or ill-typed predicates are excluded by precondition.
- Operators.NestedLoopJoin.constructor: the inputs of a join are scans, as the executor builds them.
- QueryPlans.ScanChoiceDoesNotMatter: selectivities and costs are floating point; the comparison of costs is an arbitrary boolean.
- The statement parsers for CREATE, INSERT, SELECT and DELETE and the lexer: straight-line code over one token at a time, which would only add easy members.
- The executor paths for CREATE and INSERT: argument checks in front of session calls.
- ShuntingYard.EvalRpn: doubles are an arbitrary type and operators arbitrary functions on it, or, in InfixGrammar, real numbers with powers and quotients by zero left open; taking from an empty stack, which is undefined in C++, is an outcome of its own.
- The tokenizer of `LAB-7` and its parser for SELECT text: text handling without an invariant worth proving.
- BTree.Database.constructor: for degree 0 the maximum of `2t - 1` entries wraps around to the largest size, which no node is assumed to reach; keys are integers and rows strings instead of template parameters.
- Printing, `destroy` and memory release of the tree classes.
- `LAB-3` (a small cache) and `LAB-8` (an earlier lock and version manager without the invariants proved here), `LAB-2` and `LAB-4` (write-ups).
