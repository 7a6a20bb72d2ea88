# MetaStore in Dafny

This project models the state machines of MetaStore, an etcd-compatible key-value store on
Raft, and proves what they promise over every run. Each part that works by changing things in
place is a class whose methods are proved against functions on values; the properties are
lemmas about those functions. A protocol between several parties is a set of steps, and its
properties hold over every sequence of steps.

`dafny verify dfyconfig.toml` checks the whole project.

## How the files belong together

| part | files |
|---|---|
| byte strings, revisions, facts over runs | `Bytes.dfy`, `Revisions.dfy`, `Histories.dfy` |
| the multi-version store | `MvccSpec.dfy`, `MvccTheorems.dfy`, `MvccRuns.dfy`, `KeyIndex.dfy`, `MemoryStore.dfy` |
| what its reads see, before and after compactions | `MvccReads.dfy`, `MvccCurrent.dfy`, `MvccCompaction.dfy`, `MvccClient.dfy` |
| what its commands, conditions and answers mean | `MvccAnswers.dfy` |
| binary encodings, the on-disk store, its restart and its runs | `Codec.dfy`, `RocksStore.dfy`, `RocksRuns.dfy` |
| the etcd-style store and its sharded map | `EtcdSpec.dfy`, `ShardedMap.dfy`, `EtcdStore.dfy` |
| what its requests and answers mean | `EtcdAnswers.dfy` |
| batches of committed operations | `BatchPool.dfy`, `BatchOrders.dfy`, `BatchRuns.dfy`, `BatchSchedules.dfy`, `BatchStore.dfy` |
| leases and their keys | `LeaseTable.dfy`, `LeaseRuns.dfy` |
| MySQL transactions and prefix queries | `MySqlTxn.dfy`, `PrefixRange.dfy` |
| leader election | `Election.dfy` |
| the raft log, publication, proposal batching | `RaftLog.dfy`, `RaftTerms.dfy`, `Publisher.dfy`, `Batcher.dfy`, `ProposalPath.dfy` |
| lease reads and read indexes | `LeaseRead.dfy` |
| users, roles and tokens | `AuthManager.dfy`, `AuthRuns.dfy` |

## Main results

* **Multi-version reads are replays.** A read of the log at any revision is the replay of the
  history visible there, in every run without compactions (`MvccRuns.HistoryRefinement`). The
  store itself reads through its index and its revision store; those reads are replays exactly
  when no transaction puts a key on the sub-revision of another key that it deletes for good
  (`MvccReads.ReadsAreReplaysExactly`), and then the imperative store answers so
  (`MvccClient.ReadAfter`, `MvccClient.RangeAfter`).
* **What the commands mean.** In every compaction-free run each command changes the replayed record
  of every key as a table of one line per operation says, its branch chosen by comparing replayed
  records (`MvccAnswers.CommandsMean`, `MvccAnswers.TxnBranch`); each response of a transaction
  answers over the history its operation ran on (`MvccAnswers.TxnAnswers`, `MvccClient.CommitAfter`).
  In every state a range read lists the point reads of its half-open interval
  (`MvccAnswers.RangeIsListing`), and a range delete removes exactly that interval
  (`MvccAnswers.DeleteRangeRemoves`).
* **What the current revision sees.** Right after any run, reads at revision 0 answer with the
  whole history exactly when the last transaction leaves of each key what its event at
  sub-revision 0 leaves (`MvccCurrent.CurrentSeesAllExactly`).
* **Compaction.** After any run, earlier compactions and shared revisions included, a compaction
  changes what a point or range read answers exactly when a value it returned was written below
  the target, or when it newly rejects the read (`MvccCompaction.CompactionLosesExactly`,
  `MvccCompaction.RangeCompactionLosesExactly`, `MvccClient.CompactBetweenReads`). Deletes after it
  agree with the replay exactly when the key's last event is a put at or above the target or a
  delete below it (`MvccCompaction.DeleteAgreesExactly`). The index and the revision store agree in
  every reachable state of clean runs (`MvccClient.AgreementAfter`).
* **The on-disk store.** Driven through the same puts and deletes it holds the versions of the
  in-memory one but for create revisions, which differ exactly in a key's later lives
  (`RocksRuns.SameRuns`, `RocksRuns.CreateRevisionsDifferExactly`); scanning the database in byte
  order rebuilds the running index (`RocksStores.Restart`, `RocksRuns.RestartAfter`).
* **Batches are linearizable.** Under every interleaving of the small steps of the shard workers
  a batch ends in the state of its operations applied one at a time
  (`BatchPool.Linearizable`, `BatchStores.Memory.ApplyBatch`). All starts of a batch end in the
  state of log order under every schedule of the workers exactly when each run of puts stays within
  one shard (`BatchSchedules.BatchesDeterministicExactly`).
* **What the etcd-style requests mean.** Ranges, deletions, transactions and committed operations are
  what a relation over the stored entries and the order of the keys says
  (`EtcdAnswers.RangeExact`, `EtcdAnswers.DeletionExact`, `EtcdAnswers.TxnExact`,
  `EtcdAnswers.CommittedExact`). After every run a lease is in the table exactly when it was granted
  and not revoked since, and a put under any other lease is refused (`LeaseRuns.TableExact`,
  `LeaseRuns.PutAccepted`).
* **Optimistic commits.** A MySQL commit goes through exactly when every key read still holds the
  entry last returned (`MySqlTxns.CommitSound`), and then every query would get its answer again
  exactly when no key was returned with two entries and none appeared where a query had looked
  (`MySqlTxns.CommittedQueries`). From begin to end a transaction leaves either nothing or the last
  write of each of its keys (`MySqlTxns.TransactionExact`).
* **From proposal to state machine.** If the log holds the batches a batcher sent, the tasks on the
  commit channel are the proposals it took in, in order and once each, however raft cuts and repeats
  the committed stretches (`ProposalPath.ProposalsArrive`, `ProposalPath.PublishBatches`).
* **Users, roles and tokens.** After every run of operations and restarts, a password, session, role
  or permission is in force exactly when some operation started it and none since has ended it
  (`AuthRuns.FactExact`).
* **Raft terms.** The term just before the first log entry is right in all runs of a shape exactly
  when the snapshot record got it from where history has it (`RaftTerms.EdgeExact`).
* **Leases, elections, publication, restarts.** See the rows of the table for `LeaseTables`,
  `LeaseReads`, `Elections`, `Publishers` and `AuthManagers`.

## Where the code does less than its documentation says

For each of these, the lemmas named say exactly when the promise holds; where a lemma is called a
witness in the table below, it gives a concrete input for which it does not.

* A read can return the value of another key, after a transaction put that key on the revision of
  one it deleted (`MvccReads.DeletedKeyReadsAsAnother`, `MvccReads.ReadsAreReplaysExactly`).
* A transaction's own writes beyond the first cannot be read at revision 0
  (`MvccRuns.TxnHidesItsOwnWrite`, `MvccCurrent.TxnSeenExactly`).
* Compaction drops the version that is still visible at its target
  (`MvccCompaction.CompactionLosesCurrentValue`, `MvccCompaction.CompactionLosesExactly`).
* After a compaction a delete finds keys that were deleted, and misses keys that were not
  (`MvccCompaction.CompactionReopensDeletedKey`, `MvccCompaction.CompactionLosesCurrentValue`,
  `MvccCompaction.DeleteAgreesExactly`).
* A range delete inside a transaction can share a revision with a later operation
  (`MvccReads.SharedRevisionCanBeHarmless`, `MvccRuns.StepAscends`, `MemoryStores.ClashBreaksAgreement`).
* The on-disk store keeps the create revision of a deleted key
  (`RocksRuns.SecondLifeKeepsFirstCreation`, `RocksRuns.CreateRevisionsDifferExactly`).
* The pooled decoder panics on buffers that hold no encoded value (`Codec.ShortBuffersPanic`,
  `Codec.PoolPanicsExactly`).
* Parallel workers draw revisions in schedule order, so replicas may give a key different
  revisions, and with a transaction behind them different values (`BatchSchedules.RaceHappens`,
  `BatchSchedules.BatchesDeterministicExactly`, `BatchOrders.PutScheduleIndependent`).
* A put that moves a key to another lease leaves it in the old lease's key set, and revoking
  the old lease deletes it (`LeaseTables.RevocationTakesMovedKey`, `LeaseTables.PutTidy`).
* Committed puts and grants do not check the lease table (`LeaseTables.PutNamesMissingLease`,
  `LeaseTables.ApplyAttached`).
* A range answer never sets its "more" flag and counts only the entries it returns
  (`EtcdStores.LimitedAnswerLooksComplete`, `EtcdStores.AnswerTellsExactly`).
* A MySQL commit checks neither keys that were absent nor earlier reads of a key read twice
  (`MySqlTxns.PhantomGoesUnnoticed`, `MySqlTxns.RereadGoesUnnoticed`, `MySqlTxns.CommittedQueries`).
* A prefix ending in 0xff gets a range end that returns other keys too, and one made of 0xff
  alone misses some (`PrefixRanges.Overshoot`, `PrefixRanges.PrefixExact`, `PrefixRanges.PrefixCovers`).
* An election object may believe it leads after its lease ran out
  (`Elections.TwoBelieveTheyLead`, `Elections.ElectionSafety`).
* An append that ends below the last index leaves the last index where it was
  (`RaftTerms.ShortAppendLeavesHole`, `RaftLogs.AppendFull`).
* The term just before the first log entry is made up as 0 without a snapshot record, and a
  snapshot taken there copies the term of whatever record came before
  (`RaftTerms.UnrecordedTermIsZero`, `RaftTerms.BorrowedTermIsWrong`, `RaftTerms.EdgeExact`,
  `RaftTerms.RecordExact`).
* The batcher adjusts its parameters only on an empty buffer, so they never move
  (`Batchers.NeverAdapts`).
* A read index registered just after its index was applied waits for the next report
  (`LeaseReads.WakeUpMissed`, `LeaseReads.StrandsExactly`).
* A token is still accepted in the second it runs out, but a restart in that second drops it
  (`AuthManagers.RestartDropsAcceptedToken`, `AuthManagers.RestartKeepsToken`).
* A restart does not find names that begin with the byte 0xff, so a user may be left with a role
  that is gone (`AuthManagers.RestartDropsHeldRole`, `AuthManagers.RunReferences`).

## Model

| member | source | states |
|---|---|---|
| `MvccRuns.HistoryRefinement` | internal/mvcc/memory_store.go:69-281 | in every compaction-free run, whatever its transactions, a read of the log for any key at any revision is the replay of the history visible at that revision pair: the value with its create and mod revision, version and lease, not-found after a delete, or the matching error |
| `MvccRuns.RangeRefinement` | internal/mvcc/memory_store.go:174-230 | in the same runs a range read of the log lists the replayed values of the present keys of the interval in ascending order, cut to the limit, with the same errors |
| `MvccAnswers.RangeIsListing` | internal/mvcc/memory_store.go:174-230 | in every state an unlimited range lists, in ascending key order and once each, what point reads at the same revision return for the keys from the start on and, if there is an end, below it: exactly those that read as present |
| `MvccAnswers.RangeMembers` | internal/mvcc/memory_store.go:174-230 | a KeyValue is in that answer exactly when a key of the interval reads as it |
| `MvccAnswers.RangeLimited` | internal/mvcc/memory_store.go:174-230 | a positive limit keeps that many values from the front; a range fails exactly when a point read of its start fails for another reason than a missing key, with the same error |
| `MvccAnswers.BoundedRange` | internal/mvcc/memory_store.go:174-357 | witness with a bounded end: two keys, the first of them the start; the range lists both, the range delete removes both, and the end itself stays out |
| `MvccAnswers.DeleteRangeRemoves` | internal/mvcc/memory_store.go:284-357 | a range delete removes exactly the open keys from the start on and below the end, leaves the others with their values, and its count is the number of keys gone |
| `MvccAnswers.CommandsMean` | internal/mvcc/memory_store.go:69-500 | in every compaction-free run every command changes the replayed record of every key as one line per operation says: a put keeps the create revision and counts the version up or starts both anew, deletes remove the key or the interval, a transaction does what its operations do in order, an empty key does nothing |
| `MvccAnswers.ConditionsCompareReplay` | internal/mvcc/memory_store.go:502-575 | after every compaction-free run each target equals exactly one number, that field of the replayed record or 0; less holds for exactly the larger numbers, greater for the smaller, not-equal for all others; values compare the same way in byte order |
| `MvccAnswers.TxnBranch` | internal/mvcc/memory_store.go:462-500 | a transaction takes its Then operations exactly when every condition is met by the replayed record of its key, else the Else operations |
| `MvccAnswers.CompareAndSwap` | internal/mvcc/memory_store.go:502-575 | witness: after two puts of a key, modification revision 2 and a version above 1 hold, create revision 2 does not |
| `MvccAnswers.TxnAnswers` | internal/mvcc/memory_store.go:577-734 | every response is right over the history its operation ran on: a get gives the replayed record, a range get those of its interval in key order, a delete the number of keys it found |
| `MvccAnswers.TxnHistoryMeans` | internal/mvcc/memory_store.go:577-734 | that history is the one before the transaction changed, key by key, by the operations before it |
| `MvccAnswers.RevisionDrawn` | internal/mvcc/memory_store.go:69-500 | a command moves the revision on by one exactly when it is a put, a delete or range delete that finds a key, or any transaction; only a range delete leaves a sub-revision, one less than the keys it removed |
| `MvccAnswers.CompactionAccepted` | internal/mvcc/memory_store.go:382-422 | after every run a compaction takes effect exactly when its target is above the last one and no later than the current revision |
| `MvccSpec.ReadIsReplay` | internal/mvcc/memory_store.go:124-171 | the newest entry of a key at or below a revision carries what replaying the visible events of that key gives |
| `MvccRuns.RunDistinct` | internal/mvcc/memory_store.go:462-500 | without compactions, the revisions of the whole log are pairwise distinct if and only if every command of the run was clean |
| `MvccRuns.StepAscends` | internal/mvcc/memory_store.go:577-734 | one command keeps the log in strictly ascending, distinct revisions if and only if no operation of a transaction writes past the sub-revision of a later writing one |
| `MvccRuns.DeleteRangeLastIsClean` | internal/mvcc/memory_store.go:693-734 | a transaction whose range delete comes last is clean in every state |
| `MvccReads.StoreReadExact` | internal/mvcc/memory_store.go:124-171 | in a history where only deletes share their revision with a later event, the read through index and revision store is the read of the log if and only if the last visible event of the key is not a delete whose revision a later put took |
| `MvccReads.TxnHarmless` | internal/mvcc/memory_store.go:577-734 | a transaction leaves no delete whose revision a put took and whose key is not written again, if and only if none of its puts lands on the sub-revision of a key that an earlier range delete of it removes for good |
| `MvccReads.HarmlessReads` | internal/mvcc/memory_store.go:124-171 | in every compaction-free run without a harmful transaction, a read through index and revision store at any revision is the replay of the visible history, also where revisions are shared |
| `MvccReads.HarmlessRanges` | internal/mvcc/memory_store.go:174-230 | the same for range reads |
| `MvccReads.HarmShows` | internal/mvcc/memory_store.go:577-734 | after any run, any harmful transaction and any put of another key, reading the deleted key returns the KeyValue of the key that took its revision, where the replay says not found |
| `MvccReads.ReadsAreReplaysExactly` | internal/mvcc/memory_store.go:60-281 | the reads of a compaction-free run, and those after one more put at any point of it, are all replays if and only if no transaction of the run was harmful for the keys open before it |
| `MvccReads.DeletedKeyReadsAsAnother` | internal/mvcc/memory_store.go:693-734 | witness: two puts, a transaction that deletes both keys and puts a third, one more put; then the second key reads as the third at revision 4, which is current |
| `MvccReads.SharedRevisionCanBeHarmless` | internal/mvcc/memory_store.go:693-734 | witness: a transaction that deletes two keys and puts the second again shares a revision, yet misleads no read |
| `MvccCompaction.CompactionEffect` | internal/mvcc/memory_store.go:382-422 | after every run and every accepted compaction to t, point reads below t are rejected, a read at or above t answers as before if the newest revision it sees is at or above t, and not-found otherwise; the compacted revision grows |
| `MvccCompaction.CompactionLosesExactly` | internal/mvcc/memory_store.go:382-422 | after every run and for every target, a compaction changes the answer of a point read if and only if it is accepted and the read, at or above the target, returned a value written below it, or, below the target, was not rejected before |
| `MvccCompaction.RunRises` | internal/mvcc/memory_store.go:60-500 | along the log of every run, whatever its compactions and transactions, main revisions never fall |
| `MvccCompaction.RangeCompactionEffect` | internal/mvcc/memory_store.go:174-230 | a range read after an accepted compaction lists, of the whole listing before it, what was written at or above the target, cut to the limit |
| `MvccCompaction.RangeCompactionLosesExactly` | internal/mvcc/memory_store.go:174-230 | the answer of a range read changes if and only if the compaction is accepted and one of the values listed was written below the target, or the read is newly rejected |
| `MvccCompaction.OpenAfterCompaction` | internal/mvcc/key_index.go:264-317 | after every run and accepted compaction, a key counts as open if and only if the run has written it at or above the target, deleted since or not |
| `MvccCompaction.DeleteAgreesExactly` | internal/mvcc/memory_store.go:233-281 | a delete after the compaction finds a key exactly when the replay of all that was written has it, if and only if the key was never written, last put at or above the target, or last deleted below it |
| `MvccCompaction.CompactionLosesCurrentValue` | internal/mvcc/key_index.go:264-317 | witness: two puts and a compaction to 2; the first key, current at 2, is neither read nor found by a delete any more |
| `MvccCompaction.CompactionReopensDeletedKey` | internal/mvcc/key_index.go:264-317 | witness: put, delete, compaction to 2; the deleted key counts as open again |
| `MvccCurrent.EndOfIs` | internal/mvcc/memory_store.go:577-734 | after the first n operations of a transaction a key holds nothing, what it held before, or the last value put with version and create revision counted from its last creation |
| `MvccCurrent.TxnSeenExactly` | internal/mvcc/memory_store.go:462-500 | right after a transaction, reads of all keys at revision 0 are replays of the whole history if and only if its operations leave of every key what the event at sub-revision 0 alone leaves |
| `MvccCurrent.CurrentSeesAllExactly` | internal/mvcc/memory_store.go:60-500 | over every compaction-free run, reads at revision 0 are replays of the whole history if and only if the last command that wrote was no transaction or one seen at once |
| `MvccCurrent.StoreSeesAllExactly` | internal/mvcc/memory_store.go:124-171 | the same for reads through index and revision store in runs without a harmful transaction |
| `MvccRuns.TxnHidesItsOwnWrite` | internal/mvcc/memory_store.go:487-500 | witness: after a transaction with two puts the second key is not found at revision 0 |
| `MvccTheorems.RunInv` | internal/mvcc/memory_store.go:70-422 | in every reachable state the entries lie between the compacted and the current revision, carry their own main revision, and the live value of each open key is its newest entry |
| `KeyIndexes.FindIsLatest` | internal/mvcc/key_index.go:85-128 | the generation search returns the greatest retained revision at or below its argument, or none |
| `KeyIndexes.BinarySearchRevision` | internal/mvcc/key_index.go:107-128 | the loop returns the index of the greatest revision at or below the target, or -1 when all are above |
| `KeyIndexes.FindRevision` | internal/mvcc/key_index.go:85-103 | the generations searched from the newest give the specified lookup |
| `KeyIndexes.CompactItem` | internal/mvcc/key_index.go:264-317 | one item keeps exactly its revisions at or above the target, loses empty generations, and the removed count is the number dropped |
| `KeyIndexes.CompactAll` | internal/mvcc/key_index.go:264-317 | over all keys the kept revisions and the removed total match key by key |
| `KeyIndexes.KeyIndex.constructor` | internal/mvcc/key_index.go:131-135 | a new index is empty |
| `KeyIndexes.KeyIndex.GetRevision` | internal/mvcc/key_index.go:152-158 | the lookup through the tree is the specified one |
| `KeyIndexes.KeyIndex.Put` | internal/mvcc/key_index.go:162-196 | a put appends the revision, opening a generation when the key is absent or deleted; other keys are untouched |
| `KeyIndexes.KeyIndex.Delete` | internal/mvcc/key_index.go:200-224 | a delete ends the open generation with its revision, and reports whether there was one |
| `KeyIndexes.KeyIndex.Range` | internal/mvcc/key_index.go:230-260 | the loop over the ascending keys returns the hits of the interval, which RangeHitsExact describes by the order of the keys |
| `KeyIndexes.RangeHitsExact` | internal/mvcc/key_index.go:230-260 | in ascending key order, exactly the keys from the start on and below the end that have a visible revision, each with that revision |
| `KeyIndexes.KeyIndex.RevisionCount` | internal/mvcc/key_index.go:327-340 | the count is the total number of revisions over all keys |
| `KeyIndexes.KeyIndex.Compact` | internal/mvcc/key_index.go:264-317 | every key keeps exactly its revisions at or above the target, and the returned count is the drop in the revision count |
| `KeyIndexes.PutTreeOk` | internal/mvcc/key_index.go:162-196 | appending a later revision keeps an item well formed |
| `MemoryStores.MemoryStore.constructor` | internal/mvcc/memory_store.go:60-67 | a new store represents the empty log at revision zero |
| `MemoryStores.MemoryStore.Put` | internal/mvcc/memory_store.go:70-121 | the new state is the specified step; the result is the new revision or the error |
| `MemoryStores.MemoryStore.Get` | internal/mvcc/memory_store.go:124-171 | the read is what the revision store holds under the newest visible revision the index lists for the key, in every state of the store, error cases included |
| `MemoryStores.MemoryStore.Range` | internal/mvcc/memory_store.go:174-230 | in every state of the store the answer is StoreRange, which RangeIsListing and RangeLimited describe by point reads, cut to the limit, with the error cases |
| `MemoryStores.MemoryStore.Delete` | internal/mvcc/memory_store.go:233-281 | the new state is the specified step; the result says whether a live key was deleted |
| `MemoryStores.MemoryStore.DeleteRange` | internal/mvcc/memory_store.go:284-357 | refines the step, which DeleteRangeRemoves describes: the open keys of the half-open interval get tombstones on consecutive sub-revisions; their number is returned, with the error cases |
| `MemoryStores.MemoryStore.Compact` | internal/mvcc/memory_store.go:382-422 | accepted exactly for targets above the compacted and at most the current revision; then index and store forget what lies below |
| `MemoryStores.MemoryStore.Close` | internal/mvcc/memory_store.go:425-445 | the store is marked closed, the second call is an error, and no data changes |
| `MemoryStores.MemoryStore.EvaluateCondition` | internal/mvcc/memory_store.go:502-575 | a condition is evaluated against the newest entry of an open key, a missing key as zeros and an empty value; ConditionsCompareReplay says which numbers and values each comparison admits |
| `MemoryStores.MemoryStore.ExecuteOp` | internal/mvcc/memory_store.go:577-734 | an operation leaves the events of the specification at its sub-revision and returns its response |
| `MemoryStores.MemoryStore.Commit` | internal/mvcc/memory_store.go:462-500 | all conditions are evaluated, the chosen operations run in order on what their predecessors left, and the responses are those TxnAnswers describes; succeeded tells the branch |
| `MemoryStores.AgreementHolds` | internal/mvcc/memory_store.go:69-422 | with unique revisions the index lists exactly the stored revisions, each under its own key and main revision, ascending per key and disjoint across keys |
| `MemoryStores.ClashBreaksAgreement` | internal/mvcc/memory_store.go:693-734 | a repeated revision makes index and store disagree |
| `MvccClient.Execute` | internal/mvcc/memory_store.go:60-500 | the imperative store driven through any list of commands is in the state of the specification run |
| `MvccClient.ReadAfter` | internal/mvcc/memory_store.go:60-281 | end to end: the store, after any compaction-free list of commands without a harmful transaction, answers each point read with the replay, errors included |
| `MvccClient.RangeAfter` | internal/mvcc/memory_store.go:60-230 | end to end: the same for range reads |
| `MvccClient.CommitAfter` | internal/mvcc/memory_store.go:60-734 | end to end: after any compaction-free list of commands a transaction on the store succeeds exactly when every condition is met by the replayed record of its key, and every response answers over the history its operation ran on |
| `MvccClient.CompactBetweenReads` | internal/mvcc/memory_store.go:60-422 | end to end: the store runs any commands, answers a point read, compacts and answers it again; the answers differ exactly when the compaction loses the read |
| `MvccClient.CompactBetweenRanges` | internal/mvcc/memory_store.go:60-422 | end to end: the same for range reads |
| `MvccClient.ReadAfterCompaction` | internal/mvcc/memory_store.go:60-422 | end to end: after a compaction-free run without a harmful transaction and one compaction, a read at or above the target is the replay, or not-found if that was written below the target |
| `MvccClient.DeleteAfterCompaction` | internal/mvcc/memory_store.go:60-422 | end to end: after any commands and an accepted compaction, a delete counts one key exactly when the key was written at or above the target |
| `MvccClient.AgreementAfter` | internal/mvcc/memory_store.go:60-422 | end to end: after any clean list of commands, compactions included, index and store agree |
| `Codec.RevRoundTrip` | internal/mvcc/revision.go:88-116 | parsing the bytes of a revision gives it back |
| `Codec.RevLayout` | internal/mvcc/revision.go:88-100 | main number, then sub number, highest byte first |
| `Codec.ParseRevRoundTrip` | internal/mvcc/revision.go:88-116 | the bytes of a parsed revision are the 16 bytes parsed |
| `Codec.RevBytesOrder` | internal/mvcc/revision.go:45-100 | the bytes of non-negative revisions sort as the revisions compare |
| `Codec.DecodeEncode` | internal/mvcc/key_value.go:124-189 | decoding an encoded value, with any bytes behind it, gives the value back |
| `Codec.EncodeDecode` | internal/mvcc/key_value.go:151-189 | whatever the decoder accepts begins with the encoding of the value it returns |
| `Codec.EncodingLayout` | internal/mvcc/key_value.go:124-148 | byte by byte: the two lengths, create revision, modification revision, version and lease at their offsets, highest byte first, then key and value |
| `Codec.EncodedVersion` | internal/mvcc/key_value.go:124-189 | whatever the field lengths, an encoded value decodes to its own version and create revision |
| `Codec.Encode` | internal/mvcc/key_value.go:124-148 | the buffer filled field by field is the specified encoding |
| `Codec.Decode` | internal/mvcc/key_value.go:151-189 | the decoding loop over offsets is the specified decoding and stays in bounds |
| `Codec.PoolDecodeEncode` | internal/rocksdb/pools.go:82-143 | the pooled codec decodes what it encodes |
| `Codec.PoolLayout` | internal/rocksdb/pools.go:82-108 | byte by byte: each length before its field, then create revision, modification revision, version and lease, lowest byte first |
| `Codec.PoolPanicsExactly` | internal/rocksdb/pools.go:111-143 | the pooled decoder panics on exactly the buffers of eight bytes or more that do not begin with an encoded value |
| `Codec.ShortBuffersPanic` | internal/rocksdb/pools.go:111-143 | witnesses: every buffer of eight to thirty-nine bytes makes the pooled decoder panic |
| `Codec.PoolEncode` | internal/rocksdb/pools.go:82-108 | the pooled encoder writes the specified bytes |
| `Codec.PoolDecode` | internal/rocksdb/pools.go:111-143 | the pooled decoder gives the specified value, no value, or panic |
| `RocksStores.ParseInvertsStorageKey` | internal/mvcc/rocksdb_store.go:160-189 | parsing a storage key gives back the user key and the revision |
| `RocksStores.StorageKeyInvertsParse` | internal/mvcc/rocksdb_store.go:160-189 | a key that parses is the storage key of what it parses to |
| `RocksStores.StorageOrder` | internal/mvcc/rocksdb_store.go:160-167 | the versions of one key lie in the database in revision order |
| `RocksStores.SameMarksSameIndex` | internal/mvcc/rocksdb_store.go:121-156 | two orders of the same versions build the same index if both keep each key ascending |
| `RocksStores.RestartEquivalence` | internal/mvcc/rocksdb_store.go:121-156 | scanning the database in byte order rebuilds the index that the run built |
| `RocksStores.RebuildKeyIndex` | internal/mvcc/rocksdb_store.go:121-156 | the scanning loop computes that index |
| `RocksStores.RocksStore.constructor` | internal/mvcc/rocksdb_store.go:61-118 | opening loads the two revisions from the metadata keys and rebuilds the index, on any database |
| `RocksStores.RocksStore.Put` | internal/mvcc/rocksdb_store.go:202-267 | a put writes the version and the current revision; the database still holds exactly the log |
| `RocksStores.RocksStore.Delete` | internal/mvcc/rocksdb_store.go:384-448 | a delete of an open key writes its tombstone; otherwise nothing changes |
| `RocksStores.RocksStore.DeleteRange` | internal/mvcc/rocksdb_store.go:451-537 | each open key of the interval gets a tombstone on its own sub-revision, and their number is returned |
| `RocksStores.Restart` | internal/mvcc/rocksdb_store.go:61-156 | reopening the database of a running store gives the same index and the same revisions |
| `RocksRuns.HistoryAgreement` | internal/mvcc/rocksdb_store.go:202-537 | for every history that deletes only present keys, each version the on-disk store writes is the one of the specification but for its create revision, which is that of the first life, and equal if and only if the key had not been deleted before |
| `RocksRuns.SameRuns` | internal/mvcc/rocksdb_store.go:202-537 | through any puts, deletes and range deletes the on-disk store and the specification reach the same revision and write the same versions, create revisions aside |
| `RocksRuns.CreateRevisionsDifferExactly` | internal/mvcc/rocksdb_store.go:202-267 | the create revision of an entry is that of the specification if and only if no earlier entry of its key is a tombstone, and smaller otherwise |
| `RocksRuns.SecondLifeKeepsFirstCreation` | internal/mvcc/rocksdb_store.go:202-267 | witness: put, delete, put, put; both entries of the second life carry create revision 1 on disk and 3 in memory |
| `RocksRuns.Execute` | internal/mvcc/rocksdb_store.go:61-537 | end to end: the store opened on an empty database and driven through any puts, deletes and range deletes holds the predicted log at the predicted revision |
| `RocksRuns.RestartAfter` | internal/mvcc/rocksdb_store.go:61-156 | end to end: run the commands, then restart; the reopened store holds the versions of the specification run, create revisions aside |
| `ShardedMaps.ShardedMap.constructor` | internal/memory/sharded_map.go:45-51 | a new map is empty |
| `ShardedMaps.ShardedMap.Get` | internal/memory/sharded_map.go:62-71 | the lookup in the shard of a key is the lookup in the one map the shards represent |
| `ShardedMaps.ShardedMap.Set` | internal/memory/sharded_map.go:74-82 | the represented map is updated at that key only |
| `ShardedMaps.ShardedMap.Delete` | internal/memory/sharded_map.go:85-93 | the represented map loses that key only |
| `ShardedMaps.ShardedMap.Range` | internal/memory/sharded_map.go:97-135 | whatever order the shards are walked in, the result is what is stored in the half-open interval (unbounded for the end "\x00") sorted by the keys the entries carry and cut to the limit; where each entry carries its own key, the strictly ascending listing |
| `ShardedMaps.ShardedMap.RangeFunc` | internal/memory/sharded_map.go:139-178 | the callback gets a prefix of such a listing, and the walk ends early only when the callback says so |
| `ShardedMaps.ShardedMap.Len` | internal/memory/sharded_map.go:181-200 | the sum over the shards is the size of the represented map |
| `ShardedMaps.ShardedMap.GetAll` | internal/memory/sharded_map.go:221-242 | the copy is the represented map |
| `ShardedMaps.ShardedMap.SetAll` | internal/memory/sharded_map.go:245-266 | the represented map becomes the given one |
| `ShardedMaps.ShardedMap.Clear` | internal/memory/sharded_map.go:203-218 | the represented map becomes empty |
| `ShardedMaps.SortedCollected` | internal/memory/sharded_map.go:97-135 | sorting any collection of the entries of the interval gives the ascending listing |
| `ShardedMaps.ZeroAndOneApart` | internal/memory/sharded_map.go:55-59 | witness: the keys "\x00" and "\x01" hash to different shards |
| `EtcdSpec.DropAllExact` | internal/memory/store_direct.go:142-179 | dropping keys one after another removes exactly them, and each from the set of the lease it named |
| `EtcdStores.MemoryEtcd.constructor` | internal/memory/store.go:58-66 | a new store has no keys, no leases and revision 0 |
| `EtcdStores.MemoryEtcd.RangeResponseOf` | internal/memory/store.go:74-101 | the answer is the listing of the interval cut to the limit, its length as count, and never the more flag |
| `EtcdStores.LimitedAnswerLooksComplete` | internal/memory/store.go:74-101 | witness: the store takes two puts and answers a range query with a limit of one by a count of one and no more flag |
| `EtcdStores.AnswerTellsExactly` | internal/memory/store.go:74-101 | the count is of all keys covered and the more flag set exactly when some were not returned, if and only if the query names one key, has no limit, or a limit the interval does not exceed |
| `EtcdStores.MemoryEtcd.Store` | internal/memory/store_direct.go:47-92 | a direct put draws the next revision, stores the entry and attaches it to its lease if that is in the table |
| `EtcdStores.MemoryEtcd.DeleteDirectly` | internal/memory/store_direct.go:107-179 | a direct delete removes the key or the interval and draws one revision for each key removed |
| `EtcdStores.MemoryEtcd.GrantDirectly` | internal/memory/store_direct.go:222-235 | a committed grant replaces what the table held under that lease |
| `EtcdStores.MemoryEtcd.RevokeDirectly` | internal/memory/store_direct.go:237-260 | a committed revocation removes the lease and then its stored keys, one revision each, whatever the order of the walk |
| `EtcdStores.MemoryEtcd.PutWithLease` | internal/memory/store.go:104-168 | refused exactly for a lease that is unknown or expired, with nothing changed; otherwise the put of the specification |
| `EtcdStores.MemoryEtcd.DeleteRange` | internal/memory/store.go:171-247 | removes what DeletionExact describes, the key or the whole interval, at one new revision, none if nothing matches, and returns the entries removed and their number |
| `EtcdAnswers.RangeExact` | internal/memory/store.go:74-98 | a range lists exactly the stored entries it names, the key itself or every key from it on and below the end with the zero byte for no end, in ascending order; a positive limit keeps that many from the front; count and revision |
| `EtcdAnswers.ListedOnce` | internal/memory/store.go:74-98 | only one sequence of entries lists a request, so the answer is determined by what is stored |
| `EtcdAnswers.DeletionExact` | internal/memory/store.go:171-247 | an entry stays, unchanged, exactly when the request does not name it; a removed key leaves the set of the lease its entry named and no other; one revision if anything went; the answer counts and lists what went; the committed form removes the same and draws one revision each |
| `EtcdAnswers.DeletedIsGone` | internal/memory/store.go:171-247 | the same range asked right after the deletion lists nothing |
| `EtcdAnswers.TwoKeysDeleted` | internal/memory/store.go:171-247 | witness: two keys, the first of them the start of the interval; the range lists both and the deletion removes both at one revision |
| `EtcdAnswers.ComparesFields` | internal/memory/store.go:326-393 | each target equals exactly one number, that field of the entry or 0 for a missing key, and is greater than exactly the smaller numbers; values compare in byte order |
| `EtcdAnswers.ComparesTrichotomy` | internal/memory/store.go:326-393 | on every target exactly one of less, equal and greater holds, and not-equal is the other two |
| `EtcdAnswers.TxnExact` | internal/memory/store.go:259-323 | the first branch is taken exactly when every comparison is met by the stored entry; its operations run through states in which each does to the entries, leases and revision, and answers, what is written out for it; the run fails exactly at a put under a lease that is missing or expired, with the operations before it in place |
| `EtcdAnswers.CommittedExact` | internal/memory/kvstore.go:196-246 | every committed operation: a put stores the entry and attaches it, a deletion removes what it names at one revision each, a transaction runs the branch that is met, a grant changes no entry, a revocation draws one revision for each entry gone |
| `EtcdStores.MemoryEtcd.EvaluateCompare` | internal/memory/store.go:326-393 | a comparison is evaluated on the stored entry, a missing key as zero or the empty value |
| `EtcdStores.MemoryEtcd.ExecuteOp` | internal/memory/store.go:277-316 | one operation of a transaction has the effect and the response TxnExact describes, or is refused with nothing changed |
| `EtcdStores.MemoryEtcd.Txn` | internal/memory/store.go:259-323 | the chosen operations run in order; a refused one ends the transaction with an error and leaves the earlier effects in place |
| `EtcdStores.MemoryEtcd.LeaseGrant` | internal/memory/watch.go:235-253 | refused exactly when the lease exists; otherwise the table gains it with no keys |
| `EtcdStores.MemoryEtcd.LeaseRevoke` | internal/memory/watch.go:256-308 | the stored keys of the lease go, one revision each, and the lease leaves the table, as RevocationExact describes; refused exactly when there is no such lease |
| `BatchPool.Linearizable` | internal/memory/batch_apply.go:157-236 | for every list of puts and single-key deletes and every interleaving of the draw, write and lease steps of the shard workers, the finished run leaves the state of the operations applied one at a time in an order that keeps each shard's own and is a permutation |
| `BatchPool.StepAgrees` | internal/memory/batch_apply.go:194-236 | each small step of a worker keeps the agreement between the shared state and the operations that have taken effect so far |
| `BatchPool.MergeIsPermutation` | internal/memory/batch_apply.go:157-185 | an order that keeps every shard's own loses, adds and repeats nothing |
| `BatchPool.MergeKeepsKeyOrder` | internal/memory/batch_apply.go:157-185 | such an order keeps the order of the operations on every key |
| `BatchOrders.EveryMergeHappens` | internal/memory/batch_apply.go:157-185 | every order that keeps each shard's own is the order of some finished interleaving |
| `BatchOrders.PutRunAgreement` | internal/memory/batch_apply.go:157-236 | whatever the schedule, a run of puts ends in the same keys, values, versions, leases, lease table and counter, the counter advanced by the number of puts |
| `BatchOrders.LastPutRevision` | internal/memory/batch_apply.go:194-223 | the n-th put to take effect gets the n-th revision after the old one, and a key shows the value, lease and revision of its last put |
| `BatchOrders.PutRunKey` | internal/memory/batch_apply.go:194-223 | a stored key keeps its create revision, a new one takes that of its first put, and the version counts the puts |
| `BatchOrders.TwoShardsDiffer` | internal/memory/batch_apply.go:165-196 | a run of puts over two shards has an order that gives a key another revision |
| `BatchOrders.PutRunDeterministic` | internal/memory/batch_apply.go:157-185 | all permitted orders of a run of puts give the state of log order if and only if its keys share one shard |
| `BatchOrders.PutScheduleIndependent` | internal/memory/batch_apply.go:157-236 | the same for the interleavings of the workers themselves |
| `BatchRuns.DeletesExact` | internal/memory/batch_apply.go:244-335 | a run of deletes removes exactly the stored keys it covers, takes each off its lease, and advances the revision by their number |
| `BatchRuns.DeleteRunExact` | internal/memory/batch_apply.go:244-304 | single-key deletes first and in parallel, range deletes after: the run ends in the state of log order, whatever the schedule |
| `BatchRuns.RunsAreRuns` | internal/memory/batch_apply.go:119-134 | the batch is cut into maximal runs of one kind that cover it in order |
| `BatchRuns.SameApply` | internal/memory/kvstore.go:196-246 | operations other than transactions cannot tell apart two states that differ only in revisions |
| `BatchRuns.BatchUpToRevisions` | internal/memory/batch_apply.go:52-147 | a batch without transactions ends, under every permitted order of its runs, in the keys, values, versions, leases and counter of log order |
| `BatchRuns.BatchExact` | internal/memory/batch_apply.go:52-147 | a batch, transactions included, ends exactly in the state of log order when each of its runs of puts stays within one shard |
| `BatchSchedules.SchedulesAreOrders` | internal/memory/batch_apply.go:52-147 | with one schedule for each run of the batch, the finished workers leave the state of permitted orders of the runs |
| `BatchSchedules.OrdersAreSchedules` | internal/memory/batch_apply.go:52-147 | permitted orders of the runs of a batch are the outcome of finished schedules of its workers |
| `BatchSchedules.SchedulesAgreeUpToRevisions` | internal/memory/batch_apply.go:52-147 | a batch without transactions ends, under every finished schedule of the workers, in the keys, values, versions, leases and counter of log order |
| `BatchSchedules.BatchesDeterministicExactly` | internal/memory/batch_apply.go:52-147 | every start of a batch, transactions included, ends under every finished schedule of the workers in the state of log order if and only if each run of puts of the batch stays within one shard |
| `BatchSchedules.ScheduleDecidesValue` | internal/memory/batch_apply.go:52-147 | from every state, two puts to different shards and a transaction that compares the revision of the first have two finished schedules of the workers that leave different values |
| `BatchSchedules.RaceHappens` | internal/memory/batch_apply.go:157-185 | witness: with the keys "\x00" and "\x01" two schedules leave a third key with different values |
| `BatchStores.GroupByShard` | internal/memory/batch_apply.go:158-163 | grouping gives each shard its operations in order |
| `BatchStores.SplitDeletes` | internal/memory/batch_apply.go:245-255 | single-key and range deletes are separated in order |
| `BatchStores.WorkShrinks` | internal/memory/batch_apply.go:165-184 | a worker that has something to do makes progress, so the workers finish |
| `BatchStores.Memory.Move` | internal/memory/batch_apply.go:194-236 | one step of a worker on the store is the step of the model |
| `BatchStores.Memory.RunWorkers` | internal/memory/batch_apply.go:157-185 | the workers moved in any interleaving until done leave the state of some permitted order |
| `BatchStores.Memory.BatchApplyDelete` | internal/memory/batch_apply.go:244-273 | a run of deletes leaves the state of an order with the single keys first, then the ranges |
| `BatchStores.Memory.Flush` | internal/memory/batch_apply.go:82-117 | a run is applied by its kind, in an order permitted for it |
| `BatchStores.Memory.ApplyBatch` | internal/memory/batch_apply.go:52-134 | the state after a batch is that of its operations applied one at a time, run after run, each run in a permitted order |
| `BatchStores.Memory.ApplyOperation` | internal/memory/kvstore.go:196-246 | a single committed operation has the effect of the specification; unknown kinds have none |
| `LeaseTables.CallRunAttached` | internal/memory/store.go:104-247 | after every run of puts, deletes, transactions, grants and revocations, a stored key that names a lease has that lease in the table and is in its key set |
| `LeaseTables.RevokedLeaseGone` | internal/memory/watch.go:256-308 | after any run, revoking a lease leaves no stored key that names it |
| `LeaseRuns.TableExact` | internal/memory/watch.go:235-308 | after every run of calls a lease is in the table exactly when it was granted and not revoked since |
| `LeaseRuns.PutAccepted` | internal/memory/store.go:104-128 | after every run a put takes effect exactly when it names no lease, or one granted, not revoked since and not expired; otherwise it changes nothing |
| `LeaseRuns.RevokedRefuses` | internal/memory/store.go:104-128 | a put under a lease right after its revocation changes nothing |
| `LeaseRuns.RevocationExact` | internal/memory/watch.go:256-308 | exactly the stored keys in the set of the lease go, the other entries and the other key sets stay, the lease leaves the table, and the revision grows by the number of entries gone |
| `LeaseRuns.RevokedThenGranted` | internal/memory/watch.go:235-308 | witness: grant, put, revoke, put again, grant: the second put is refused and the new grant starts with no keys |
| `LeaseRuns.CommittedTableExact` | internal/memory/store_direct.go:222-260 | the same table over every list of committed operations |
| `LeaseRuns.CommittedLeases` | internal/memory/store_direct.go:222-260 | a committed revocation removes the same entries at the same revisions and takes each out of the set of the lease its entry names; a committed grant empties the key set |
| `LeaseTables.PutAttached` | internal/memory/store_direct.go:47-92 | a direct put keeps the attachment if and only if it names no lease or one in the table |
| `LeaseTables.GrantAttached` | internal/memory/store_direct.go:222-235 | a committed grant keeps the attachment if and only if no stored key names the lease it resets |
| `LeaseTables.ApplyAttached` | internal/memory/kvstore.go:196-246 | a committed operation keeps the attachment if and only if it is neither a put under a missing lease nor a grant over a lease in use |
| `LeaseTables.PutNamesMissingLease` | internal/memory/store_direct.go:47-92 | witness: a committed put under a lease nobody granted leaves a key attached to nothing |
| `LeaseTables.RevokeDirectAttached` | internal/memory/store_direct.go:237-260 | a committed revocation keeps the attachment and leaves no key that names the lease |
| `LeaseTables.PutTidy` | internal/memory/store.go:423-470 | a usable put keeps every key set exact if and only if it does not take the key off another lease |
| `LeaseTables.MovedKeyLost` | internal/memory/watch.go:256-308 | a key moved to another lease is deleted by revoking the former one |
| `LeaseTables.RevocationTakesMovedKey` | internal/memory/watch.go:256-308 | witness: two grants and two puts after which revoking the first lease deletes a key of the second |
| `LeaseTables.StayingRunTidy` | internal/memory/watch.go:235-308 | over every run that moves no key, each revocation removes exactly the keys that name its lease |
| `MySqlTxns.CommitSound` | api/mysql/handler.go:300-386 | after any interleaving with calls of other clients and with committed operations from the log, a commit goes through if and only if every key the transaction read still holds the very entry last returned for it |
| `MySqlTxns.CommittedReads` | api/mysql/query.go:107-116 | of a commit that goes through, all reads still stand if and only if no key was returned with two different entries |
| `MySqlTxns.QueryStands` | api/mysql/query.go:75-116 | a query asked again gets its recorded answer if and only if every entry returned is still current and no key is stored, in its interval and before the cut of its limit, that the answer does not list |
| `MySqlTxns.CommittedQueries` | api/mysql/handler.go:300-386 | of a commit that goes through, every recorded query would get its answer again if and only if no key was returned with two different entries and no unlisted key appeared where a query had looked |
| `MySqlTxns.ApplyFollows` | internal/memory/store_direct.go:47-260 | a committed operation leaves every entry as it was or writes it at a newer revision |
| `MySqlTxns.CommitWrites` | api/mysql/handler.go:334-353 | the buffered writes go in together and in order: for each key the last one decides, and no other key changes |
| `MySqlTxns.Buffered` | api/mysql/handler.go:279-297 | while a transaction is open the store changes only by what others do, and the writes are kept in order |
| `MySqlTxns.TransactionExact` | api/mysql/handler.go:279-411 | from begin to end: a rollback, a commit without writes, and a commit one of whose reads no longer stands leave nothing behind; any other commit makes the last write of every key, and nothing else, visible |
| `MySqlTxns.RunInv` | internal/memory/store.go:259-323 | along every run a key and a mod revision determine the entry, so an entry once read is either current or superseded for good |
| `MySqlTxns.PhantomGoesUnnoticed` | api/mysql/query.go:107-116 | witness: a key that a query did not find appears before the commit, which goes through although the query would now get another answer |
| `MySqlTxns.RereadGoesUnnoticed` | api/mysql/query.go:107-116 | witness: a key read twice with different entries, and the commit goes through |
| `MySqlTxns.MySQLHandler.constructor` | api/mysql/handler.go:60-68 | a new connection has no transaction |
| `MySqlTxns.MySQLHandler.HandleBegin` | api/mysql/handler.go:279-297 | opens a transaction, or refuses when one is open |
| `MySqlTxns.MySQLHandler.HandleSelect` | api/mysql/query.go:75-116 | answers from the current state and records the mod revision of every entry returned |
| `MySqlTxns.MySQLHandler.HandleWrite` | api/mysql/query.go:256-400 | buffers the write in a transaction and executes it at once outside one; one row is affected, none exactly for a delete at once of a key that is not stored |
| `MySqlTxns.MySQLHandler.BuildCompares` | api/mysql/handler.go:321-332 | the comparisons hold in a state exactly when every recorded read does |
| `MySqlTxns.MySQLHandler.HandleCommit` | api/mysql/handler.go:300-386 | commits, reports a conflict exactly when a read no longer holds, or cleans up an empty transaction |
| `MySqlTxns.MySQLHandler.HandleRollback` | api/mysql/handler.go:389-411 | drops the transaction and changes no data |
| `PrefixRanges.GetPrefixEndKey` | api/mysql/query.go:709-727 | the carrying loop computes the specified end key |
| `PrefixRanges.PrefixExact` | api/mysql/query.go:709-727 | the interval from a prefix to its end key holds exactly the keys with the prefix if and only if the prefix is empty or its last byte is not 0xff |
| `PrefixRanges.PrefixCovers` | api/mysql/query.go:709-727 | the interval holds every key with the prefix if and only if the prefix is empty or some byte of it is not 0xff |
| `PrefixRanges.EndIsAnEnd` | api/mysql/query.go:709-727 | the end key is never empty, which would mean a single key, and is the open end exactly for the empty prefix |
| `PrefixRanges.Overshoot` | api/mysql/query.go:709-727 | for a prefix ending in 0xff the interval holds a key without the prefix |
| `Elections.ElectionSafety` | pkg/concurrency/election.go:53-163 | in every run of campaigns, probes, failures, resignations, expiries and other writes, the elections whose recorded key is still stored as it was created all belong to one session |
| `Elections.LeaderQueryAgrees` | pkg/concurrency/election.go:166-180 | while a session leads, the first created key is its key and no other |
| `Elections.OfficeExact` | pkg/concurrency/election.go:53-163 | in every run an election is set as leader exactly when a campaign of it got through and it has not resigned since |
| `Elections.KeyStep` | pkg/concurrency/election.go:53-163 | a key is there after a step exactly when the step creates it, or it was there and the step does not delete it; it keeps its create revision, and a new one gets the next |
| `Elections.RunInv` | pkg/concurrency/election.go:104-148 | once a wait has passed, no stored key of the election is ever older than it |
| `Elections.KeyInjective` | pkg/concurrency/election.go:67 | different leases give different candidate keys |
| `Elections.TwoBelieveTheyLead` | pkg/concurrency/election.go:228-232 | witness: after a lease ran out two sessions are both set as leader, and only one leads |
| `RaftLogs.EntriesAreLive` | internal/rocksdb/raftlog.go:323-374 | over every run of appends, snapshots and compactions, the entry stored at an index is the one the latest append reaching back that far put there, or none |
| `RaftLogs.FirstExact` | internal/rocksdb/raftlog.go:323-573 | after every run the log starts at the highest index a compaction inside it asked for or right behind the newest snapshot put in its place, at 1 if there was neither |
| `RaftLogs.LastExact` | internal/rocksdb/raftlog.go:323-573 | it ends at the highest index ever appended or covered by such a snapshot: nothing moves the end back |
| `RaftLogs.RunLogInv` | internal/rocksdb/raftlog.go:323-573 | over every run each stored entry lies between the first and the last index and carries its own index |
| `RaftLogs.AppendFull` | internal/rocksdb/raftlog.go:357-363 | an append leaves no hole below the last index if and only if it reaches at least the old last index |
| `RaftLogs.RunFull` | internal/rocksdb/raftlog.go:323-573 | in a run whose appends never end below the last index, every index from first to last is stored |
| `RaftLogs.RocksDBStorage.constructor` | internal/rocksdb/raftlog.go:58-92 | any database opens: missing markers are made up as index 1 and just before the first, and written |
| `RaftLogs.RocksDBStorage.Entries` | internal/rocksdb/raftlog.go:161-215 | the error of each bad range; otherwise the longest stretch from the low index that fits the size limit, at least one entry, or unavailable only where there is a hole |
| `RaftLogs.RocksDBStorage.Term` | internal/rocksdb/raftlog.go:219-267 | compacted, unavailable, the term of the snapshot record just before the first index (0 if there is none), or the term of the stored entry |
| `RaftLogs.RocksDBStorage.AppendEntries` | internal/rocksdb/raftlog.go:323-374 | for any entries, the tail from the first new index is replaced by them; the last index never falls |
| `RaftLogs.RocksDBStorage.CreateSnapshot` | internal/rocksdb/raftlog.go:401-464 | the record gets the index with the term of its entry, or just before the first entry with the term of the former record, or the matching error and no change |
| `RaftLogs.RocksDBStorage.ApplySnapshot` | internal/rocksdb/raftlog.go:468-532 | entries up to the index go and the first index follows it, unless the snapshot is empty or out of date |
| `RaftLogs.RocksDBStorage.CompactTo` | internal/rocksdb/raftlog.go:536-573 | entries below the index go, unless it is not above the first or beyond the last index |
| `RaftLogs.RocksDBStorage.LoadSnapshot` | internal/rocksdb/raftlog.go:295-318 | the stored record, or a made-up one that ends before the first index with term 0 |
| `RaftLogs.Reopen` | internal/rocksdb/raftlog.go:58-92 | opening the storage again on what it left on disk gives the same log |
| `RaftTerms.EntriesAnswerTruly` | internal/rocksdb/raftlog.go:219-267 | over every run legal for raft, the term answered for an index from the first entry on is the one history gave that index |
| `RaftTerms.EdgeExact` | internal/rocksdb/raftlog.go:230-246 | just before the first entry, the answer is the true term in all runs with the same indexes, whatever their terms, if and only if it is taken from the very message from which history takes that term; the same where only terms that never fall are allowed |
| `RaftTerms.RecordExact` | internal/rocksdb/raftlog.go:401-464 | the snapshot record carries the true term of its index in all runs of a shape if and only if its term was taken from that message; the same where only terms that never fall are allowed |
| `RaftTerms.KeptRecordAnswers` | internal/rocksdb/raftlog.go:219-246 | a record just before the first entry, taken at a stored index or installed, never moved and never overtaken by an append, makes the answer there true |
| `RaftTerms.MissingRecordFails` | internal/rocksdb/raftlog.go:230-246 | once the log starts behind index 1, a missing record or one elsewhere makes the answer there untrue for some terms that never fall |
| `RaftTerms.UnrecordedTermIsZero` | internal/rocksdb/raftlog.go:295-318 | witness: three entries and a compaction to 2; the term of index 1 is answered as 0 |
| `RaftTerms.BorrowedTermIsWrong` | internal/rocksdb/raftlog.go:414-424 | witness: a snapshot at 1, a compaction to 3, a snapshot at 2; the record and the answer for index 2 carry the term of index 1 |
| `RaftTerms.ShortAppendLeavesHole` | internal/rocksdb/raftlog.go:357-363 | witness: after three entries and an append of the first alone, the last index is 3 but its term is unavailable |
| `RaftTerms.Drive` | internal/rocksdb/raftlog.go:58-573 | end to end: a storage opened on an empty database and driven through any events holds the log of the specification run |
| `RaftTerms.EdgeTermAfter` | internal/rocksdb/raftlog.go:219-246 | end to end: where the origins agree, the storage answers the true term just before its first entry, after a restart too |
| `Publishers.ExactlyOnce` | internal/raft/node_memory.go:182-272 | over any rounds of overlapping contiguous batches and newer snapshots, each index from the start to the applied one is handed on exactly once and in order, as its entry or inside a snapshot, no other index is, and the snapshot index never passes the applied one |
| `Publishers.EntriesToApply` | internal/raft/node_memory.go:182-194 | the wrapping 64-bit subtraction gives the intended offset |
| `Publishers.ToApplyExact` | internal/raft/node_memory.go:182-194 | exactly the entries above the applied index, in order and without a gap; refused exactly when a gap would open |
| `Publishers.RaftNode.constructor` | internal/raft/node_memory.go:632-639 | a node starts from the index of its snapshot |
| `Publishers.RaftNode.Collect` | internal/raft/node_memory.go:208-250 | all proposals of every entry in order, undecodable entries left out, as PublishedTasks describes; false exactly when the entries remove this node |
| `Publishers.RaftNode.Publish` | internal/raft/node_memory.go:198-272 | all or none of the entries are published; none exactly when they remove this node or the stop signal ends the wait for the commit channel; proposals and snapshot loads stand on the channel in the order of the published items, a witness sending no proposals |
| `ProposalPath.PublishedTasks` | internal/raft/node_memory.go:198-272 | publishing entries on a node that is no witness adds one task for every proposal of every batch they carry, in order; entries without proposals add none, and a witness adds none at all |
| `ProposalPath.PublishBatches` | internal/raft/node_memory.go:198-272 | the commit channel of the node grows by exactly those tasks, or not at all when an entry removes the node |
| `ProposalPath.BothProposalsArrive` | internal/raft/node_memory.go:208-250 | witness: an entry with a batch of two proposals gives two tasks |
| `ProposalPath.LogPublished` | internal/raft/node_memory.go:170-272 | over any rounds without a snapshot, however the committed stretches overlap, what the node has handed on is the log up to its applied index |
| `ProposalPath.ProposalsArrive` | internal/batch/proposal_batcher.go:123-211 | if the log holds batches the batcher sent, in order, the tasks on the channel are the proposals the batcher took in, in order and once each, up to some point: all but those in its buffer once all batches are in the log and applied |
| `Publishers.SnapshotKeepsUp` | internal/raft/node_memory.go:587-630 | unless the stop signal cuts the wait short, no round leaves more than the snapshot count applied beyond the snapshot |
| `Publishers.CompactKeepsCatchUp` | internal/raft/node_memory.go:585-622 | the log is cut so that the last 10000 applied entries stay, or all of them |
| `Publishers.RaftNode.TakeSnapshot` | internal/raft/node_memory.go:567-583 | a newer snapshot moves both indexes and puts its load on the channel behind what was published before; one that is not newer is fatal |
| `Publishers.RaftNode.MaybeTriggerSnapshot` | internal/raft/node_memory.go:587-630 | a snapshot is taken exactly when more than the configured number were applied since the last and the stop signal does not end the wait for what was sent, and the compaction index lies between 1 and the applied index |
| `Publishers.RaftNode.Handle` | internal/raft/node_memory.go:726-763 | one round is the snapshot, then the new entries with all their proposals, then perhaps a snapshot of its own; LogPublished and ProposalsArrive say what rounds together hand on |
| `Batchers.Conservation` | internal/batch/proposal_batcher.go:123-211 | over every run the batches taken from the buffer and then the buffer are the proposals taken in, in order; the counters agree; until Stop is called every batch was sent on |
| `Batchers.NeverAdapts` | internal/batch/proposal_batcher.go:160-285 | with a threshold of at least 0, in every run the load is 0, batch size and timeout are the configured minimum, and no batch or buffer is larger |
| `Batchers.AdjustBounds` | internal/batch/proposal_batcher.go:218-298 | for a configuration with twice the minimum at most the maximum, any buffer up to the maximum and any load in [0,1], the new load is in [0,1] and size and timeout lie between minimum and maximum |
| `Batchers.InterpolateBounds` | internal/batch/proposal_batcher.go:289-298 | interpolation stays between its two targets |
| `Batchers.InterpolateOnLine` | internal/batch/proposal_batcher.go:289-298 | between the ends the value is the one on the straight line through them, less its fraction |
| `Batchers.LoadMoves` | internal/batch/proposal_batcher.go:218-245 | the load moves 70% of the way to the usage when they are more than 0.3 apart, half of it above 0.15 and 30% otherwise |
| `Batchers.ProposalBatcher.constructor` | internal/batch/proposal_batcher.go:79-105 | a new batcher is empty at the minimum parameters |
| `Batchers.ProposalBatcher.FlushBuffer` | internal/batch/proposal_batcher.go:172-211 | the buffer becomes one batch and the counters follow; after Stop the batch may be thrown away |
| `Batchers.ProposalBatcher.AdjustParameters` | internal/batch/proposal_batcher.go:218-285 | load, batch size and timeout become those of the specification |
| `Batchers.ProposalBatcher.RunLoop` | internal/batch/proposal_batcher.go:123-169 | the loop over any sequence of events ends in the state of the specification |
| `LeaseReads.LeaseSafety` | internal/lease/lease_manager.go:78-203 | over every run the lease is valid if and only if this node leads and a quorum confirmed this very leadership less than a lease duration ago |
| `LeaseReads.LeaseWithinElection` | internal/lease/lease_manager.go:108-135 | the lease ends within half an election timeout if and only if the 50ms floor does |
| `LeaseReads.DurationExact` | internal/lease/lease_manager.go:55-135 | the lease lasts 50ms or, beyond that, exactly as long as the clock drift, 500ms unless configured, still fits before half an election timeout and before three heartbeats |
| `LeaseReads.QuorumsMeet` | internal/lease/lease_manager.go:78-106 | answers count as a quorum exactly when they are more than half of the nodes, so any two quorums share one |
| `LeaseReads.LeaseManager.RenewLease` | internal/lease/lease_manager.go:78-147 | renews exactly for an enabled leader with a majority, a single node being its own |
| `LeaseReads.LeaseManager.HasValidLease` | internal/lease/lease_manager.go:150-167 | true exactly for a leader whose lease has not run out |
| `LeaseReads.LeaseManager.OnBecomeLeader` | internal/lease/lease_manager.go:187-193 | a new leader starts without a lease |
| `LeaseReads.LeaseManager.OnBecomeFollower` | internal/lease/lease_manager.go:196-203 | stepping down ends the lease |
| `LeaseReads.AnswersApplied` | internal/lease/readindex_manager.go:66-134 | under any interleaving of look, registration, report and cancellation, every answer is an index its request asked for and is at most the greatest index reported |
| `LeaseReads.NotifyAnswers` | internal/lease/readindex_manager.go:111-134 | a report of progress answers every waiting request it covers with the index it waits for and leaves the others waiting |
| `LeaseReads.RequestPath` | internal/lease/readindex_manager.go:66-105 | a request whose index has been reported is answered at once with that index; any other waits, once registered, for the index it asked for, and a cancelled one waits no more; nothing else changes |
| `LeaseReads.StrandsExactly` | internal/lease/readindex_manager.go:70-94 | a step leaves a request waiting for an index already applied if and only if it registers one whose index was applied since it looked |
| `LeaseReads.WakeUpMissed` | internal/lease/readindex_manager.go:70-94 | witness: a report between the look and the registration is missed |
| `LeaseReads.ReadIndexManager.NotifyApplied` | internal/lease/readindex_manager.go:111-134 | the applied index never falls, and exactly the pending requests at or below the reported index are answered and removed |
| `LeaseReads.ReadIndexManager.CheckApplied` | internal/lease/readindex_manager.go:70-78 | answered at once exactly when the index has been applied |
| `LeaseReads.ReadIndexManager.RegisterRead` | internal/lease/readindex_manager.go:91-94 | the request joins the pending ones |
| `AuthManagers.LoadState` | api/etcd/auth_manager.go:90-138 | loading what a manager has persisted gives back its flag, its users and roles whose names do not begin with 0xff, and exactly its tokens with such names that have not run out |
| `AuthManagers.RunReferences` | api/etcd/auth_manager.go:147-615 | all along a run each role a user holds exists, each token belongs to an existing user, and enabled means root exists, if and only if at each restart the users and tokens found refer only to names that do not begin with 0xff |
| `AuthManagers.RestartReferences` | api/etcd/auth_manager.go:90-138 | one restart keeps those references good if and only if what it finds refers only to what it finds |
| `AuthManagers.FindableNamesAreSafe` | api/etcd/auth_manager.go:147-615 | where no user and no role gets a name beginning with 0xff, references are good in every state of every run, restarts included |
| `AuthManagers.RestartDropsHeldRole` | api/etcd/auth_manager.go:109-119 | witness: a role named "\xff" granted to root is gone after a restart, and root still holds it |
| `AuthManagers.RestartDropsAcceptedToken` | api/etcd/auth_manager.go:121-135 | witness: a restart in the second a token runs out drops it while it was still accepted |
| `AuthManagers.Operate` | api/etcd/auth_manager.go:57-764 | end to end: managers on one store, started from empty and restarted at any times in order, together do what the operations do to the cache |
| `AuthRuns.FactExact` | api/etcd/auth_manager.go:57-764 | after every run of operations, refused ones and restarts among them, a password hash, a session, a held role, a permission, a role or enabled authentication is in force exactly when some operation started it and none since has ended it; which operations do either is listed for each |
| `AuthRuns.PasswordChanged` | api/etcd/auth_manager.go:427-465 | after a password change the new hash is in force, the roles are kept and no session of the user is left |
| `AuthRuns.RootStays` | api/etcd/auth_manager.go:354-386 | once there is a root user there always is |
| `AuthManagers.FoundAgain` | api/etcd/auth_manager.go:97-107 | a stored user is found by the loading scan if and only if its name does not begin with 0xff |
| `AuthManagers.RestartKeepsToken` | api/etcd/auth_manager.go:121-135 | of the accepted tokens a restart keeps exactly those that do not run out in that very second and whose bytes do not begin with 0xff |
| `AuthManagers.ForgetAllTokens` | api/etcd/auth_manager.go:167-183 | the range delete of the tokens and an empty cache stay in step, and no user, role or flag is touched |
| `AuthManagers.AuthManager.constructor` | api/etcd/auth_manager.go:57-87 | a manager on a store an earlier one left behind has what the scans find of that one's cache, less the expired tokens |
| `AuthManagers.AuthManager.EnableAuth` | api/etcd/auth_manager.go:147-164 | refused without a root user; otherwise the flag is set and persisted; cache and store stay in step |
| `AuthManagers.AuthManager.DisableAuth` | api/etcd/auth_manager.go:167-183 | the flag is cleared and every token leaves the cache; cache and store stay in step |
| `AuthManagers.AuthManager.Login` | api/etcd/auth_manager.go:187-234 | a user with the right password gets a token, cached and persisted; cache and store stay in step |
| `AuthManagers.AuthManager.Add` | api/etcd/auth_manager.go:317-351 | a new user is persisted and cached; an existing one refused; cache and store stay in step |
| `AuthManagers.AuthManager.Delete` | api/etcd/auth_manager.go:354-386 | a user other than root goes with all their tokens; cache and store stay in step |
| `AuthManagers.AuthManager.SetPassword` | api/etcd/auth_manager.go:427-465 | the hash changes and the user's tokens go; cache and store stay in step |
| `AuthManagers.AuthManager.Grant` | api/etcd/auth_manager.go:468-500 | an existing role is added once; cache and store stay in step |
| `AuthManagers.AuthManager.Revoke` | api/etcd/auth_manager.go:503-538 | every occurrence of the role goes; refused when the user lacks it; cache and store stay in step |
| `AuthManagers.AuthManager.CreateRole` | api/etcd/auth_manager.go:541-569 | a new role is persisted and cached; an existing one refused; cache and store stay in step |
| `AuthManagers.AuthManager.RemoveRole` | api/etcd/auth_manager.go:572-615 | a role other than root goes from every user and from the table; cache and store stay in step |
| `AuthManagers.AuthManager.AddPermission` | api/etcd/auth_manager.go:655-677 | the permission is appended; cache and store stay in step |
| `AuthManagers.AuthManager.RemovePermission` | api/etcd/auth_manager.go:680-717 | every permission on that very range goes; refused when there is none; cache and store stay in step |
| `AuthManagers.AuthManager.CleanupExpired` | api/etcd/auth_manager.go:748-764 | exactly the tokens past their time go; cache and store stay in step |
| `AuthManagers.LoadUsers` | api/etcd/auth_manager.go:97-107 | the scan loads exactly the persisted users whose names do not begin with 0xff |
| `AuthManagers.LoadRoles` | api/etcd/auth_manager.go:109-119 | the scan loads exactly the persisted roles whose names do not begin with 0xff |
| `AuthManagers.LoadTokens` | api/etcd/auth_manager.go:121-135 | the scan loads exactly the persisted tokens with such names that run out later than now |
| `LeaseReads.Confirm` | internal/lease/readindex_manager.go:120-133 | walking the pending requests in any order confirms exactly those at or below the reported index |
| `LeaseReads.ReadIndexManager.CancelRead` | internal/lease/readindex_manager.go:100-105 | a request that gives up is removed |
| `LeaseReads.ReadIndexManager.constructor` | internal/lease/readindex_manager.go:56-62 | nothing is pending, answered or applied at first |
| `LeaseReads.LeaseManager.constructor` | internal/lease/lease_manager.go:55-74 | a new manager neither leads nor holds a lease |
| `EtcdStores.MemoryEtcd.EvaluateCompares` | internal/memory/store.go:260-267 | true exactly when every comparison holds |
| `MemoryStores.MemoryStore.EvaluateConditions` | internal/mvcc/memory_store.go:462-480 | true exactly when every condition holds |
| `BatchStores.Memory.ApplyInOrder` | internal/memory/batch_apply.go:92-112 | operations applied one by one leave the state of the specification |

## Left out

- 64-bit overflow of revisions, versions and lease identifiers: integers are unbounded, except in the encodings, the raft indexes and the on-disk store, where the bound is a precondition.
- RocksStores.RocksStore.Put: requires the next revision to fit in 63 bits, because its bytes only sort as revisions do below that.
- RocksStores.RocksStore.Delete: requires the next revision to fit in 63 bits, for the same reason.
- RocksStores.RocksStore.DeleteRange: requires the next revision and the number of keys to fit in 63 bits, for the same reason.
- RocksRuns.Execute: takes fewer than 2^63 commands, because of the same bound.
- The on-disk store: its transactions, reads and compaction are not modelled; its restart theorem and its comparison with the in-memory store cover runs of puts, deletes and range deletes.
- Replays in runs with compactions in their middle: `MvccCompaction.CompactionLosesExactly` says for every run what one more compaction changes; the replay theorems are about runs without one, or with one at the end.
- Names of users and roles that are not valid UTF-8: the records are JSON in the code, which replaces invalid bytes by U+FFFD, so such a name comes back changed after a restart. Here records keep their bytes.
- Entries numbered 0 in the raft log: raft numbers them from 1.
- AuthManagers.AuthManager.constructor: requires a start no earlier than the one before, because a clock that went back would bring expired tokens to life again.
- Failures of database writes, of encoders and of password hashing; nil against empty slices; conditions whose value has the wrong type.
- Locks: each operation of the multi-version store, of the on-disk store and of the auth manager is one step. The workers of a batch, the campaigns, the read-index requests and the MySQL transactions do interleave.
- Readers that run beside a batch, and waking clients by sequence number when a batch is done.
- Watches: matching, history and delivery to slow clients.
- Lease renewal and time to live: expiry enters as an argument of each put and transaction.
- Unknown operation types inside an etcd transaction, which leave an empty response.
- Elections assume a store that answers the waiting query by create revision; the range call of this server ignores that option. Campaigning here is by steps on values, not an object with fields.
- Liveness: nothing says that a campaign, a wait or a read index request ever ends.
- Hard state, conf state and snapshot data of the raft log, and the bytes of its keys.
- Peer transport and membership bookkeeping during publication; the choice between a ready channel and the stop signal is an input; an undecodable batch is left out by the code and by the model.
- Floating point: the batcher's arithmetic is over the reals.
- Time in the batcher: the ticker is an event, the timeout a number.
- Permission checks, password hashes and token bytes of the auth manager; records are values instead of JSON, and sharing of a record between cache and caller is not captured.
- `internal/rocksdb/kvstore.go`, `internal/raft/node_rocksdb.go`, `pkg/concurrency/mutex.go`, servers, SQL parsing, configuration, metrics and logging.
