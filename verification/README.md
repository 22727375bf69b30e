# Verified models of etcd's core

This project models the parts of etcd that keep its data right and proves what
they promise. It follows the server's directories:

- `mvcc/` is the revision index: per key a list of generations, changed in place by
  put, tombstone and compaction, over an ordered tree; the walk that compacts key by
  key while writers go on; the batched sweep that deletes backend records; the index
  read back from the records after a crash, at any point of a sweep (`Restart`); the
  store around it with its current revision and its guards (`Stores`); and the disk
  over any run of writes, compactions, sweeps, crashes and starts (`Crashes`). The
  reference is a plain event history. Reads of the index and of the store, watch reads,
  keep sets and the backend's contents are proved against it over every run and every
  interleaving.
- `etcdserver/` is the apply pipeline: exactly-once application across crashes and
  snapshots (`ApplyOnce`), what that means for transactions (`TxnReplay`), the
  handshake between the raft and apply routines (`Notifyc`), linearizable reads
  (`ReadIndex`, raft entering by its ReadIndex contract, section 6.4 of Ongaro's Raft
  dissertation), the transaction interpreter along a flat list of branch choices
  (`TxnSpec`, `TxnApply`, `TxnLaws`) and what its records and responses are, told from
  the list of requests alone (`TxnRecords`), range post-processing (`RangeResult`), and
  forced single-member restart and the pass over outgoing messages (`RaftNode`).
- `lease/` is the lessor: the indexed heap of shared items after Go's container/heap,
  the notifier with its id map, the lease state machine, the sweep for expired
  leases, and the spreading of expiries on promotion.
- `auth/` is the permission cache in front of the user and role store: every answer
  given through the cache is the store's, over every run, down to the keys covered.
- `clientv3/` turns a prefix into an interval, and follows it through the server's
  range to the index.

Code that changes things step by step is a class with methods or a method with a
loop, each proved against a specification function; what is promised is then proved
about those functions. The protocols are state machines whose runs are all
interleavings of their steps.

Results about the code that its comments do not say, each with a lemma:

- The clause of `compact` that removes a lone tombstone never applies on a reachable
  index (`NoLoneTombstone`).
- A start finds the current revision of the last record on disk. If a compaction is
  pending whose sweep has deleted every record of the newest transaction, it finds a
  lower one, refuses the pending compaction, and gives revisions out again; it brings
  the store back if and only if that is not so (`StartIsExact`, `RunRestarts`,
  `StartCanFail`). The comment at src/go.etcd.io/etcd/mvcc/kvstore.go:427-429
  provides for it only when the compaction is marked as finished.
- An index read back from the records knows creations only by transaction, not by
  their place in it; nothing the store answers or writes depends on that place
  (`LikeReads`, `OneAlike`, `LikeGoesOn`).
- Dropping the range requests of a transaction nobody waits for can leave members
  with different data, when a range check fails (`DropRangesAgrees`,
  `DropRangesCanDiverge`). Since nobody waits for a replayed entry, a crash alone can
  turn a rejected transaction into a committed one. Members agree, and a replay is
  harmless, if and only if no such transaction met such a state (`ExecutionsAgree`,
  `TxnExecutionsAgree`, `ReplayDoesRejected`).
- Deleting a role misses users whose names start with 0xff, and a cached user among
  them keeps its permissions (`RoleDeleteCoherent`, `RoleDeleteCanLeaveStale`).
- Granting a permission updates an existing one only if it is the first on its key
  (`GrantReplaces`, `GrantCanLeaveMore`).
- A sort by something else than the key, without a sort order and with a limit, sorts
  what a limited fetch returned (`CutAgrees`, `CutCanDiffer`).

Check the project with `dafny verify dfyconfig.toml`.

## Model

| member | source | states |
|---|---|---|
| Bytes.CompareTransitive | src/go.etcd.io/etcd/mvcc/key_index.go:339-341 | keys are ordered by byte comparison: the order is transitive, strictly if either comparison is strict |
| Bytes.ScanIsAscending | src/go.etcd.io/etcd/mvcc/index.go:106-119 | a scan of an ordered tree meets its keys in strictly ascending order |
| Bytes.ScanStops | src/go.etcd.io/etcd/mvcc/index.go:106-119 | a scan may stop at the first key not below the end: no later key is in the range |
| KeyIndexes.KeyIndex.Put | src/go.etcd.io/etcd/mvcc/key_index.go:78-105 | a put above the last modification keeps the index valid and appends its revision to the last generation, opening that generation when it was empty |
| KeyIndexes.KeyIndex.Tombstone | src/go.etcd.io/etcd/mvcc/key_index.go:130-149 | answers not-found exactly when the key is dead and then changes nothing; otherwise ends the last generation and opens an empty one |
| KeyIndexes.KeyIndex.WalkBack | src/go.etcd.io/etcd/mvcc/key_index.go:385-394 | the backward walk stops at the largest position whose revision is at or below the given one, or answers -1 |
| KeyIndexes.KeyIndex.FindGeneration | src/go.etcd.io/etcd/mvcc/key_index.go:314-335 | finds the generation alive at a revision; none is found only if a read there finds nothing |
| KeyIndexes.KeyIndex.Get | src/go.etcd.io/etcd/mvcc/key_index.go:153-177 | the read by generation search and backward walk equals the specification read of the generation list |
| KeyIndexes.KeyIndex.Since | src/go.etcd.io/etcd/mvcc/key_index.go:181-224 | the two loops that find the start and collapse sub-revisions yield every revision at or after (rev, 0), the newest of each transaction, across generations |
| KeyIndexes.KeyIndex.DoCompact | src/go.etcd.io/etcd/mvcc/key_index.go:281-305 | finds the generation and the position that a compaction retains and adds the retained revision to the set |
| KeyIndexes.KeyIndex.Compact | src/go.etcd.io/etcd/mvcc/key_index.go:234-263 | compaction in place equals the specification, adds exactly the retained revision to the set, and keeps the index valid; the branch for a lone tombstone is never taken |
| KeyIndexes.KeyIndex.Keep | src/go.etcd.io/etcd/mvcc/key_index.go:266-278 | Keep adds exactly the revision that Compact would add |
| KeyIndexSpec.PutIsValid | src/go.etcd.io/etcd/mvcc/key_index.go:78-105 | a put above all revisions keeps every generation increasing, closed ones at two or more revisions |
| KeyIndexSpec.TombstoneIsValid | src/go.etcd.io/etcd/mvcc/key_index.go:130-149 | a tombstone above all revisions, on a live key, keeps the shape of the generation list |
| KeyIndexSpec.CompactIsValid | src/go.etcd.io/etcd/mvcc/key_index.go:234-263 | compaction keeps the shape and whether the key is alive |
| KeyIndexSpec.AllRevsAbove | src/go.etcd.io/etcd/mvcc/key_index.go:70-74 | the revisions of a key increase across all its generations |
| KeyIndexLaws.GetAfterPut | src/go.etcd.io/etcd/mvcc/key_index.go:78-105 | a read at a revision sees a put if and only if the put is at or below it, and otherwise reads as before |
| KeyIndexLaws.GetAfterTombstone | src/go.etcd.io/etcd/mvcc/key_index.go:130-149 | from a tombstone on the key is not found; below it reads are unchanged |
| KeyIndexLaws.BuildLastGeneration | src/go.etcd.io/etcd/mvcc/key_index.go:78-149 | creation revision and version of the open generation are those of the key's current life in the history, and it is empty exactly when the key is dead |
| KeyIndexLaws.BuildIsValid | src/go.etcd.io/etcd/mvcc/key_index.go:78-149 | what a history of puts and tombstones builds has the valid shape and holds exactly the revisions of the history |
| KeyIndexLaws.GetIsLookup | src/go.etcd.io/etcd/mvcc/key_index.go:153-177 | the uncompacted index answers every read like the plain event history: revision, creation revision, version, or not found |
| KeyIndexLaws.GetAfterCompact | src/go.etcd.io/etcd/mvcc/key_index.go:234-263 | a compaction changes no read at or above its revision |
| KeyIndexLaws.CompactTwice | src/go.etcd.io/etcd/mvcc/key_index.go:234-305 | compacting at a and then at b >= a gives the generations and the kept revision of compacting at b alone |
| KeyIndexLaws.CompactAfterPut | src/go.etcd.io/etcd/mvcc/key_index.go:78-105 | a put above the compaction commutes with it and does not change what it keeps |
| KeyIndexLaws.CompactAfterTombstone | src/go.etcd.io/etcd/mvcc/key_index.go:130-149 | a tombstone above the compaction commutes with it and does not change what it keeps |
| KeyIndexLaws.CompactedRevs | src/go.etcd.io/etcd/mvcc/key_index.go:234-263 | a compaction leaves exactly the revisions above it and the one it reports as kept |
| KeyIndexLaws.CompactedSuffix | src/go.etcd.io/etcd/mvcc/key_index.go:234-263 | what remains after a compaction is a suffix of the revisions and all it drops is at or below it |
| KeyIndexLaws.NoLoneTombstone | src/go.etcd.io/etcd/mvcc/key_index.go:255-261 | the generation that compaction trims is the last one or keeps two or more revisions, so the clause removing a lone tombstone never applies |
| KeyIndexLaws.SinceAfterCompact | src/go.etcd.io/etcd/mvcc/key_index.go:181-224 | what since returns for a revision above a compaction is unaffected by the compaction |
| KeyIndexLaws.CollapsedSinceMeans | src/go.etcd.io/etcd/mvcc/key_index.go:181-224 | since returns exactly the revisions at or after (rev, 0) that are the newest of their transaction, in increasing order |
| TreeIndexes.TreeIndex.Insert | src/go.etcd.io/etcd/mvcc/index.go:276-280 | a new key enters the ordered tree in place |
| TreeIndexes.TreeIndex.Delete | src/go.etcd.io/etcd/mvcc/index.go:223-232 | deleting reports whether the key was there and removes exactly it |
| TreeIndexes.TreeIndex.Put | src/go.etcd.io/etcd/mvcc/index.go:55-76 | Put changes the entry of one key as the specification says and no other |
| TreeIndexes.TreeIndex.Get | src/go.etcd.io/etcd/mvcc/index.go:78-88 | Get answers from the entry of the key, not-found for a key that is not in the tree |
| TreeIndexes.TreeIndex.Tombstone | src/go.etcd.io/etcd/mvcc/index.go:157-173 | Tombstone is refused exactly when the specification refuses it and otherwise changes one entry |
| TreeIndexes.TreeIndex.Visit | src/go.etcd.io/etcd/mvcc/index.go:106-119 | the walk from a key up to an end meets exactly the tree keys in that range, in order |
| TreeIndexes.TreeIndex.Range | src/go.etcd.io/etcd/mvcc/index.go:139-155 | the keys and revisions visible at a revision in a range, in key order |
| TreeIndexes.TreeIndex.Revisions | src/go.etcd.io/etcd/mvcc/index.go:121-137 | the revisions of Range alone |
| TreeIndexes.TreeIndex.RangeSince | src/go.etcd.io/etcd/mvcc/index.go:175-204 | the shares of the keys in range, sorted: same revisions with multiplicity, in revision order; an absent single key gives none |
| TreeIndexes.SortRevisions | src/go.etcd.io/etcd/mvcc/index.go:197-203 | sorting yields an ordered rearrangement |
| TreeIndexes.TreeIndex.CompactOne | src/go.etcd.io/etcd/mvcc/index.go:213-237 | the locked section compacts one key of the clone, deletes it when nothing is left, and leaves all other entries and objects alone; the delete finds its key |
| TreeIndexes.TreeIndex.Compact | src/go.etcd.io/etcd/mvcc/index.go:206-240 | the walk over the clone compacts every key and returns the union of what the keys keep |
| TreeIndexes.TreeIndex.Keep | src/go.etcd.io/etcd/mvcc/index.go:242-252 | Keep returns the set that Compact would return |
| TreeIndexSpec.AgreementDetermines | src/go.etcd.io/etcd/mvcc/index.go:206-240 | two trees that agree with the same history at the same compaction are equal |
| TreeIndexSpec.TombstoneAccepted | src/go.etcd.io/etcd/mvcc/index.go:157-173 | a tombstone is accepted exactly when the history has the key alive, compacted or not |
| TreeIndexSpec.WriteStep | src/go.etcd.io/etcd/mvcc/index.go:55-76 | a write above a compaction keeps every key in agreement with the history, whether that key is already compacted or still waits |
| TreeIndexSpec.WriteKeeps | src/go.etcd.io/etcd/mvcc/index.go:206-240 | a write above a compaction does not change what the compaction keeps |
| TreeIndexSpec.CompactStep | src/go.etcd.io/etcd/mvcc/index.go:206-240 | compacting all keys takes a tree in agreement at one revision to agreement at a later one, removing emptied keys |
| TreeIndexSpec.KeepIsFromLog | src/go.etcd.io/etcd/mvcc/index.go:242-252 | the keep set depends on the event history alone |
| TreeIndexSpec.StepIsGood | src/go.etcd.io/etcd/mvcc/index.go:55-240 | every put, tombstone and compaction keeps the tree in agreement with the history |
| TreeIndexSpec.RunIsGood | src/go.etcd.io/etcd/mvcc/index.go:55-240 | so does every run of them |
| TreeIndexSpec.RunReadsAgree | src/go.etcd.io/etcd/mvcc/index.go:78-88 | after any run, every read at or above the last compaction equals the lookup in the full history, for every key including removed ones |
| TreeIndexSpec.CompactionsCompose | src/go.etcd.io/etcd/mvcc/index.go:206-240 | compacting the tree at a and then b >= a gives the tree and the keep set of b alone |
| TreeIndexSpec.CompactedIndexRevs | src/go.etcd.io/etcd/mvcc/index.go:206-240 | the revisions named by a compacted tree are those above the compaction and the keep set |
| TreeIndexReads.RangeMeans | src/go.etcd.io/etcd/mvcc/index.go:139-155 | a range read on a reachable index lists, in key order, exactly the keys that exist at the revision, each with the revision of its history |
| TreeIndexReads.SinceKeyMeans | src/go.etcd.io/etcd/mvcc/key_index.go:181-224 | above the last compaction a key's share is what its full history gives |
| TreeIndexReads.RangeSinceMeans | src/go.etcd.io/etcd/mvcc/index.go:175-204 | RangeSince lists each change at or after the revision, newest of its transaction for its key, once, in strictly increasing order |
| TreeIndexReads.ReachableShape | src/go.etcd.io/etcd/mvcc/key_index.go:234-263 | on every reachable index each generation but the last keeps two or more revisions and no emptied key stays |
| CompactionRun.SameAnswer | src/go.etcd.io/etcd/mvcc/index.go:206-240 | during a compaction walk a tombstone is accepted or refused as after an atomic compaction |
| CompactionRun.ScheduleMatches | src/go.etcd.io/etcd/mvcc/index.go:206-240 | every interleaving of key visits and writes corresponds to the atomic compaction followed by those writes |
| CompactionRun.FinishedWalk | src/go.etcd.io/etcd/mvcc/index.go:206-240 | a finished walk has the tree of the atomic run and has collected the keep set of the starting tree |
| CompactionRun.InterleavedCompaction | src/go.etcd.io/etcd/mvcc/index.go:206-240 | compaction taken key by key, with any puts and tombstones above it in between: the walk never panics, every read at or above it is right at each intermediate step, and it ends in the atomic result |
| Sweep.KeyBucket.UnsafeRange | src/go.etcd.io/etcd/mvcc/kvstore_compaction.go:38 | the first records from the cursor on, up to the limit, with a main revision at or below the compaction |
| Sweep.DeleteBatch | src/go.etcd.io/etcd/mvcc/kvstore_compaction.go:39-45 | one batch deletes exactly its records that are not to be kept |
| Sweep.SweepBatch | src/go.etcd.io/etcd/mvcc/kvstore_compaction.go:34-64 | one turn leaves nothing below the moved cursor but kept records, and the cursor strictly advances |
| Sweep.ScheduleCompaction | src/go.etcd.io/etcd/mvcc/kvstore_compaction.go:24-80 | for every positive batch limit and whatever writers add in the pauses the sweep ends; finished, it left exactly the records above the compaction and the kept ones; stopped, it removed nothing else |
| Sweep.WritesAddRevs | src/go.etcd.io/etcd/mvcc/kvstore_compaction.go:24-80 | later writes add to the index exactly the revisions they log |
| Sweep.SweepRestoresAgreement | src/go.etcd.io/etcd/mvcc/kvstore_compaction.go:24-80 | if the backend held exactly the revisions of the index, then after the tree walk, the sweep with its keep set and any writes meanwhile it does so again |
| Sweep.KeepIsStable | src/go.etcd.io/etcd/mvcc/index.go:242-252 | the keep set computed again after the compaction and later writes is the one the compaction returned |
| Sweep.SweepResumes | src/go.etcd.io/etcd/mvcc/kvstore_compaction.go:24-80 | a sweep that was stopped can be run again with the keep set computed anew, and backend and index agree again |
| KeyIndexes.KeyIndex.Restore | src/go.etcd.io/etcd/mvcc/key_index.go:108-127 | an empty key index starts again from a record: its revision, with the creation and version stored in it |
| Restart.RestoreRecord | src/go.etcd.io/etcd/mvcc/kvstore.go:510-532 | one record read back puts, ends or begins the entry of its key; a tombstone of an absent key is passed over |
| Restart.RestoreIntoIndex | src/go.etcd.io/etcd/mvcc/kvstore.go:484-536 | reading all records in revision order into an empty index builds the tree they determine, and the revision returned is that of the last record, 1 if there is none |
| Restart.StoredIsReadable | src/go.etcd.io/etcd/mvcc/kvstore_txn.go:198-280 | the records of a log ascend and none claims a creation above itself, so reading them back meets no panic |
| Restart.KeyRestored | src/go.etcd.io/etcd/mvcc/kvstore.go:484-536 | from any such records the key is rebuilt: compacted again, its generations are those of the full history, creations known up to their sub-revision |
| Restart.RestartRestores | src/go.etcd.io/etcd/mvcc/kvstore.go:402-425 | from what any sweep may have left, the index read back is, once compacted, the one from before, and so is its keep set |
| Stores.Store.Range | src/go.etcd.io/etcd/mvcc/kvstore_txn.go:141-196 | answers as the store value does: refused above the current revision or below the bound, else the index read at the revision asked for; what that means is RangeMeansHistory |
| Stores.Store.WriteTxn | src/go.etcd.io/etcd/mvcc/kvstore_txn.go:75-139 | all changes of a transaction are made at the next revision, which becomes current if and only if something changed |
| Stores.Store.UpdateCompactRev | src/go.etcd.io/etcd/mvcc/kvstore.go:252-281 | a compaction at or below the bound is refused as done, one above the current revision as future; an accepted one moves the bound and is on disk before the call returns |
| Stores.Store.ResumeCompaction | src/go.etcd.io/etcd/mvcc/kvstore.go:430-460 | the current revision is raised to the finished compaction; the scheduled one is taken up again unless it is finished, 0, or above the current revision |
| Stores.Store.Restore | src/go.etcd.io/etcd/mvcc/kvstore.go:350-475 | records and the two marks determine index, current revision and bound of the started store |
| Stores.WriteAllBelow | src/go.etcd.io/etcd/mvcc/kvstore_txn.go:198-295 | inside a transaction every change is above all changes before it |
| Stores.RangesAlike | src/go.etcd.io/etcd/mvcc/kvstore_txn.go:141-196 | two indexes that are alike once compacted at the bound list the same revisions for every range at or above it, whatever their compaction walks have done so far |
| Stores.LikeReads | src/go.etcd.io/etcd/mvcc/kvstore_txn.go:141-196 | two like stores give the same answer, error or revisions, to every range read at every revision |
| Stores.OneAlike | src/go.etcd.io/etcd/mvcc/kvstore_txn.go:204-216 | a put finds the same version and creation transaction in two like stores, so it writes the same record |
| Stores.LikeGoesOn | src/go.etcd.io/etcd/mvcc/kvstore.go:252-326 | two like stores stay like under any transactions and compactions: they give out the same revisions and refuse the same compactions |
| Stores.BackgroundIsUnseen | src/go.etcd.io/etcd/mvcc/kvstore.go:283-303 | how far the compaction of the index has come behind the bound makes no difference |
| Crashes.SweepKeepsCut | src/go.etcd.io/etcd/mvcc/kvstore_compaction.go:24-80 | a sweep to any cursor leaves of each key everything from some event on, everything above the sweep, and the record the sweep keeps |
| Crashes.CutMovesUp | src/go.etcd.io/etcd/mvcc/kvstore.go:252-303 | what one sweep has left when the process dies is a state in which a later scheduled compaction, recorded meanwhile, can be taken up |
| Crashes.BatchLeaves | src/go.etcd.io/etcd/mvcc/kvstore_compaction.go:41-48 | the batches of the sweep method are steps of the disk |
| Crashes.DoAllIsGood | src/go.etcd.io/etcd/mvcc/kvstore.go:252-475 | every run of writes, scheduled compactions, sweep batches, finished marks, crashes and starts keeps such records for every key, and the marks in order |
| Crashes.CommitIsRun | src/go.etcd.io/etcd/mvcc/kvstore_txn.go:75-139 | a transaction of the store is a run of index operations under revisions never given out before, and adds to the history a put for every put and a tombstone for every delete of a living key, numbered in order |
| Crashes.LastRecord | src/go.etcd.io/etcd/mvcc/kvstore.go:484-536 | the revision of the last record is the current one if and only if a record of the newest transaction is held, else it is lower |
| Crashes.RestoredBounds | src/go.etcd.io/etcd/mvcc/kvstore.go:425-460 | after a start the revision is the former one if and only if no compaction was pending or a record of the newest transaction is held, and the pending compaction is taken up if and only if moreover it is not at 0 |
| Crashes.IndexRestored | src/go.etcd.io/etcd/mvcc/kvstore.go:402-425 | the records on disk, read back, make the same index as the store that never crashed has, once both are compacted |
| Crashes.ResumedKeep | src/go.etcd.io/etcd/mvcc/kvstore.go:459-460 | the keep set of the compaction taken up again is the one a compaction of the full history has |
| Crashes.StartIsExact | src/go.etcd.io/etcd/mvcc/kvstore.go:368-475 | current revision, bound, all range reads and the whole store come back if and only if these conditions hold |
| Crashes.RunRestarts | src/go.etcd.io/etcd/mvcc/kvstore.go:350-475 | so at every point of every run, with any number of crashes and pending compactions |
| Crashes.StartGoesOn | src/go.etcd.io/etcd/mvcc/kvstore.go:459-475 | a store that came back goes on as the one that never crashed under any transactions and compactions |
| Crashes.Reopen | src/go.etcd.io/etcd/mvcc/kvstore.go:350-475 | the restore method, on the records and marks of the disk, makes that store |
| Crashes.SweptHoldsIndex | src/go.etcd.io/etcd/mvcc/kvstore_compaction.go:50-65 | when the last sweep is through, however often it was interrupted, the backend holds exactly the records the index names |
| Crashes.StartCanFail | src/go.etcd.io/etcd/mvcc/kvstore.go:459-460 | a run in which the last full batch deletes the newest record, a tombstone: the start refuses the pending compaction, refuses reads at the revision served before, and gives revision 2 out again |
| Crashes.RangeMeansHistory | src/go.etcd.io/etcd/mvcc/kvstore_txn.go:141-196 | a range read above the current revision or below the bound is refused, and any other lists, in key order, exactly the keys asked for that the full history has at the revision asked for, each with the revision of its last change then |
| Crashes.RestartedRangeMeans | src/go.etcd.io/etcd/mvcc/kvstore.go:368-475 | after a start that finds the revision, range reads answer from the full history in this way, whatever had been swept |
| Crashes.StoreRunIsRun | src/go.etcd.io/etcd/mvcc/kvstore_txn.go:75-139 | after any run of transactions and compactions from the empty store it is like the index of the plain history of its writes |
| Crashes.StoreReadsHistory | src/go.etcd.io/etcd/mvcc/kvstore_txn.go:141-196 | so after any such run every range read answers from that plain history, and the refusals are by its last revision and the last compaction accepted |
| Crashes.CompactMeans | src/go.etcd.io/etcd/mvcc/kvstore.go:252-281 | a compaction is accepted exactly above the last one accepted, up to the current revision; afterwards reads below it are refused and those from it on answered |
| KV.ApplyCompares | src/go.etcd.io/etcd/etcdserver/apply.go:453-462 | all comparisons of a transaction hold or not, as their meaning says |
| KV.ApplyCompare | src/go.etcd.io/etcd/etcdserver/apply.go:464-488 | one comparison over a range holds for all its keys, or for the empty key-value when there is none |
| KV.ComparisonMeans | src/go.etcd.io/etcd/etcdserver/apply.go:464-532 | a comparison holds if and only if the field its target names stands in its relation in every record of the range; with none in the range absent fields are zero and a value comparison fails |
| TxnApply.TxnWriter.Put | src/go.etcd.io/etcd/mvcc/kvstore_txn.go:198-280 | a put has the effect and response of the specified put, whose records RunTells describes; with ignored value or lease on a missing key, or on a read-only transaction, it fails |
| TxnApply.TxnWriter.DeleteRange | src/go.etcd.io/etcd/mvcc/kvstore_txn.go:282-295 | exactly the keys in the range are removed and counted |
| TxnApply.CompareToPath | src/go.etcd.io/etcd/etcdserver/apply.go:437-451 | the flat list of branch choices is the preorder of the transaction tree, every condition evaluated on the state before the transaction |
| TxnApply.NewTxnResp | src/go.etcd.io/etcd/etcdserver/apply.go:407-435 | along the flat list every nested transaction gets the sub-list computed for it; the response tree has the slot types of the chosen requests |
| TxnApply.CheckRequests | src/go.etcd.io/etcd/etcdserver/apply.go:928-949 | the check along the flat list reports the first error among the chosen requests in preorder, or none, and consumes exactly its sub-list |
| TxnApply.ApplyTxn | src/go.etcd.io/etcd/etcdserver/apply.go:534-584 | execution along the flat list equals the recursive interpreter: same state, same responses, a panic exactly when it panics, and each slot is filled with the type it was allocated with |
| TxnSpec.PathSegment | src/go.etcd.io/etcd/etcdserver/apply.go:437-451 | the sub-list of a request follows the sub-lists of the requests before it |
| TxnLaws.InterpretIsLeaves | src/go.etcd.io/etcd/etcdserver/apply.go:534-584 | a transaction tree acts on the store like the flat sequence of its chosen leaf requests |
| TxnLaws.PanicFree | src/go.etcd.io/etcd/etcdserver/apply.go:375-395 | a flat sequence runs without panic if and only if every range revision is valid and every put that ignores value or lease finds its key at its turn |
| TxnLaws.CheckedTxnRuns | src/go.etcd.io/etcd/etcdserver/apply.go:375-395 | a transaction that passed both checks and whose path deletes no key that a later ignoring put names runs without panic |
| TxnLaws.ReadonlyTxnRuns | src/go.etcd.io/etcd/etcdserver/v3_server.go:194-206 | a transaction classed read-only that passed the range check runs in a read transaction: no write is reached and the state is unchanged |
| TxnLaws.TxnReadonly | src/go.etcd.io/etcd/etcdserver/v3_server.go:194-206 | the loops over both branches class a transaction read-only exactly when neither branch holds anything but ranges |
| TxnLaws.ApplyWholeTxn | src/go.etcd.io/etcd/etcdserver/apply.go:369-405 | checks, path, blank response and execution together are the specified transaction: reject, panic or commit |
| TxnLaws.RemoveNeedlessRangeReqs | src/go.etcd.io/etcd/etcdserver/apply.go:1018-1034 | the in-place filter drops exactly the top-level range requests of both branches, in order |
| TxnRecords.PathMeans | src/go.etcd.io/etcd/etcdserver/apply.go:437-451 | the success branch runs if every comparison is true of the records before the transaction, else the failure branch, nested transactions likewise |
| TxnRecords.RunTells | src/go.etcd.io/etcd/mvcc/kvstore_txn.go:198-295 | after a run each key has the creation it had unless it was deleted, else the new revision; as many versions more as it was put since; value and lease of the last put that did not keep them; the new revision if it was put |
| TxnRecords.TxnTells | src/go.etcd.io/etcd/etcdserver/apply.go:369-405 | a committed transaction leaves exactly these records, told from its list of requests and the records before alone, at the next revision if any request wrote, else at the same |
| TxnRecords.RunAnswers | src/go.etcd.io/etcd/etcdserver/apply.go:534-584 | a range answers the records that the requests before it left, or those of an earlier revision asked for; a put the record before it; a delete how many records it removed and which; each the revision as of then |
| TxnRecords.TxnResponsesTell | src/go.etcd.io/etcd/etcdserver/apply.go:534-584 | the responses of a transaction, without their nesting, are these in order, and it reports success exactly when all comparisons are true |
| TxnRecords.RejectionMeans | src/go.etcd.io/etcd/etcdserver/apply.go:951-990 | a transaction is rejected exactly when a put on its path names a missing lease or keeps something of a missing key, or a range asks for a future or compacted revision; with the error of the first put, else of the first range |
| TxnLaws.DropRangesAgrees | src/go.etcd.io/etcd/etcdserver/apply.go:1018-1034 | dropping top-level ranges leaves the final state as it was if and only if the range check passes, or still fails without them, or the put check fails, or the chosen requests write nothing |
| TxnLaws.DropRangesCanDiverge | src/go.etcd.io/etcd/etcdserver/server.go:2236-2243 | on any store below revision 100 a transaction of a range at 100 beside a put is rejected as it is and commits without the range |
| TxnReplay.TxnIndifferent | src/go.etcd.io/etcd/etcdserver/server.go:2236-2243 | it makes no difference to a transaction whether a client waits if and only if that condition holds in the state it meets |
| TxnReplay.TxnExecutionsAgree | src/go.etcd.io/etcd/etcdserver/server.go:2187-2243 | two executions of a log of transactions go through the same states if and only if the condition holds wherever a client waited in one of them only |
| TxnReplay.ReplayDoesRejected | src/go.etcd.io/etcd/etcdserver/server.go:2224-2243 | a run in which crash and replay change the state: a rejected transaction is executed again without its range, and its put is done |
| RangeResults.PruneKVs | src/go.etcd.io/etcd/etcdserver/apply.go:1036-1045 | the in-place loop moves exactly the pairs to keep to the front, in order |
| RangeResults.PruneAll | src/go.etcd.io/etcd/etcdserver/apply.go:305-320 | the four revision filters together keep exactly the pairs passing every filter that is set |
| RangeResults.Range | src/go.etcd.io/etcd/etcdserver/apply.go:282-367 | limit-plus-one fetch, pruning, sort and cut answer as fetch all, filter, arrange, take the limit, with the same More flag and the full count; cut before sorting it answers so for the pairs fetched; in the fields of the pairs this is what AnswersMean says |
| RangeResults.AnswersMean | src/go.etcd.io/etcd/etcdserver/apply.go:282-367 | the pairs returned are ordered in the field asked for, falling when descending; none is outside a bound that is set; those left out may all come after them; the flag says whether there are any, and then the limit is full |
| RangeResults.OneExtraIsEnough | src/go.etcd.io/etcd/etcdserver/apply.go:282-296 | in key order without filters one pair beyond the limit gives the same pairs and the same More flag as fetching all |
| RangeResults.ArrangementsTie | src/go.etcd.io/etcd/etcdserver/apply.go:323-351 | two sorted arrangements of the same pairs agree place by place up to equal sort keys, so the answer is determined up to their order |
| RangeResults.CutAgrees | src/go.etcd.io/etcd/etcdserver/apply.go:323-356 | a sort by something else than the key that follows a limited fetch gives a right answer if and only if no unfetched pair sorts below two fetched ones |
| RangeResults.CutCanDiffer | src/go.etcd.io/etcd/etcdserver/apply.go:323-356 | three pairs with limit 1 for which it gives a wrong one |
| ApplyOnce.Server.ApplyEntryNormal | src/go.etcd.io/etcd/etcdserver/server.go:2187-2243 | an entry at or below the consistent index changes nothing; one above is executed as proposed if a client waits, else without needless ranges, and not at all if it has no side effect either; the index is stored with a change only |
| ApplyOnce.Server.Apply | src/go.etcd.io/etcd/etcdserver/server.go:2142-2183 | a batch of entries is executed in order, each once; the state stays the fold of the log and of who waited, and the stored index is that of the last change |
| ApplyOnce.Server.ApplyEntries | src/go.etcd.io/etcd/etcdserver/server.go:1378-1405 | entries already applied are cut off, those executed before a crash are passed over, and the rest brings applied and consistent index to the last entry |
| ApplyOnce.Server.TriggerSnapshot | src/go.etcd.io/etcd/etcdserver/server.go:1407-1426 | a local snapshot is started only after data and consistent index were committed together |
| ApplyOnce.Server.SaveLocalSnapshot | src/go.etcd.io/etcd/etcdserver/server.go:2367-2420 | the snapshot index never goes back nor exceeds the consistent index on disk |
| ApplyOnce.Server.CreateMergedSnapshot | src/go.etcd.io/etcd/etcdserver/snapshot_merge.go:31-62 | the database sent to a follower is never behind the index its snapshot claims |
| ApplyOnce.Server.ApplySnapshot | src/go.etcd.io/etcd/etcdserver/server.go:1146-1190 | a leader snapshot replaces the backend by the received file; state, indexes and log stay in agreement |
| ApplyOnce.Server.CrashAndRestart | src/go.etcd.io/etcd/etcdserver/backend.go:99-113 | after a crash at any point the state is the fold of the log up to the index on disk, and the start never reports a database older than the snapshot |
| ApplyOnce.ReplayIsHarmless | src/go.etcd.io/etcd/etcdserver/server.go:2187-2243 | crash, restart and replay: every entry is executed once on the way to the state, which goes through the former states if and only if no entry executed again met a state in which it matters whether a client waits |
| ApplyOnce.ExecutionsAgree | src/go.etcd.io/etcd/etcdserver/server.go:2236-2243 | two executions of a log go through the same states if and only if no entry for which a client waited in one of them only made a difference in the state it met |
| ApplyOnce.MembersAgree | src/go.etcd.io/etcd/etcdserver/server.go:2236-2243 | two members at the same index went through the same states under exactly that condition; if they agreed before their last entry, they agree now if and only if that one made no difference |
| ApplyOnce.ExecutedTwice | src/go.etcd.io/etcd/etcdserver/server.go:2236-2243 | a request that changed nothing while its client waited is executed again after a crash, as what is left of it when nobody waits |
| Notifyc.StepInv | src/go.etcd.io/etcd/etcdserver/raft.go:218-360 | every step of either routine keeps the places and channel tokens of all Readys consistent |
| Notifyc.Guarantees | src/go.etcd.io/etcd/etcdserver/raft.go:284-360 | the apply routine passes its wait only after save and append; a non-leader passes its wait only after applyEntries when a configuration change commits |
| Notifyc.HandshakeIsSafe | src/go.etcd.io/etcd/etcdserver/raft.go:218-360 | for every list of Readys and every interleaving: snapshots are triggered after save, append and apply; a received snapshot is loaded after it is saved; a non-leader sends after save, and after applyEntries for a committed configuration change, with or without a snapshot |
| Notifyc.NoDeadlock | src/go.etcd.io/etcd/etcdserver/server.go:1124-1144 | until both routines handled every Ready one of them can move |
| Notifyc.NothingIsLeftOut | src/go.etcd.io/etcd/etcdserver/raft.go:218-360 | once both routines are through, every Ready was saved, appended, sent, applied and had its chance of a snapshot, and exactly the received snapshots were saved and loaded |
| ReadIndex.StepInv | src/go.etcd.io/etcd/etcdserver/v3_server.go:683-804 | every step of readers, loop, raft and apply routine keeps notifiers, tokens and rounds consistent |
| ReadIndex.ReadsAreLinearizable | src/go.etcd.io/etcd/etcdserver/v3_server.go:683-782 | in every interleaving a read that returns without error does so only once the member applied everything committed when the read was called |
| ReadIndex.ReadFailsOnlyIf | src/go.etcd.io/etcd/etcdserver/v3_server.go:708-803 | in every interleaving a read that returned failed if and only if its reader gave up, or the request of its round to raft failed, or that round was given up |
| ReadIndex.ReadSeesCommitted | src/go.etcd.io/etcd/etcdserver/v3_server.go:784-803 | a read answered without error is answered when the member has applied everything that was committed when it was called |
| ReadIndex.ServedReadSucceeds | src/go.etcd.io/etcd/etcdserver/v3_server.go:779-803 | a reader that wakes after its round reached its end returns without error |
| ReadIndex.CallIsRecorded | src/go.etcd.io/etcd/etcdserver/v3_server.go:784-804 | the commit index a reader is held to is the one at its call |
| ReadIndex.NoLostWakeup | src/go.etcd.io/etcd/etcdserver/v3_server.go:784-804 | a waiting reader's notifier is current with a token pending or just taken, or in the running round, or closed |
| ReadIndex.ClosedOnce | src/go.etcd.io/etcd/etcdserver/v3_server.go:683-782 | no notifier is notified twice |
| ReadIndex.StaleAnswersIgnored | src/go.etcd.io/etcd/etcdserver/v3_server.go:735-770 | only the answer to this round's own request ends the wait, and its index covers the commit index at the request |
| RaftNodes.GetIDs | src/go.etcd.io/etcd/etcdserver/raft.go:710-744 | the sorted ids are the members after the configuration changes |
| RaftNodes.CreateConfigChangeEnts | src/go.etcd.io/etcd/etcdserver/raft.go:751-811 | once the new entries are applied the member is the only one, at no point is the member set without it, indexes run on without a gap, and nothing is added if it was alone |
| RaftNodes.RestartAsStandalone | src/go.etcd.io/etcd/etcdserver/raft.go:611-656 | a forced restart keeps the committed prefix of the log, drops the rest and ends with the single member committed |
| RaftNodes.ProcessMessages | src/go.etcd.io/etcd/etcdserver/raft.go:381-430 | the backward pass in place keeps the receiver of exactly those messages that are not snapshots, whose receiver is still a member, and that no later append response supersedes; the server loop gets the last snapshot messages of the batch, newest first, up to its room |
| LeaseQueues.LeaseQueue.Up | src/go.etcd.io/etcd/lease/lease_queue.go:33-41 | sifting up restores the heap and keeps the items and their positions |
| LeaseQueues.LeaseQueue.Down | src/go.etcd.io/etcd/lease/lease_queue.go:33-41 | sifting down restores the heap below a start, moves no item beyond its bound, and reports whether it moved anything |
| LeaseQueues.LeaseQueue.Fix | src/go.etcd.io/etcd/lease/lease_queue.go:81-89 | after one item's time changed the queue is a heap of the same items again |
| LeaseQueues.LeaseQueue.Push | src/go.etcd.io/etcd/lease/lease_queue.go:43-48 | a pushed item joins the heap |
| LeaseQueues.LeaseQueue.Pop | src/go.etcd.io/etcd/lease/lease_queue.go:50-57 | the popped item is due no later than any other, its index is -1, and the rest is a heap |
| LeaseQueues.LeaseQueue.LeastAt | src/go.etcd.io/etcd/lease/lease_queue.go:97-102 | in a heap no item is due before the first |
| LeaseNotifiers.LeaseExpiredNotifier.RegisterOrUpdate | src/go.etcd.io/etcd/lease/lease_queue.go:81-89 | afterwards the lease is queued once, due at the given time; all others are as before; map and heap agree, also when the time was written into the queued item first |
| LeaseNotifiers.LeaseExpiredNotifier.Unregister | src/go.etcd.io/etcd/lease/lease_queue.go:91-95 | removes a lease that is due first, from heap and map |
| LeaseNotifiers.LeaseExpiredNotifier.Poll | src/go.etcd.io/etcd/lease/lease_queue.go:97-102 | looks at a lease that is due first, or reports that there is none |
| LeaseNotifiers.LeaseExpiredNotifier.Init | src/go.etcd.io/etcd/lease/lease_queue.go:73-79 | rebuilds heap and map from the items |
| Lessors.Lessor.Grant | src/go.etcd.io/etcd/lease/lessor.go:258-308 | the error cases in order; otherwise the lease lives with at least the minimum time, on a primary expiring after it and queued at its expiry, elsewhere never expiring |
| Lessors.Lessor.Revoke | src/go.etcd.io/etcd/lease/lessor.go:310-348 | an unknown lease is an error; otherwise exactly it is gone, its queued item remaining |
| Lessors.Lessor.Checkpoint | src/go.etcd.io/etcd/lease/lessor.go:350-363 | only the remainder changes, no expiry |
| Lessors.Lessor.Renew | src/go.etcd.io/etcd/lease/lessor.go:367-418 | only a primary renews; an expired lease is never renewed; a renewed one is queued at its new expiry, which is its full time from now when a checkpointer is set; no other lease changes |
| Lessors.Lessor.Promote | src/go.etcd.io/etcd/lease/lessor.go:442-493 | every lease expires the extension and its remainder from now, unless there are 1000 or more and its number in its window is above 750; then it expires its number over 750 seconds after the start of the window; the notifier holds every lease at its new expiry |
| Lessors.Lessor.Demote | src/go.etcd.io/etcd/lease/lessor.go:501-518 | no lease expires any more and the notifier is empty |
| Lessors.Lessor.ExpireExists | src/go.etcd.io/etcd/lease/lessor.go:670-699 | looks at the lease due first: drops it if it is gone, reschedules it by the retry interval if it is due, else leaves it |
| Lessors.Lessor.FindExpiredLeases | src/go.etcd.io/etcd/lease/lessor.go:702-728 | the sweep ends, returns distinct expired leases up to the limit, and below the limit it returned every live lease that was due and left none due |
| Lessors.SortByExpiry | src/go.etcd.io/etcd/lease/lessor.go:495-499 | the leases, each once, by remaining time |
| Lessors.SweptAgain | src/go.etcd.io/etcd/lease/lessor.go:702-728 | rescheduling a due lease beyond now is progress of the sweep, and that lease is not found twice |
| Lessors.NoLeaseIsShortened | src/go.etcd.io/etcd/lease/lessor.go:460-492 | after a promotion no lease has less than the extension and its remainder, and spread leases are where the rate puts them |
| Spread.TurnsAreDelays | src/go.etcd.io/etcd/lease/lessor.go:460-492 | the running window and the delays of the loop are determined by the sorted remaining times |
| Spread.DelayIsNotNegative | src/go.etcd.io/etcd/lease/lessor.go:460-492 | no delay is negative |
| Spread.DelayedByNumber | src/go.etcd.io/etcd/lease/lessor.go:460-492 | of every window, told by the sorted remaining times, exactly the leases numbered above 750 are delayed, and land at their number over 750 seconds |
| Spread.AtMostTargetKept | src/go.etcd.io/etcd/lease/lessor.go:464-481 | at most 750 leases of a window keep their own time |
| Spread.LandingsApart | src/go.etcd.io/etcd/lease/lessor.go:480-488 | delayed leases of a window land in order, and those a whole target apart in number at least a second apart |
| Spread.AtMostTargetPerSecond | src/go.etcd.io/etcd/lease/lessor.go:455-459 | of one window, at most the target number of delayed leases land in any second |
| Prefixes.GetPrefix | src/go.etcd.io/etcd/clientv3/op.go:365-378 | the loop on a copy raises the last byte below 0xff and cuts there, or answers the open end |
| Prefixes.Op.WithPrefix | src/go.etcd.io/etcd/clientv3/op.go:383-391 | the range asked for, read as the server reads it, holds exactly the non-empty keys with the prefix |
| Prefixes.Op.WithFromKey | src/go.etcd.io/etcd/clientv3/op.go:403-410 | the range asked for, read as the server reads it, holds exactly the non-empty keys at or above the key |
| Prefixes.FromKeyHits | src/go.etcd.io/etcd/etcdserver/apply.go:1007-1012 | start and end of a from-key query together meet exactly the non-empty keys at or above the key, the empty key included |
| Prefixes.FromKeyRead | src/go.etcd.io/etcd/mvcc/index.go:106-119 | a from-key read of the index lists, in order, exactly the keys at or above the key that exist at the revision |
| Prefixes.PrefixInterval | src/go.etcd.io/etcd/clientv3/op.go:365-378 | a key is in the interval if and only if it starts with the prefix, prefixes of 0xff bytes only included |
| Prefixes.PrefixHits | src/go.etcd.io/etcd/etcdserver/apply.go:1007-1012 | the interval as the client makes it and the server reads it holds exactly the non-empty keys with the prefix |
| Prefixes.PrefixRead | src/go.etcd.io/etcd/mvcc/index.go:106-119 | a prefix read of the index lists, in order, exactly the keys with the prefix that exist at the revision |
| Intervals.InsertKeepsOrder | src/go.etcd.io/etcd/pkg/adt/interval_tree.go:470-498 | insertion by begin keeps the visiting order |
| Intervals.IntersectsPoint | src/go.etcd.io/etcd/auth/range_perm_cache.go:99-114 | a single key meets the tree if and only if some interval covers it |
| Intervals.Contains | src/go.etcd.io/etcd/pkg/adt/interval_tree.go:744-765 | the walk that watches for gaps answers whether every key of the range, and its first in any case, is covered |
| AuthLaws.PermissionMeans | src/go.etcd.io/etcd/auth/range_perm_cache.go:41-52 | the interval of a permission covers a key if and only if the permission reaches it: point, range, or from-key |
| AuthLaws.MergedMeans | src/go.etcd.io/etcd/auth/range_perm_cache.go:25-72 | the merged trees are in order and cover a key if and only if one of the user's roles grants it |
| AuthLaws.TreeAnswers | src/go.etcd.io/etcd/auth/range_perm_cache.go:74-114 | a point or range check of the merged trees answers whether the roles grant every key requested |
| AuthStores.AuthStore.GetMergedPerms | src/go.etcd.io/etcd/auth/range_perm_cache.go:25-72 | the nested loops build the merged trees of the user's roles |
| AuthStores.AuthStore.IsRangeOpPermitted | src/go.etcd.io/etcd/auth/range_perm_cache.go:116-140 | through the cache the answer is that of the store: the user exists and its roles grant every key requested, for a key or a range that ends after it begins; nothing is ever permitted beyond that; at most the user's own entry is added |
| AuthStores.AuthStore.IsOpPermitted | src/go.etcd.io/etcd/auth/store.go:929-981 | with authentication on: a token, a current token, an existing user, and the root role or a grant of every key, in this order of errors |
| AuthStores.SearchNames | src/go.etcd.io/etcd/auth/store.go:1201-1205 | binary search finds the place of a name in a sorted list and whether it is there |
| AuthStores.AuthStore.HasRootRole | src/go.etcd.io/etcd/auth/store.go:1201-1205 | binary search in the sorted role list finds the root role if and only if it is in the list |
| AuthStores.AuthStore.HasRole | src/go.etcd.io/etcd/auth/store.go:1440-1465 | the linear scan finds a role if and only if the user has it |
| AuthStores.AuthStore.UserAdd | src/go.etcd.io/etcd/auth/store.go:406-464 | adds a user without roles, or reports an empty or taken name |
| AuthStores.AuthStore.UserDelete | src/go.etcd.io/etcd/auth/store.go:466-503 | removes the user and its cache entry; refuses root while authentication is on |
| AuthStores.AuthStore.UserChangePassword | src/go.etcd.io/etcd/auth/store.go:505-556 | changes the password alone and drops the cache entry |
| AuthStores.AuthStore.UserGrantRole | src/go.etcd.io/etcd/auth/store.go:558-611 | the role is added in its sorted place, a second grant changes nothing, the cache entry is dropped |
| AuthStores.AuthStore.UserRevokeRole | src/go.etcd.io/etcd/auth/store.go:641-699 | the role is taken from the list; refuses root's root role while authentication is on |
| AuthStores.AuthStore.RoleAdd | src/go.etcd.io/etcd/auth/store.go:830-859 | adds an empty role, or reports an empty or taken name |
| AuthStores.AuthStore.RoleDelete | src/go.etcd.io/etcd/auth/store.go:775-828 | removes the role, takes it from every user the enumeration meets and drops the cache entries of those users only |
| AuthStores.AuthStore.RoleGrantPermission | src/go.etcd.io/etcd/auth/store.go:879-927 | updates the first permission on the key if its range is the same, else adds one in key order; drops the whole cache |
| AuthStores.AuthStore.RoleRevokePermission | src/go.etcd.io/etcd/auth/store.go:729-773 | removes every permission on exactly that range, or reports that there is none; drops the whole cache |
| AuthStores.AuthStore.AuthEnable | src/go.etcd.io/etcd/auth/store.go:228-271 | needs a root user holding the root role; drops the whole cache |
| AuthStores.AuthStore.AuthDisable | src/go.etcd.io/etcd/auth/store.go:273-296 | turns authentication off at a new revision |
| AuthLaws.StepIsGood | src/go.etcd.io/etcd/auth/store.go:406-927 | every operation that finds no enumeration gap keeps all cache entries equal to the recomputed permissions, the lists sorted, and an administrator while authentication is on |
| AuthLaws.RunIsGood | src/go.etcd.io/etcd/auth/store.go:406-927 | so does every run |
| AuthLaws.EnumeratedNamesAreSafe | src/go.etcd.io/etcd/auth/store.go:1041-1061 | a run from the empty store whose user names lie within the enumeration finds no gap |
| AuthLaws.RoleDeleteCoherent | src/go.etcd.io/etcd/auth/store.go:775-828 | deleting a role leaves a right cache if and only if no cached user outside the enumeration holds the role, or the role gave nothing |
| AuthLaws.RoleDeleteCanLeaveStale | src/go.etcd.io/etcd/auth/store.go:1041-1061 | a run after which a user whose name starts with 0xff still has a deleted role's permission in its cache entry |
| AuthLaws.StepKeepsRolesSorted | src/go.etcd.io/etcd/auth/store.go:584-595 | role lists stay sorted without duplicates, as binary search needs |
| AuthLaws.StepChangesUsers | src/go.etcd.io/etcd/auth/store.go:406-699 | a successful operation changes which users exist, their passwords and who holds which role as it says and no further |
| AuthLaws.StepChangesRoles | src/go.etcd.io/etcd/auth/store.go:729-927 | a successful operation changes which roles exist and what they give as it says and no further; a grant may replace only on its own range |
| AuthLaws.RolesHeldMean | src/go.etcd.io/etcd/auth/store.go:558-828 | after any run a user holds a role exactly if it was granted and since then neither revoked nor lost with the user or, for a user the enumeration meets, with the role |
| AuthLaws.RevisionGuards | src/go.etcd.io/etcd/auth/store.go:929-956 | the revision never falls and while it stays users and roles stay, so a token that passes the revision check was issued against the same users and roles |
| AuthLaws.GrantReplaces | src/go.etcd.io/etcd/auth/store.go:890-907 | after a grant all permissions on the range have the granted type if and only if no other one there, beyond the first on its key, had a different type |
| AuthLaws.GrantCanLeaveMore | src/go.etcd.io/etcd/auth/store.go:890-907 | a READ grant on a range that is second on its key leaves the READWRITE permission there |

## Left out

- Raft, the write-ahead log, bbolt, google/btree and the red-black interval tree enter by contracts: an ordered map, records in key order, the visiting order of the tree, data and index committed together, and the ReadIndex contract.
- Intervals.Contains: walks the sequence of intervals of a tree; for a range that does not end after it begins the tree's pruning may pass over intervals holding its first key, which the sequence does not show.
- AuthStores.AuthStore.IsRangeOpPermitted: for such a range only that nothing is permitted without a grant is stated, because the tree may deny what the roles grant.
- AuthStores.AuthStore.IsOpPermitted: likewise leaves open whether such a range is denied.
- Goroutines, locks and channels are steps of interleavings; only the compaction walk, the sweep, the handshake and the read loop interleave. Clocks are integer arguments that a caller chooses.
- Integers are unbounded; overflow of 64-bit revisions, lease times and indexes is not modelled. Durations of Promote that the program computes in floating point are exact and truncated to nanoseconds.
- Logging, metrics, tracing and protobuf encoding are not modelled. A panic is a result where it is an outcome, else proved unreachable.
- Sorting routines of the Go library are insertion sorts here; no contract depends on which one it is.
- TxnApply.ApplyTxn: nested requests are assumed present, as the API layer ensures; a nil nested transaction is not modelled, a nil request is.
- TxnApply.TxnWriter.Put: the lease attachment and the backend record of a put are not part of this model, only the resulting key-value state.
- KV.ApplyCompare: reads at past revisions come from a map of committed states; that the store answers them so is the subject of the mvcc part.
- RangeResults.Range: the pairs found are given; the error of a future or compacted revision belongs to the read before it. Nondeterministic order among equal sort keys is left open.
- ApplyOnce.Server.Apply: execution and what is stripped of a request are arbitrary functions; v2 requests, membership contents and the removal of a stopped member are not modelled.
- ApplyOnce.Server.ApplyV3: one request is one backend transaction that stores the consistent index with its data; requests that use several, or that store data without the index as lease grants do, are not modelled.
- TxnReplay.ReplayDoesRejected: the log holds one transaction on a new store; a panic, which no start can get past, leaves a member down for good.
- Lessors.Lessor.Renew: runs without interleaving; the wait of an expired lease is an argument that says how it ended. A revocation between its two locked sections is not modelled.
- Lessors.Lessor.Revoke: the deletion of attached keys and Attach/Detach are not modelled.
- Lessors.Lessor.Checkpoint: scheduling of checkpoints and findDueScheduledCheckpoints are not modelled; they use the same heap without the id map.
- Lessors.Lessor.Grant: recovery of leases from the backend, on a primary or not, is not modelled.
- AuthStores.AuthStore.UserAdd: passwords are their hashes; bcrypt, tokens and the recovery of the store from another backend are not modelled.
- AuthStores.AuthStore.RoleGrantPermission: the place among permissions of the same key that the library's unstable sort gives is left open.
- Prefixes.Op.WithPrefix: the other options and the conversion of operations to requests only copy fields.
- RaftNodes.ProcessMessages: the heartbeat observation only counts late heartbeats.
- Intervals.InsertKeepsOrder: the sequence of intervals stands for the tree in visiting order; the max fields and the balancing of the tree are not modelled.
- Restart.RestoreIntoIndex: the cache of key indexes, chunked reading and the attachment of leases while the records are read are not modelled.
- Stores.Store.WriteTxn: reads inside a transaction, lease attachment and the values of the records belong to the transaction part; a delete of a range is its deletes of single keys.
- Crashes.RunRestarts: the disk is taken as of its last commit, what was not committed being as if it had not happened; a run ends at a start that does not bring the store back.
- Hash checks, watch streams, quotas, alarms, membership health and version negotiation are not modelled.
