# A verified model of the GRMDB storage and query engine

GRMDB (RMDB) is a small relational engine in C++: a disk B+ tree, log-based crash
recovery, a buffer pool over paged files, slotted record files, a join planner with index
scans and an external sort, and a lock manager. This project models the stateful cores of
these parts in Dafny and proves what each of them is for. `dafny verify dfyconfig.toml`
checks the whole project. Nothing was executed; all claims are proofs about the model.

The parts and their files:

- **B+ tree.** `IxNode` is a page with its physical arrays, stale slots included. `IxTree`
  states the global invariant: sorted pages, separators that fence subtrees, equal leaf
  depth, agreeing parent pointers, page sizes, the circular leaf list, and the map of
  entries that the tree stands for. `IxReshape`, `IxSplit`, `IxMerge`, `IxChain`,
  `IxSteps`, `IxHeight`, `IxInsert`, `IxDelete` and `IxZero` prove what each structural step
  does to it, and `IxFill` how full and how low a legal tree is. `IxHandle` is the class with the operations, `IxRange` and `IxScanner` the range
  iterator, `GapScan` the executor's scan between two bounds, `IxRun` whole runs. Keys are
  integers; `IndexKeys` maps composite INT keys to them by an order-preserving encoding
  under which the all-zero key is 0.
- **Recovery.** `RecoveryLog` defines replay, history (what memory holds, rollbacks
  included), well-formed logs and what the three passes make of a location. `Recovery` has
  the steps of redo and undo and why recovery can start over, for any linked log;
  `RecoveryHistory` compares history, the committed value and what undo leaves, and
  `RecoveryMeaning` says what they are in terms of the images in the records.
  `RecoveryAnalysis` and `RecoveryQueue` are the tables and the undo queue,
  `RecoveryPasses` the class with analysis, redo and undo. `Engine` is normal operation as
  a state machine with rollbacks and with eviction as the code does it, `EngineSteps` its
  invariant, `EngineMeaning` what clients see of its steps, `EngineCrash` what recovery makes of a crash at any point, `RecoveryLosses`
  runs that recovery gets wrong. `LogCodec` is the byte format and `LogBuffer` the log
  buffer.
- **Buffer pool.** `Replacer`, `BufferPool`, `BufferPoolOps`; page ids in `PageIds`.
- **Record file.** `Bitmap`, `RmFile`, `RmHandle`, `RmScanner`, `SeqScanner`.
- **Tables.** `TableWrites` states what writes and their rollback do to records and
  indexes, `IndexSets` sees a table's B+ trees as one sequence of maps, and `TableStores` is
  the class with the write executors and rollback over these trees.
- **Query side.** `Plans`, `Planner`, `JoinTree` (the join tree). `PlanRows` has the rows
  of a plan and what they mean, `JoinStreams` what nested loops over two streams of tuples
  deliver, `NestedLoopJoin` the executor, whose children are scans or joins again,
  `PlanExecution` a plan's executors together and when they crash, `PlanCrashes` queries
  that do. `IndexBound` and `IndexScan` (index choice, key bounds), `MergeSort` and
  `SortExecutor`.
- **Table locks.** `LockQueue`, `LockTable`.

Classes model objects that the source updates in place; ghost fields hold what they stand
for. Disk and log file are maps and sequences. Every latched operation is one atomic step.

Where the code does not do what it is meant to, the model follows the code and the exact
condition is proved:

- A root split compares the promoted separator with the zeroed slot 1 of the new root, so
  inserting fails although the key is new exactly when that separator is the all-zero key
  (`IxHandle.IxIndexHandle.InsertEntry`, `IxRun.ZeroSeparatorHappens`). The root is then left
  with one child, the former root, to which every key but the all-zero one leads
  (`IxHandle.IxIndexHandle.BrokenStep`). Runs that never insert this key never fail
  (`IxRun.Run`).
- `delete_entry` of an absent key above all keys of its leaf compares it with the page
  header in front of the key array, and erases slot -1 when they are equal
  (`IxHandle.IxIndexHandle.DeleteEntry`). Over one INT column these bytes are `next_leaf`: in
  an index with one leaf that happens for the key that equals the leaf's page number
  (`IxRun.MisreadHappens`).
- Eviction flushes the log only when the page LSN is above `persist_lsn_`, which is the
  next LSN, so that a page can reach the disk before its own log record
  (`BufferPoolOps.BufferPoolManager.UpdatePage`). Recovery after a crash is right only
  when what such a page holds at the place of the lost record is harmless
  (`EngineCrash.CrashAndRecover`), and it need not be
  (`RecoveryLosses.EarlyEvictionKeepsUncommitted`). `flush_page`, `flush_all_pages` and
  `delete_page` do not look at the log at all.
- A checkpoint makes its log record durable before it writes the pages. Recovery after a
  crash in between is right exactly when the disk already agreed with memory wherever undo
  does nothing (`EngineCrash.CrashInCheckpoint`); a committed insertion can be lost
  (`RecoveryLosses.CheckpointLosesCommit`).
- Analysis forgets a rolled back transaction only at the next checkpoint. Until then undo
  takes its writes back again, and with them what another transaction has committed at the
  same place since. From every state of every run, recovery is right exactly when pages
  written back early are harmless and, at each place, no committed write follows one that
  undo takes back, or the committed value is just what undo puts there
  (`EngineCrash.CrashAndRecover`, `RecoveryHistory.UndoKeepsIff`). A committed insertion
  into the slot of a rolled back one is lost (`RecoveryLosses.AbortLosesCommit`).
- `fetch_page` of a page that is not on disk throws after the frame has been given away. The
  frame stays unpinned, outside the free list, and in the LRU list exactly when the free
  list had it while the LRU list did too, as after `delete_page`
  (`BufferPoolOps.BufferPoolManager.FetchPage`).
- `unpin_page` loses the consistency of the pool exactly when the last pin goes and the
  client has written without reporting it (`BufferPoolOps.BufferPoolManager.UnpinPage`).
- `delete_record` does not look at the bitmap; the file stays consistent exactly when the
  record was live (`RmHandle.RmFileHandle.DeleteRecord`).
- An insertion that an index refuses leaves the indexes before it with the key of a record
  that is gone. The table is as before exactly when the first index has the key already
  (`TableStores.TableStore.Insert`, `TableStores.InsertLeavesKey`).
- The restore loop of a failed update puts old keys back without taking new ones out, and
  throws at the first index in which the two are equal. The table is as before exactly when
  the first index fails (`TableStores.TableStore.Update`, `TableStores.UpdateLeavesKey`).
  Updates and rollbacks break a tree exactly when the tree into which they put a key back
  would split at the all-zero key (`TableStores.TableStore.Update`,
  `TableStores.TableStore.Abort`).
- `pop_conds` gives every condition between two columns of one table to the first table of
  the query; the plan can evaluate all its conditions exactly when they are about that
  table (`JoinTree.MakeOneRel`).
- `Next` of a join moves its record out, and `beginTuple` does not reset its end flag. So a
  join that is the outer child of another one crashes when it is read again for a second
  inner row, and one that is the inner child when it is begun again for a second outer row
  (`NestedLoopJoin.NestedLoopJoinExecutor.Look`, `JoinStreams.JoinCrashes`). Executors pull
  rows one at a time, and a crash counts only as far as a child is pulled: the exact
  condition for any plan and any tables is `PlanExecution.CrashesStep`. At most two tables
  never crash (`PlanExecution.TwoTables`), and a third joined onto them crashes exactly when
  the join has a row and the third table delivers two (`PlanExecution.ThreeTables`,
  `PlanCrashes.ThreeTablesCrash`). A query with a result crashes exactly when beside some
  join that is a child there are two rows (`PlanExecution.CrashesIff`). What is delivered is
  in any case the beginning of the rows that the plan denotes, and all of them without a
  crash (`PlanExecution.RunQuery`). The planner makes a join an inner child exactly when
  some condition between tables shares no table with those before it
  (`JoinTree.MakeOneRel`, `PlanCrashes.FourTablesCrash`).
- An index scan whose bounds have crossed over exactly one stored key runs past the end of
  the leaf list, unless the lower bound is closed and stored or is the key of the end
  (`GapScan.RangeScan`, `GapScan.OverrunHappens`). `get_key` sets only the first two columns
  of the key of the end, so that a scan over three columns can take a range for empty,
  exactly as `IndexScan.ScanIndex` says (`IndexScan.StaleEndCuts` is such a scan); with two
  columns it cannot (`IndexScan.TwoColumns`).
- Merging two sorted blocks writes one tuple over another exactly when they share a key, and
  no pass of the sort overwrites a tuple exactly when no two initial runs share a key
  (`MergeSort.MergeLosesIff`, `SortExecutor.ExecutorOverwritesIff`). The places at the end of
  a pass then keep what an earlier pass or the zero fill left there: the output is a
  permutation exactly when, over all passes, these are the tuples that the merged pairs lack
  (`MergeSort.SortPermutesIff`). Two runs come out as a permutation exactly when every
  overwritten tuple is a zero tuple (`MergeSort.TwoRuns`), as when all tuples are zero
  (`SortExecutor.ZeroTuples`).
- `insert_pairs` shifts by `pos` instead of the number of pairs; both its call sites get
  what a correct shift would give (`IxDelete.InsertPairsAtOne`, `IxDelete.InsertPairsAtEnd`).

## Model

| member | source | states |
|---|---|---|
| IxNode.LowerBound | src/index/ix_index_handle.cpp:22-47 | binary search on a sorted page finds the first key not below the target, ignoring slot 0 of an internal page, and -1 when there is none; a page with one child looks at the unused slot 1 |
| IxNode.UpperBound | src/index/ix_index_handle.cpp:82-107 | binary search finds the first key above the target, or -1 |
| IxHandle.FindSlot | src/index/ix_index_handle.cpp:245-282 | insertion point of a key and whether it is a duplicate; a page with one child compares with its stale slot 1 |
| IxHandle.InternalLookup | src/index/ix_index_handle.cpp:168-186 | the child chosen is the one whose key span contains the key; on a page with one child the unused slot 1 is compared |
| IxHandle.CreateIndex | src/index/ix_manager.h:57-84 | refuses keys over 512 bytes; otherwise the order is the largest for which one slot more still fits the page, and it is at least 6 |
| IxHandle.SumAdds | src/index/ix_manager.h:57-70 | the length of a key is the sum of the lengths of its columns |
| IxHandle.SumOfOne | src/index/ix_manager.h:57-70 | the length of one column counts as it is |
| IxHandle.IxIndexHandle.constructor | src/index/ix_manager.h:80-104 | a new index is valid and empty |
| IxHandle.IxIndexHandle.FindLeaf | src/index/ix_index_handle.cpp:354-370 | descent from the root ends at the leaf responsible for the key |
| IxHandle.IxIndexHandle.Lookup | src/index/ix_index_handle.cpp:140-160 | finds a key exactly when the map has it, with its record position |
| IxHandle.IxIndexHandle.MaintainChildren | src/index/ix_index_handle.cpp:1154-1162 | exactly the children from a slot on get the new parent |
| IxHandle.IxIndexHandle.Split | src/index/ix_index_handle.cpp:414-472 | moves the upper half to a new page, links it into the leaf list and reparents moved children |
| IxHandle.IxIndexHandle.InsertIntoParent | src/index/ix_index_handle.cpp:484-536 | carries a split up to the root; restores the whole invariant exactly when no all-zero separator reaches a new root |
| IxHandle.IxIndexHandle.InsertEntry | src/index/ix_index_handle.cpp:544-584 | duplicate exactly when the key is present, and then nothing changes; otherwise the invariant is kept and the map gains the entry, except exactly when the root split would promote the all-zero key, which leaves a root over the former one alone, with its keys below zero, and never happens in an index that has not held that key |
| IxHandle.IxIndexHandle.BrokenStep | src/index/ix_index_handle.cpp:168-186 | below a root that a zero separator has broken, the all-zero key leads to page 0 and every other key to the former root |
| IxHandle.IxIndexHandle.InsertFirst | src/index/ix_index_handle.cpp:553-570 | the first insertion makes a valid one-leaf tree with that entry |
| IxHandle.IxIndexHandle.FindChild | src/index/ix_index_handle.h:227-236 | the slot of a child in its parent |
| IxHandle.IxIndexHandle.Redistribute | src/index/ix_index_handle.cpp:720-769 | borrowing one entry or child from a sibling makes the whole tree legal again |
| IxHandle.IxIndexHandle.Coalesce | src/index/ix_index_handle.cpp:785-838 | merging two siblings never exceeds the order, drops the separator and keeps the tree legal but for the parent's size |
| IxHandle.IxIndexHandle.AdjustRoot | src/index/ix_index_handle.cpp:678-704 | an internal root with one child collapses to it, an empty root leaf empties the index |
| IxHandle.IxIndexHandle.CoalesceOrRedistribute | src/index/ix_index_handle.cpp:626-668 | rebalancing ends at the root and restores minimum fill at every level without changing the entries |
| IxHandle.IxIndexHandle.DeleteEntry | src/index/ix_index_handle.cpp:591-614 | the invariant is kept and exactly the key leaves the map; an absent key changes nothing, except exactly when it is above all keys of its leaf and equal to the header bytes in front of the key array; without a root it fails |
| IxFill.HalfFull | src/index/ix_index_handle.cpp:642-660 | in every legal tree each page but the root is filled to half of the order, less at most one slot |
| IxFill.TreeSize | src/index/ix_index_handle.cpp:642-660 | a legal tree whose leaves are h levels down holds at least 2 * m^h entries, where m is half of the order less one |
| IxFill.SubtreeSize | src/index/ix_index_handle.cpp:642-660 | a page other than the root that is h levels above the leaves holds at least m^(h+1) entries |
| IxRun.MisreadHappens | src/index/ix_index_handle.cpp:603-606 | over one INT column, in a legal tree with one leaf, deleting the absent key that equals the leaf's page number is misread as slot -1 |
| IxRun.MisreadIff | src/index/ix_index_handle.cpp:603-606 | over one INT column a deletion is misread exactly when the key is the page number of the leaf after the responsible one, and above all keys of that |
| IxHandle.IxIndexHandle.LowerBoundOf | src/index/ix_index_handle.cpp:866-892 | the canonical position of the first entry not below the key |
| IxHandle.IxIndexHandle.UpperBoundOf | src/index/ix_index_handle.cpp:932-958 | the canonical position of the first entry above the key |
| IxDelete.InsertPairsAtOne | src/index/ix_index_handle.cpp:218-236 | inserting one pair at slot 1 is a correct insertion although the shift is by the position |
| IxDelete.InsertPairsAtEnd | src/index/ix_index_handle.cpp:807-812 | appending a sibling's pairs concatenates the two pages |
| IxDelete.BorrowStep | src/index/ix_index_handle.cpp:720-769 | any borrow leaves both siblings and all other pages legal |
| IxDelete.CoalesceStep | src/index/ix_index_handle.cpp:785-838 | any merge leaves everything but the parent's size legal |
| IxInsert.LinkStep | src/index/ix_index_handle.cpp:509-536 | linking a split into a parent keeps the structure; only the parent may now be overfull |
| IxInsert.RootStep | src/index/ix_index_handle.cpp:484-508 | growing a new root over a split makes the tree legal |
| IxHeight.RootIsTallest | src/index/ix_index_handle.cpp:484-536 | pages below the root are lower than the root, which bounds the upward recursion |
| IxHandle.SiblingExists | src/index/ix_index_handle.cpp:640-660 | a page that is not the root has a sibling, because the order is at least 6 |
| IxSteps.PutOk | src/index/ix_index_handle.cpp:245-282 | putting a new key into the responsible leaf keeps the structure and extends the map |
| IxSteps.EraseOk | src/index/ix_index_handle.cpp:289-306 | erasing a key from its leaf keeps the structure and shrinks the map |
| IxSteps.CollapseOk | src/index/ix_index_handle.cpp:678-704 | replacing a one-child root by its child keeps the structure |
| IxRun.Run | src/index/ix_index_handle.cpp:544-614 | every run of insertions and deletions keeps the invariant and equals a plain map under the same operations, up to the first zero separator or misread deletion; a run from the empty index that never inserts the all-zero key and deletes present keys only does not fail |
| IxRun.ZeroSeparatorHappens | src/index/ix_index_handle.cpp:494-508 | a legal tree without the key 0 in which inserting 0 is refused |
| IxZero.UsedNotZero | src/index/ix_index_handle.cpp:484-536 | in an index that has never held the all-zero key no key in use, entry or separator, is zero |
| IxRange.AllSorted | src/index/ix_index_handle.cpp:1037-1062 | the leaf list from first to last leaf is in strictly increasing key order |
| IxRange.AllIsEntries | src/index/ix_index_handle.cpp:1037-1062 | every entry of the leaf list is an entry of the map |
| IxRange.EntryInAll | src/index/ix_index_handle.cpp:1037-1062 | every entry of the map is in the leaf list |
| IxRange.PositionsAreCanonical | src/index/ix_scan.h:33-33 | two positions are equal exactly when their ranks are, so equality with the end is a correct stop test |
| IxScanner.IxScan.Current | src/index/ix_index_handle.cpp:849-860 | the entry under the cursor is the entry of its rank; it fails exactly at the end of the leaf list |
| IxScanner.IxScan.Next | src/index/ix_scan.cpp:17-31 | moves to the next rank, over leaf borders |
| IxScanner.Walk | src/index/ix_scan.cpp:17-31 | iterating from one position to a later one returns the entries between them; when the end lies before the start it fails at the end of the leaf list |
| GapScan.GetKey | src/index/ix_index_handle.cpp:992-1009 | the key at a position, and a fixed key at the end of the leaf list |
| GapScan.MinusOne | src/index/ix_index_handle.cpp:1011-1028 | the position of the rank before, which there is exactly when this is not the first |
| GapScan.GapKeys | src/execution/executor_index_scan.h:248-276 | the lower key of the gap is the bound when it is stored, else the entry before the range; the assertion holds exactly when the bound is not above the key found |
| GapScan.RangeScan | src/execution/executor_index_scan.h:91-131 | a scan between two open or closed bounds returns exactly the entries between them, once each and in order, with the exact conditions under which it runs past its end, fails an assertion or takes a range for empty, which returns nothing |
| GapScan.OverrunHappens | src/execution/executor_index_scan.h:106-109 | above 7 and below 3 with only 5 stored runs past the end |
| IxScanner.FullScan | src/index/ix_index_handle.cpp:1037-1062 | a scan from leaf_begin to leaf_end returns every entry once, in order |
| RecoveryPasses.RecoveryManager.Analyze | src/recovery/log_recovery.cpp:17-125 | the dirty pages are those written since the last checkpoint with their first LSN; the active transactions are those neither committed nor rolled back before a checkpoint, with their last begin or write record |
| RecoveryPasses.RecoveryManager.AnalyzeRecord | src/recovery/log_recovery.cpp:36-121 | one record of any kind updates the tables so that they describe one record more |
| RecoveryPasses.RecoveryManager.FirstDirty | src/recovery/log_recovery.cpp:144-148 | the least LSN of the dirty page table |
| RecoveryPasses.RecoveryManager.Redo | src/recovery/log_recovery.cpp:130-229 | for any log with LSNs in order and any store, applies exactly the writes since the last checkpoint that their pages lack; fails exactly when a dirty page is not on disk; every state on the way is one from which recovery makes the same |
| RecoveryPasses.RecoveryManager.Undo | src/recovery/log_recovery.cpp:234-308 | for any linked log, takes back exactly the writes that are neither committed nor rolled back before a checkpoint, largest LSN first; fails exactly when the page of one is not on disk; every state on the way is one from which recovery makes the same |
| RecoveryPasses.RecoveryManager.Recover | src/recovery/log_recovery.cpp:17-308 | for any linked log and any store the result is a function of both, location by location; fails exactly when a page that it needs is not on disk; recovery from any state on the way gives the same |
| RecoveryPasses.RedoTwice | src/recovery/log_recovery.cpp:130-229 | a second redo applies nothing and changes nothing |
| RecoveryPasses.RedoCompleteIff | src/recovery/log_recovery.cpp:111-121 | redo covers every missing write exactly when every page written before a checkpoint was flushed |
| RecoveryLosses.CheckpointLosesCommit | src/execution/execution_manager.cpp:133-144 | a run and a crash between checkpoint record and page flush after which the committed insertion is missing |
| RecoveryLosses.AbortLosesCommit | src/recovery/log_recovery.cpp:51-57 | a run in which a committed insertion takes the place of a rolled back one and recovery loses it |
| RecoveryLosses.EarlyEvictionKeepsUncommitted | src/storage/buffer_pool_manager.cpp:46-67 | a run in which a page is written back before its own record, after which recovery leaves an uncommitted record on disk |
| RecoveryQueue.PopWrite | src/recovery/log_recovery.cpp:253-297 | replacing the popped LSN by its prev_lsn keeps in the queue the last write not yet undone of every loser, all below the popped one |
| RecoveryQueue.PopBegin | src/recovery/log_recovery.cpp:299-302 | a popped begin record ends its transaction's chain |
| Recovery.CrashDuringRecovery | src/recovery/log_recovery.cpp:130-308 | pages written back at any moments of recovery, mixed in any way, are a state from which recovery makes the same |
| Recovery.RedoStep | src/record/rm_file_handle.cpp:225-282 | redoing a record that a page lacks changes nothing in what recovery makes of the store |
| Recovery.UndoStep | src/record/rm_file_handle.cpp:284-326 | undoing a loser changes nothing in what recovery makes of the store, whatever the location holds |
| Recovery.UndoSame | src/recovery/log_recovery.cpp:234-308 | what undo leaves at a location with a loser does not depend on what it held, except that updates do not bring a missing record back |
| Recovery.UndoAgain | src/recovery/log_recovery.cpp:17-308 | undo that was interrupted at any point and is started over ends with the same value |
| Recovery.RedoGoesOn | src/recovery/log_recovery.cpp:130-229 | redo from the state in which an interrupted redo left a page ends with the same value |
| EngineSteps.StepOk | src/transaction/transaction_manager.cpp:23-258 | begin, write, commit, rollback, log flush, eviction as the code does it and checkpoint each keep the log well-formed, memory equal to history without the rolled back writes, and every disk page equal to that history at some point between the record of its LSN and its next record |
| EngineSteps.RunOk | src/transaction/transaction_manager.cpp:23-258 | that holds in every state of every run |
| EngineMeaning.WriteShows | src/record/rm_file_handle.cpp:40-142 | a write shows the new bytes at its location, or nothing after a deletion, puts its LSN on the page and touches no other location |
| EngineMeaning.MemoryIs | src/transaction/transaction_manager.cpp:23-258 | in every state of every run memory holds what the last write says that has not been rolled back |
| EngineMeaning.AbortShows | src/transaction/transaction_manager.cpp:147-236 | a rollback brings back the bytes that the first record of the transaction at a location tells, or nothing if that is an insertion |
| EngineMeaning.AbortSpares | src/transaction/transaction_manager.cpp:147-236 | a rollback leaves every location alone that the transaction has not written |
| RecoveryHistory.RolledBackToFirst | src/transaction/transaction_manager.cpp:147-236 | undoing a transaction's writes to a location from the last to the first gives what the first one found |
| RecoveryHistory.HistoryIsLive | src/transaction/transaction_manager.cpp:147-236 | memory after any writes and rollbacks is the replay of exactly the records that have not been rolled back |
| RecoveryHistory.UndoneHistory | src/recovery/log_recovery.cpp:234-308 | history and committed value agree where there is no loser, and undo makes the same of both everywhere |
| RecoveryHistory.FirstLoserDecides | src/recovery/log_recovery.cpp:253-297 | what undo leaves at a location is what its first loser found there, except that updates do not bring a missing record back |
| RecoveryHistory.UndoKeepsIff | src/recovery/log_recovery.cpp:51-57 | undo leaves the committed value exactly when no committed write to the location follows one that it takes back, or that value is just what undo puts there |
| RecoveryMeaning.CommittedIs | src/record/rm_file_handle.cpp:225-282 | the committed value of a location is the new bytes of the last committed insertion or update there, nothing if that is a deletion, and what was there at first if there is none |
| RecoveryMeaning.HistoryIs | src/transaction/transaction_manager.cpp:147-236 | what memory holds at a location is what the last write there says that has not been rolled back |
| RecoveryMeaning.RecoveredMeans | src/recovery/log_recovery.cpp:17-308 | a store is recovered exactly when every location holds what the last committed write there says |
| EngineCrash.CrashOk | src/recovery/log_recovery.cpp:17-308 | recovery from the durable log and the disk of any state that satisfies the invariant is right exactly when the pages written back before their own records are harmless and undo leaves every committed value alone |
| EngineCrash.EarlyWrite | src/storage/buffer_pool_manager.cpp:53-59 | the exact condition for the location of a write that reached the disk before its record |
| EngineCrash.CrashedLoc | src/recovery/log_recovery.cpp:130-308 | a location of a page whose own record is durable ends with what undo makes of the committed value |
| EngineCrash.CrashAndRecover | src/recovery/log_recovery.cpp:17-308 | after a crash at any point of any run, recovery leaves at each location what the last write with a durable commit record says, exactly when every page written back before its own record is harmless and undo leaves every committed value alone; started over after a crash it makes the same |
| EngineCrash.CrashInCheckpoint | src/execution/execution_manager.cpp:133-144 | after a crash during a checkpoint of any run, with any pages written back so far, every location holds what the last committed write there says exactly when the disk agrees with memory wherever undo does nothing |
| EngineCrash.CheckpointCrashOk | src/execution/execution_manager.cpp:133-144 | the same for every state that satisfies the invariant |
| LogCodec.Serialize | src/recovery/log_manager.h:49-55 | the fields written at the advancing offset fill exactly log_tot_len bytes with the encoding of the record |
| LogCodec.Deserialize | src/recovery/log_manager.h:57-63 | reading the bytes of any record of the seven kinds gives it back |
| LogCodec.PutChange | src/recovery/log_manager.h:458-479 | the data part of insert, delete and update records: values, position, table name, free-list fields |
| LogCodec.DeserializeChange | src/recovery/log_manager.h:482-503 | the data part is read back field by field |
| LogCodec.ReadLog | src/recovery/log_recovery.cpp:26-34 | stepping through the concatenated records by their lengths recovers exactly the records and the offset of each LSN |
| LogCodec.HeaderBack | src/recovery/log_recovery.cpp:27-33 | the header alone tells kind, LSN, length and transaction |
| LogCodec.LittleEndianBack | src/recovery/log_manager.h:49-63 | integers survive the byte encoding |
| LogCodec.LowestFirst | src/recovery/log_manager.h:49-63 | the lowest byte of an integer comes first |
| LogCodec.CodeIsRank | src/recovery/log_manager.h:21-29 | the number of a kind is its place in the enumeration |
| LogBuffer.LogManager.AddLogToBuffer | src/recovery/log_manager.cpp:19-44 | records get consecutive LSNs and none is lost or reordered, whether or not the buffer had to be flushed |
| LogBuffer.LogManager.FlushLogToDisk | src/recovery/log_manager.cpp:49-67 | everything buffered becomes durable in order; the persistent LSN is right after the first flush that writes |
| Replacer.LruReplacer.Victim | src/replacer/lru_replacer.cpp:22-41 | takes the frame that was unpinned longest ago, by the times at which the frames were unpinned |
| Replacer.LruReplacer.Pin | src/replacer/lru_replacer.cpp:47-61 | removes the frame and keeps list and hash equal |
| Replacer.LruReplacer.Unpin | src/replacer/lru_replacer.cpp:67-90 | adds the frame in front unless present |
| BufferPoolOps.BufferPoolManager.constructor | src/storage/buffer_pool_manager.h:57-74 | all frames start free and the pool is consistent |
| BufferPoolOps.BufferPoolManager.FindVictimPage | src/storage/buffer_pool_manager.cpp:21-38 | the free list first, then the LRU victim; fails exactly when all frames are pinned |
| BufferPoolOps.BufferPoolManager.UpdatePage | src/storage/buffer_pool_manager.cpp:46-67 | a dirty page is on disk before its frame is reused, with all log records below its LSN durable; exact condition for its own record |
| BufferPoolOps.BufferPoolManager.FetchPage | src/storage/buffer_pool_manager.cpp:76-106 | returns the latest logical contents, fails exactly when the page is not resident and all frames are pinned, takes the head of the free list or the LRU victim, leaves all pinned frames and all logical contents alone, and keeps the write-ahead rule; a failed read leaves its frame in the LRU list exactly when it came from the free list with an entry there |
| BufferPoolOps.BufferPoolManager.UnpinPage | src/storage/buffer_pool_manager.cpp:114-150 | takes one pin and sets the dirty flag exactly when this or an earlier unpin since the last write-back reports it; the pool stays consistent exactly when a client that has written the page reports it at the latest with the last pin |
| BufferPoolOps.UnpinAll | src/storage/buffer_pool_manager.cpp:114-150 | giving back all pins of a written page leaves the pool consistent exactly when one of the reports, whichever it is, is dirty |
| BufferPoolOps.BufferPoolManager.FlushPage | src/storage/buffer_pool_manager.cpp:157-176 | the page on disk equals its contents; the write-ahead rule survives exactly when the records below its LSN are durable |
| BufferPoolOps.BufferPoolManager.NewPage | src/storage/buffer_pool_manager.cpp:183-215 | gives out the next page number of the file, with zero contents, in an unpinned frame |
| BufferPoolOps.BufferPoolManager.DeletePage | src/storage/buffer_pool_manager.cpp:222-253 | an unpinned page leaves the pool, its contents stay; the frame is then in the free list and in the LRU list; the write-ahead rule survives exactly when a dirty page had all records below its LSN durable |
| BufferPoolOps.BufferPoolManager.FlushAllPages | src/storage/buffer_pool_manager.cpp:259-270 | the disk agrees with the contents of every page of the file; the write-ahead rule survives exactly when no resident page of the file has an LSN above the durable records, as after the log flush of a checkpoint; the pages of other files, and all pins and contents, stay as they are |
| BufferPoolOps.BufferPoolManager.LogWrite | src/recovery/log_manager.cpp:19-44 | logging a record keeps the write-ahead rule |
| BufferPoolOps.BufferPoolManager.WritePage | src/storage/page.h:62-72 | a client's write to a pinned page changes the contents of that page only |
| BufferPool.TakenIsUnpinned | src/storage/buffer_pool_manager.cpp:21-38 | a frame that is handed out is unpinned and leaves both lists, so it is not handed out twice |
| BufferPool.LoadOk | src/storage/buffer_pool_manager.cpp:46-67 | replacing the page of an unpinned frame keeps table, lists and disk consistent and changes no other page's contents |
| BufferPool.DeleteOk | src/storage/buffer_pool_manager.cpp:222-253 | the pool stays consistent although the freed frame stays in the LRU list |
| Bitmap.SetOne | src/record/bitmap.h:24-31 | setting or resetting a bit changes that bit only |
| Bitmap.NextBit | src/record/bitmap.h:41-51 | the first position after the current one with the wanted bit |
| RmHandle.CreateFile | src/record/rm_manager.h:38-52 | record sizes 1 to 512 only; slots are disjoint from each other and from header and bitmap and end inside the page; one record more would leave nothing of the page |
| RmHandle.RmFileHandle.CreatePageHandle | src/record/rm_file_handle.cpp:165-205 | the head of the free list, or a new empty page at its head |
| RmHandle.RmFileHandle.InsertRecord | src/record/rm_file_handle.cpp:40-70 | always finds the first free slot of the first page of the free list; the map of records gains exactly the record; counters, bitmap and free list stay consistent |
| RmHandle.RmFileHandle.DeleteRecord | src/record/rm_file_handle.cpp:93-117 | the map loses exactly the record and a page that was full joins the free list; the file stays consistent exactly when the record was live |
| RmHandle.RmFileHandle.UpdateRecord | src/record/rm_file_handle.cpp:125-142 | changes the bytes of the slot only, and of the record if it is live |
| RmHandle.RmFileHandle.GetRecord | src/record/rm_file_handle.cpp:19-32 | the bytes of the slot, live or not; those of the record when it is live |
| RmHandle.InsertChain | src/record/rm_file_handle.cpp:52-60 | the free list stays acyclic and lists exactly the pages that are not full |
| RmHandle.DeleteChain | src/record/rm_file_handle.cpp:210-221 | pushing a page that was full keeps the free list acyclic and exact |
| RmHandle.HasFreeSlot | src/record/rm_file_handle.cpp:40-50 | the head of the free list has a free slot |
| RmScanner.RmScan.constructor | src/record/rm_scan.cpp:18-58 | the scan starts at the first live record, or at the end of a file without any |
| RmScanner.RmScan.Next | src/record/rm_scan.cpp:63-80 | moves to the next live record in page and slot order, or to the end |
| RmScanner.LiveListOk | src/record/rm_scan.cpp:18-96 | the list that the scan follows holds every live record once, in order |
| SeqScanner.SeqScan.Begin | src/execution/executor_seq_scan.h:62-89 | stands on the first record that passes, or at the end exactly when none does |
| SeqScanner.SeqScan.NextTuple | src/execution/executor_seq_scan.h:91-106 | moves to the next record that passes; the last-match test ends the scan exactly after the last one |
| SeqScanner.Run | src/execution/executor_seq_scan.h:62-110 | the executor returns exactly the passing records, once each and in order |
| TableStores.TableStore.PutAll | src/execution/executor_insert.h:69-90 | puts the record's keys into the indexes up to the first one that refuses, which is the one reported |
| TableStores.TableStore.Insert | src/execution/executor_insert.h:64-90 | fails at the first index that has the key or would promote a zero separator, and only then; on success every index is the map from keys to positions; on failure that is still so exactly when the first index has the key |
| TableStores.InsertLeavesKey | src/execution/executor_insert.h:64-90 | two indexes of which the second refuses: the first keeps the key of a record that is gone |
| TableStores.TableStore.Delete | src/execution/executor_delete.h:47-71 | record and index entries leave together |
| TableStores.TableStore.Update | src/execution/executor_update.h:67-104 | record and index entries change together, or the first index that has the new key makes it fail; the table is then as before exactly when that is the first index; a tree breaks exactly when one into which a key is put would split at zero, the new key after the old one is out or the old key in the restore loop |
| TableStores.TableStore.Restore | src/execution/executor_update.h:84-99 | the restore loop stops at the first index in which old and new key are equal; it restores the table exactly when the first index failed; a tree breaks exactly when one into which an old key is put back would split at zero |
| TableStores.UpdateLeavesKey | src/execution/executor_update.h:67-104 | an update that fails in the second index and leaves the new key in the first |
| TableStores.TableStore.UndoLast | src/transaction/transaction_manager.cpp:148-232 | undoes the last write on the record map and in every tree, and breaks a tree exactly when one into which a key is put back would split at zero; for a deletion that is a condition on the trees before the call |
| TableStores.TableStore.Abort | src/transaction/transaction_manager.cpp:139-236 | undoing the write set from the back restores the records and every index to their state at begin, or ends at the first tree that would split at zero when a key is put back, which none does when the all-zero key is not used |
| IndexSets.PutKey | src/index/ix_index_handle.cpp:544-584 | inserting into one of several trees changes that map only, and breaks the tree exactly when it splits at zero |
| IndexSets.DropKey | src/index/ix_index_handle.cpp:591-614 | deleting a present key from one of several trees changes that map only |
| TableStores.TableStore.Commit | src/transaction/transaction_manager.cpp:69-84 | empties the write set and changes nothing else |
| TableWrites.WroteOk | src/execution/executor_update.h:66-105 | every fitting write keeps every index exactly the map from keys to positions |
| TableWrites.UndoOk | src/transaction/transaction_manager.cpp:148-232 | the rollback of a write is its inverse on records and indexes |
| Planner.PopConds | src/optimizer/planner.cpp:67-82 | splits the conditions into those taken by the table and the rest, in their order, losing none |
| Planner.PushCondsOk | src/optimizer/planner.cpp:84-125 | a condition between two tables of the plan is attached exactly once, oriented like its join; otherwise the plan is unchanged and the result says which side it has |
| Planner.MakeScans | src/optimizer/planner.cpp:195-229 | each scan gets its table's literal conditions, the first also all conditions within one table; what remains is between two tables |
| JoinTree.PopScan | src/optimizer/planner.cpp:127-140 | finds the scan of a table and marks it as used |
| JoinTree.FirstJoin | src/optimizer/planner.cpp:249-276 | the first join covers the tables of the first condition |
| JoinTree.JoinNext | src/optimizer/planner.cpp:279-318 | each further condition is attached once and its tables join the tree once |
| JoinTree.JoinRemaining | src/optimizer/planner.cpp:323-329 | the remaining tables join without conditions |
| JoinTree.MakeOneRel | src/optimizer/planner.cpp:190-332 | each table is scanned once, each condition attached once up to mirroring, and the plan denotes exactly the combinations of rows that satisfy all conditions; every condition can be evaluated where it is exactly when conditions within one table are on the first table; the inner child of every join is a scan exactly when each further condition between tables shares one with those before it |
| Plans.DenotesMeaning | src/execution/executor_nestedloop_join.h:165-181 | a plan denotes what passes its scans and its join conditions |
| PlanExecution.Execute | src/execution/executor_nestedloop_join.h:41-154 | the executors of any plan deliver the beginning of its rows in outer-major order, and crash before the end exactly when its stream does; without a crash they deliver all rows |
| PlanRows.RowsMeaning | src/execution/executor_nestedloop_join.h:65-181 | a combination of rows is among the rows of a plan exactly when the plan denotes it |
| PlanRows.RowsOnce | src/execution/executor_nestedloop_join.h:65-154 | no combination is among them twice |
| PlanExecution.PlanDelivers | src/execution/executor_nestedloop_join.h:65-154 | what the executors of any plan deliver is the beginning of its rows, and all of them unless they crash |
| PlanExecution.CrashesStep | src/execution/executor_nestedloop_join.h:65-154 | exact condition for a crash: a child crashes as far as it is pulled, or an outer join meets a second inner row, or an inner join a second outer row |
| PlanExecution.CrashesIff | src/execution/executor_nestedloop_join.h:65-154 | a plan with a result crashes exactly when a join that is a child has two rows beside it |
| PlanExecution.SafeNeverCrashes | src/execution/executor_nestedloop_join.h:65-154 | a plan in which no join that is a child has two rows beside it delivers all its rows |
| PlanExecution.TwoTables | src/execution/executor_nestedloop_join.h:65-154 | plans of at most two tables never crash |
| PlanExecution.ThreeTables | src/execution/executor_nestedloop_join.h:78-79 | a scan joined onto the join of two scans crashes exactly when that has a row and the scan has two |
| PlanExecution.Build | src/portal.h:166-191 | the executors of a plan, with the left child of a join as its inner one, are a tree whose stream is that of the plan |
| PlanExecution.RunQuery | src/optimizer/planner.cpp:190-332 | planned and executed, a query of at most two tables does not crash, and one with a result crashes exactly when a join that is a child has two rows beside it; what it delivers is one row of each table whose column values satisfy all conditions, once each, and without a crash every such combination |
| PlanExecution.CompareIs | src/common/common.h:152-163 | each of the six operators holds of two integers exactly in the order in which it should |
| PlanExecution.AnswerIs | src/execution/executor_seq_scan.h:127-192 | the conditions hold of a choice of rows exactly when the values in their columns are so related |
| PlanCrashes.FourTablesCrash | src/optimizer/planner.cpp:279-295 | a query over four tables in two unconnected pairs crashes at its second outer row |
| PlanCrashes.ThreeTablesCrash | src/execution/executor_nestedloop_join.h:78-79 | a query over three connected tables crashes at the second row of the third |
| Plans.SwapHolds | src/optimizer/planner.cpp:112-120 | exchanging the sides and mirroring the operator keeps the meaning, and twice gives the condition back |
| IndexScan.MatchIndex | src/system/sm_meta.h:89-115 | succeeds exactly when some order of the conditions is an equality prefix of the index columns with at most a last inequality, and returns that order |
| IndexScan.MatchIndexMultiple | src/system/sm_meta.h:185-204 | the first index with fewest columns among those that match, and none exactly when none matches |
| IndexScan.GetIndexCols | src/optimizer/planner.cpp:26-57 | an index is used exactly when all conditions compare the table's columns with literals, without inequality, and fit one; the reordered conditions have a form that key bounds can express |
| IndexScan.GetBound | src/execution/executor_index_scan.h:147-246 | the nested loops collect exactly the bounds of the condition list |
| IndexBound.BoundsAreFilter | src/execution/executor_index_scan.h:147-246 | a key lies between the bounds exactly when it satisfies all conditions |
| IndexBound.PrefixNeverCrosses | src/execution/executor_index_scan.h:147-246 | bounds from an equality prefix are never crossed by a key |
| IndexScan.ScanIndex | src/execution/executor_index_scan.h:91-131 | the index scan, which never rechecks conditions, returns exactly the entries that the sequential filter keeps, in key order, or nothing exactly when the key of the end is below a key in front of the range or below its lower bound; the exact conditions for running past its end, never from an equality prefix, and for the failing assertion |
| IndexScan.TwoColumns | src/index/ix_index_handle.cpp:992-1002 | with at most two columns the key of the end is above all others |
| IndexScan.StaleEndCuts | src/index/ix_index_handle.cpp:992-1002 | a scan over three columns that leaves out the only row, which satisfies the conditions |
| IndexKeys.IxCompare | src/index/ix_index_handle.h:85-94 | column-wise comparison is lexicographic order |
| IndexKeys.EncodeOrder | src/index/ix_index_handle.h:85-94 | the integer that stands for a composite key keeps order and tells keys apart |
| IndexKeys.EncodeZero | src/index/ix_index_handle.cpp:1083-1095 | the all-zero key is the integer 0 |
| SortExecutor.SortExecutor.LoadRuns | src/execution/execution_sort.h:94-112 | the first district holds the input, each block of it sorted |
| SortExecutor.SortExecutor.MergeOne | src/execution/execution_sort.h:160-177 | one step writes the next tuple of the merge, one over the other when the keys are equal |
| SortExecutor.SortExecutor.MergePair | src/execution/execution_sort.h:147-178 | two blocks of one district are merged to the other, which alone changes and keeps the rest of what it held |
| SortExecutor.SortExecutor.Pass | src/execution/execution_sort.h:129-186 | one pass merges all pairs of blocks, shared keys included, and copies a last odd block; places that it does not reach keep what they held |
| SortExecutor.SortExecutor.BeginTuple | src/execution/execution_sort.h:82-189 | after all passes and district swaps the current district is what the passes make of the initial runs and the zero fill, for any input; a sorted permutation when no two initial runs share a key |
| SortExecutor.SortExecutor.Run | src/execution/execution_sort.h:191-202 | the executor returns that result, a sorted permutation of its input when no two initial runs share a key |
| SortExecutor.ExecutorOverwritesIff | src/execution/execution_sort.h:114-189 | no pass of the executor overwrites a tuple exactly when no two blocks of the input share a key |
| SortExecutor.ZeroTuples | src/execution/execution_sort.h:120-124 | an input of zero tuples comes back as it is, although its runs share their key |
| MergeSort.MergeLosesIff | src/execution/execution_sort.h:172-176 | merging sorted blocks keeps all tuples exactly when they share no key |
| MergeSort.PassLosesIff | src/execution/execution_sort.h:129-186 | a pass keeps all tuples exactly when no two blocks that it merges share a key |
| MergeSort.SortLosesIff | src/execution/execution_sort.h:114-189 | no pass overwrites a tuple exactly when no two initial runs share a key, over what the passes write |
| MergeSort.PassOutIsPass | src/execution/execution_sort.h:129-186 | where merged blocks share no key, the district after a pass is the merged blocks |
| MergeSort.PassesSort | src/execution/execution_sort.h:114-189 | the passes over sorted runs that share no key give a sorted permutation |
| MergeSort.MergeConserves | src/execution/execution_sort.h:160-177 | merged and overwritten tuples together are the two blocks |
| MergeSort.TwoRuns | src/execution/execution_sort.h:114-189 | two runs come out as a permutation exactly when every overwritten tuple equals the filler |
| MergeSort.PassPermutesIff | src/execution/execution_sort.h:129-186 | a pass permutes its tuples exactly when what it leaves behind the merged pairs is what these lack |
| MergeSort.PassesConserve | src/execution/execution_sort.h:114-189 | over all passes, output and unmerged tuples together are input and filling |
| MergeSort.SortPermutesIff | src/execution/execution_sort.h:114-189 | for any number of runs the output permutes the input exactly when the unmerged tuples of all passes are their filling |
| MergeSort.PassesEqual | src/execution/execution_sort.h:114-189 | tuples that all equal the filler come out unchanged |
| MergeSort.SortRunsOk | src/execution/execution_sort.h:94-112 | the initial runs are sorted and permute the input block by block, and share keys exactly where the blocks of the input do |
| MergeSort.PassSorts | src/execution/execution_sort.h:129-186 | a pass doubles the size of the sorted blocks when the blocks that it merges share no key; otherwise later blocks move |
| MergeSort.PassPermutes | src/execution/execution_sort.h:129-186 | a pass permutes the tuples when the blocks it merges share no key |
| SortExecutor.WriteSlot | src/execution/execution_sort.h:266-276 | writing to one district does not touch the other |
| NestedLoopJoin.NestedLoopJoinExecutor.BeginTuple | src/execution/executor_nestedloop_join.h:65-107 | stands on the first row, at the end, or has crashed, each exactly when its stream says so; a join that has looked at its last pair does not start again, and ends when a child that is a join has ended |
| NestedLoopJoin.NestedLoopJoinExecutor.NextTuple | src/execution/executor_nestedloop_join.h:109-144 | moves to the next row, ends exactly after the last, also when the last pair matches, and crashes exactly where its stream does |
| NestedLoopJoin.NestedLoopJoinExecutor.Look | src/execution/executor_nestedloop_join.h:77-97 | one round of the loop delivers the next pair and pulls the one after it; it crashes exactly at the pair where the stream stops |
| NestedLoopJoin.NestedLoopJoinExecutor.Next | src/execution/executor_nestedloop_join.h:146-154 | the record of the current match is moved out; there is none for a second call |
| NestedLoopJoin.Run | src/execution/executor_nestedloop_join.h:65-154 | from begin to end a join over scans or joins delivers exactly its stream, and crashes exactly when that does |
| NestedLoopJoin.RunAgain | src/execution/executor_nestedloop_join.h:65-107 | begun again after its end a join returns nothing; over two scans, before its end, only its last row, which is missing exactly when it was moved out |
| JoinStreams.JoinCrashes | src/execution/executor_nestedloop_join.h:65-154 | when nested loops over two streams crash: a stream fails at its begin, or both have a row and one crashes, or a row has to be read or a stream begun a second time that can not |
| JoinStreams.JoinDelivers | src/execution/executor_nestedloop_join.h:65-154 | over streams that deliver the beginning of two lists, the loops deliver the beginning of the filtered product, and all of it unless they crash |
| JoinStreams.LimitIff | src/execution/executor_nestedloop_join.h:77-97 | the pair at which the loops stop is the first for which an outer row has been read, an inner child begun again, or a child crashes when pulled |
| LockTable.LockRequestQueue.LockIS | src/transaction/concurrency/lock_manager.cpp:447-528 | granted in exactly this mode, or the stronger one that the transaction holds, exactly when no other transaction holds X; otherwise the oldest waits for exactly this mode and any other dies; the queue keeps its order and all invariants |
| LockTable.LockRequestQueue.LockIX | src/transaction/concurrency/lock_manager.cpp:536-627 | the same for IX, with IS strengthened in place |
| LockTable.LockRequestQueue.LockX | src/transaction/concurrency/lock_manager.cpp:635-733 | granted in mode X exactly when no other transaction holds any lock; refused exactly when the transaction has a request in the queue while an upgrade is pending |
| LockTable.LockIntents | src/transaction/concurrency/lock_manager.cpp:447-627 | on a queue without X every sequence of IS and IX requests is granted throughout |
| LockTable.LockRequestQueue.WaitDie | src/transaction/concurrency/lock_manager.h:217-244 | dies exactly when an older transaction is in the queue, which removes its request |
| LockTable.LockRequestQueue.GrantLock | src/transaction/concurrency/lock_manager.h:246-277 | grants in queue order each request that the group mode admits by then, and leaves every waiter blocked by a granted lock |
| LockTable.FirstIsServed | src/transaction/concurrency/lock_manager.h:246-277 | when nothing is granted the first request in the queue is |
| LockTable.PassedKeeps | src/transaction/concurrency/lock_manager.h:246-277 | the requests keep their places, owners and modes, and none loses its lock |
| LockTable.RaisedIsStrongest | src/transaction/concurrency/lock_manager.h:246-277 | raising the group mode by a grant gives the strongest mode granted again |
| LockTable.GroupUnique | src/transaction/concurrency/lock_manager.cpp:778-808 | there is only one strongest mode granted, so what unlocking leaves is determined |
| LockTable.LockRequestQueue.RecomputeGroup | src/transaction/concurrency/lock_manager.cpp:778-808 | the strongest mode still granted |
| LockTable.LockRequestQueue.Unlock | src/transaction/concurrency/lock_manager.cpp:742-907 | removes the request, sets the strongest mode still granted and passes the queue once in order; keeps all invariants |
| LockTable.LockRequestQueue.Wake | src/transaction/concurrency/lock_manager.cpp:719-725 | what a woken transaction does to the queue changes no lock |
| LockQueue.WaitersAreBlocked | src/transaction/concurrency/lock_manager.h:246-277 | no lost wake-up: every waiting request conflicts with a lock granted to another transaction |
| LockQueue.WaitingOk | src/transaction/concurrency/lock_manager.h:217-244 | a transaction that begins to wait has the smallest id in the queue, so waiters have strictly decreasing ids in the order in which they began |
| LockQueue.GrantedOk | src/transaction/concurrency/lock_manager.cpp:447-733 | a grant keeps X exclusive and the group mode above all grants |
| LockQueue.DiedOk | src/transaction/concurrency/lock_manager.h:223-240 | a death leaves the other requests and some grant in place |
| LockQueue.GrantAtOk | src/transaction/concurrency/lock_manager.h:246-277 | granting a waiting request that the group mode admits keeps the invariants |

## Left out

- Sockets, client, printing, parser, catalog and DDL: input and output or generated code.
- Gap locks, record locks and the insert keys of a table queue: the table part is modelled for IS, IX and X only, and no claim is made about deadlocks across queues.
- Transaction states ABORTED and SHRINKING at the head of the lock functions, which return or throw before the queue is touched.
- Engine assumes that locks are held until the commit or abort record is logged, although the code releases them first. Undoing a transaction's writes and logging its abort record are one step. A failed insertion, which leaves the next LSN on the page without logging anything, is not a step. A checkpoint is one step of a run, and EngineCrash.CrashInCheckpoint covers a crash inside it.
- Real thread interleavings, latches and pin balance in the index code: every latched operation is atomic.
- Recovery of logs of several epochs, the free-list fields that redo restores from the log, and the rebuilding of indexes after undo.
- Recovery works on decoded records; that the bytes of the log file give exactly these records is proved separately in LogCodec.
- get_value of the index, which is not used by the engine and reads past the last entry of a leaf into stale slots.
- IxHandle.IxIndexHandle.DeleteEntry: what erasing slot -1 then does to the page header is not modelled; the operation ends there.
- IxHandle.IxIndexHandle.InsertEntry: what later operations do to a tree whose root has one child is modelled for the first step of the descent only.
- SortMergeExecutor, aggregation and descending order, which the merge ignores.
- GapScan.RangeScan: scans of an index without a root, which fail to read page -1, are not modelled.
- IndexScan.ScanIndex: float and string index bounds, and an index without a root, are not modelled.
- Subqueries and sort-merge plans in the planner; plan trees are values, since only their owner changes them.
- TableStores.TableStore.Delete: the executor also drops the index entries of a listed record whose condition no longer holds; deletion is modelled for records that are deleted.
- TableStores.TableStore.Update: ends where a tree breaks, while the code runs the restore loop after that too.
- TableStores.TableStore.Abort: ends at the first tree that breaks, where the code goes on with the others after a deletion. Positioned insertion during rollback is taken at the level of the record map.
- The temporary file of the sort is one sequence; the division into pages is not modelled.
