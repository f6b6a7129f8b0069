# OshinoDB: a verified model of its storage, transaction and planning layers

OshinoDB is a small relational engine in C++. This project models the parts of it that keep an
invariant or refine something simpler, in Dafny, and proves those invariants and refinements.
Where the code does less than its comments say, the model follows the code and states exactly
when the promise holds.

What is proved, component by component:

- **B+ tree index** (`Tower*.dfy`, `IxPages.dfy`, `IxDeleteSteps.dfy`, `IxShapes.dfy`, `IxIndexHandle.dfy`,
  `IxScan.dfy`, `IxRuns.dfy`, `IxWitness.dfy`). The pages of the index are described level by level as a
  "tower". Insert and delete refine the operations of a finite map and keep order, equal leaf depth,
  separators, occupancy, parent pointers and the leaf ring through page 1. What they make of the tree is fixed
  node by node: which leaf splits, shifts or merges, and every separator above. A delete fails exactly when the key's leaf, its sibling
  and their non-root parent are all at minimum occupancy; the tree must then hold at least
  2·(order/2)² keys, so smaller indexes always complete. Scans visit every entry once, in key order.
- **Locks and serializability** (`Locks.dfy`, `Serializability.dfy`). No-wait table locks with upgrade, as
  interleaved steps. Every run is equivalent to the serial run in release order.
- **Join planner and its execution** (`Plans.dfy`, `PlanShapes.dfy`, `Planner.dfy`, `PlanMeaning.dfy`,
  `NestedLoopJoin.dfy`, `PlanExecution.dfy`). The plan is fixed as a function of the query: every further
  table joins from the left, in the order in which the conditions bring the tables in. It means each combination of one row per table that meets all conditions, once;
  its conditions are well placed exactly when none compares two columns of one table other than the first.
  The executors built for the plan are a tree of scans and block nested-loop joins, run as the engine runs
  them. They emit exactly those answers that survive: a left row over a join must be in the first block.
  That is every answer for one or two tables and whenever every left input over a join fits in a block; for
  three tables lost rows are shown, without and with join conditions.
- **Buffer pool** (`BufferPool.dfy`). The write-back cache is invisible over the disk; a page that is not cached
  takes the first free frame, or else the frame that entered the LRU list longest ago. Every operation states
  frames, page table, lists and disk afterwards.
- **Heap file and abort** (`Bitmap.dfy`, `HeapFile.dfy`, `Abort.dfy`). The slotted file refines a map from
  record ids to records, and every operation states its pages and free list; abort restores the table as a multiset of rows whenever the deleted rows of ids
  that the transaction had written before come back to those ids, and a witness shows that the condition
  is needed.
- **Log and recovery** (`LogRecords.dfy`, `LogManager.dfy`, `LogChain.dfy`, `Recovery.dfy`,
  `TableRecovery.dfy`, `LockedLog.dfy`, `WriteAhead.dfy`). Byte-exact record round trip, buffer and disk as
  one record stream, the backward chain over every interleaving, and undo over the bytes that survive a crash
  at any moment: it ends exactly when no transaction stands between its COMMIT and its END record. Where a
  file holds exactly the writes that are in the durable log, undo restores it for a transaction that was
  running; that such a transaction is the only unended writer of the table follows from the locks, at every
  crash point of every interleaving. The engine does not see to the first condition: evicting a page can put
  it on disk before its log record, with the exact condition and an input.
- **Index range scan** (`Values.dfy`, `IndexScan.dfy`). The scan returns exactly the rows that meet the
  conditions, each operator meaning what it says, and lie between its cursors; with one constant bound per column and side these are the rows of
  a sequential scan with the same filter. Two bounds on one column can lose rows, with an example.
- **Layout** (`Layout.dfy`). Page and node regions are disjoint and inside 4096 bytes for every record and
  key size the engine accepts.

Places where code and comments disagree, followed as the code has them:

- A delete that ends in a shift or a merge may remove the first key of a leaf without refreshing the separator
  of that leaf, so over leaves a separator bounds the keys and need not equal the first one; over internal
  nodes it is equal (`Tower.SepOK`). `IxShapes.LeavesAfter` says which separators change.
- `upper_bound` on an empty index returns slot 1 of the only leaf, which is no entry and not the end.
- `undo` jumps along `undo_next` only if the transaction's last noted record is an UNDO_NEXT record, and
  `analyze` never notes one; the jump is never taken (asserted in `Recovery.UndoTxn`), so a transaction that
  had already begun to abort is walked from its last noted record to its BEGIN, like any other unended one.
- `undo` never leaves its outer loop once it meets a committed transaction without END.
- `persist_lsn_` is the number after the last durable record, not that record's number.
- The planner joins every further table from the left, so a join of three tables has a join as right child;
  a join executor that has ended does not start again, and `PlanExecution.EmitIff` says exactly which rows
  that costs.
- `upper_bound` goes to the very end of the index when no later slot of the covering leaf is above the key.
- `delete_record` does not look at the bit: on an empty slot the page's count goes wrong
  (`HeapFile.RmFileHandle.DeleteRecord`), which rolling an insert back can run into.
- `update_page` and `new_page` write a dirty page back without flushing the log first.
- Undo takes up a transaction that had begun to abort from its last noted record and rolls its writes back a
  second time (`TableRecovery.UndoneTwice`).

Integers are unbounded unless a width matters, in which case it is written out (log fields, fill values).
The index works on integer keys; `IxKeys.KeyOrder` shows that multi-column keys can be coded as integers
in the order that the engine's own comparison gives them.

## Model

| member | source | states |
|---|---|---|
| `IxNode.LowerBound` | src/index/ix_index_handle.cpp:22-34 | the first slot whose key is at least the target, from the node's order |
| `IxNode.UpperBound` | src/index/ix_index_handle.cpp:42-54 | the first slot from 1 on whose key is above the target; slot 0 counts as minus infinity |
| `IxNode.FindChild` | src/index/ix_index_handle.h:164-173 | the slot that points to the child |
| `Tower.DescendStep` | src/index/ix_index_handle.cpp:83-94 | the child chosen by the separators covers the key if its parent did |
| `IxIndex.IxIndexHandle.FindLeafPage` | src/index/ix_index_handle.cpp:213-230 | the descent ends in the one leaf whose separators enclose the key |
| `TowerInsert.LeafKeyIff` | src/index/ix_index_handle.cpp:64-76 | a key is in the index exactly when the covering leaf has it, with that record id |
| `IxIndex.IxIndexHandle.GetValue` | src/index/ix_index_handle.cpp:240-257 | lookup agrees with the map; it throws exactly when the last key is gone |
| `IxIndex.IxIndexHandle.constructor` | src/index/ix_manager.h:98-128 | the created index has the header page and one empty leaf on page 2, which is root, first and last leaf |
| `TowerInsert.LeafInsert` | src/index/ix_index_handle.cpp:139-149 | putting an absent key into its leaf adds it to the map and keeps order and separators |
| `TowerInsert.SplitGap` | src/index/ix_index_handle.cpp:266-298 | a split keeps the contents and leaves exactly one entry missing, in the level above |
| `TowerInsert.ParentInsert` | src/index/ix_index_handle.cpp:338-343 | the new separator behind the old child closes the gap at any level |
| `TowerInsert.GrowRoot` | src/index/ix_index_handle.cpp:321-335 | a new root over the two halves makes the tree well formed again |
| `IxIndex.IxIndexHandle.Split` | src/index/ix_index_handle.cpp:266-298 | the pages after a split represent the split tower: ring, parents and children included |
| `IxIndex.IxIndexHandle.InsertIntoParent` | src/index/ix_index_handle.cpp:313-352 | the recursion upwards ends in a valid index with the same leaf entries, and in exactly the tower and page numbers of `PushUp` |
| `IxIndex.IxIndexHandle.InsertEntry` | src/index/ix_index_handle.cpp:360-387 | refines map insertion: an absent key adds exactly its pair and returns the page of the leaf that covered it, a present key changes nothing, all invariants are kept; the tower afterwards is the one of `InsertTower`, with its leaves and separators as `LeavesGrown` says |
| `IxShapes.InsertLeaves` | src/index/ix_index_handle.cpp:360-387 | a leaf that is not full takes the entry and nothing else changes; a full one keeps its first order/2 entries, the rest goes to the next new page, listed right behind it under its first key |
| `IxShapes.PushUpLists` | src/index/ix_index_handle.cpp:313-352 | wherever the recursion splits, the level above lists the new node right behind the old one, and no level below changes |
| `TowerDelete.LeafRemove` | src/index/ix_index_handle.cpp:156-189 | removing an entry removes exactly its key and keeps order and separators |
| `TowerDelete.PatchStep` | src/index/ix_index_handle.cpp:684-702 | one round of maintain_parent repairs a level and leaves at most one stale separator above |
| `IxIndex.IxIndexHandle.MaintainParent` | src/index/ix_index_handle.cpp:684-702 | the loop restores every separator, changes no leaf and gives exactly the tower of `Refresh` |
| `IxShapes.RefreshExact` | src/index/ix_index_handle.cpp:684-702 | the separator of the node becomes its first key; no other separator of that level and no level below changes |
| `IxIndex.IxIndexHandle.Redistribute` | src/index/ix_index_handle.cpp:503-521 | one entry moves between the neighbouring leaves and the separator of the right one is refreshed; the index is valid with the same contents |
| `TowerDelete.MergeLinks` | src/index/ix_index_handle.cpp:544-559 | merging two leaves and erasing the parent's slot keeps contents and separators |
| `IxIndex.IxIndexHandle.EraseLeaf` | src/index/ix_index_handle.cpp:709-721 | the leaf's two neighbours in the ring are linked to each other, nothing else changes |
| `IxPages.MergeRep` | src/index/ix_index_handle.cpp:544-559 | the pages after a leaf merge represent the merged tower, one ring again |
| `IxIndex.IxIndexHandle.Coalesce` | src/index/ix_index_handle.cpp:537-561 | merge and repair above: valid with the same contents, root gone, or the fault that the occupancies foretell; the tower is the one of `FixUp` |
| `IxIndex.IxIndexHandle.AdjustRoot` | src/index/ix_index_handle.cpp:466-487 | a root with one child gives way to it; an empty root leaf leaves no root |
| `IxIndex.IxIndexHandle.CoalesceOrRedistribute` | src/index/ix_index_handle.cpp:428-458 | repairs an underflow by one of the three ways, or faults exactly when a non-root internal node is left short; outcome and tower are those of `FixUp` |
| `IxDeleteSteps.StarvesBefore` | src/index/ix_index_handle.cpp:428-458 | the fault after removal is foretold by occupancies visible before the call, in both directions |
| `IxIndex.IxIndexHandle.DeleteEntry` | src/index/ix_index_handle.cpp:394-415 | refines map removal; absent keys change nothing; fault exactly when starved; no root left exactly when the last key went; leaves and separators afterwards are those of `LeavesAfter` |
| `IxShapes.FixUpLeaves` | src/index/ix_index_handle.cpp:428-458 | after a delete a leaf that keeps order/2 entries has its first key as separator; otherwise one entry moves over from the sibling and the right leaf gets its first key as separator, or the right leaf goes with its separator; all other separators of the leaves stay |
| `IxWitness.StarvedTree` | src/index/ix_index_handle.cpp:428-458 | the shape of a tree of order 6 that meets every shape invariant and in which key 0 cannot be deleted |
| `IxWitness.TreeRep` | src/index/ix_index_handle.cpp:428-458 | the pages of that tree: contents, parent pointers and the leaf ring are all in order |
| `IxWitness.StarvedHandle` | src/index/ix_index_handle.cpp:428-458 | a valid index of that shape, holding key 0 and other keys |
| `IxWitness.FailedDelete` | src/index/ix_index_handle.cpp:394-415 | delete_entry of key 0 on that index ends in the sibling fault |
| `IxRuns.StarvedIsLarge` | src/index/ix_index_handle.cpp:428-458 | an index whose delete can fail holds at least 2·(order/2)² keys |
| `IxRuns.SmallIndexDeletes` | src/index/ix_index_handle.cpp:394-415 | below that size no delete fails |
| `IxRuns.Replay` | src/index/ix_index_handle.cpp:360-415 | every run of inserts and deletes from an empty index is the run on a map, unless it deletes the only key or from a large index |
| `IxIndex.IxIndexHandle.LowerBound` | src/index/ix_index_handle.cpp:589-599 | cursor at the first entry not below the key, possibly one past its leaf; throws exactly when the index has lost its root |
| `IxIndex.IxIndexHandle.UpperBound` | src/index/ix_index_handle.cpp:607-617 | cursor at the first slot from 1 on of the covering leaf with a greater key, else at the very end; slot 1 on an empty index; throws exactly when the index has lost its root |
| `IxIndex.IxIndexHandle.LeafBegin` | src/index/ix_index_handle.cpp:638-641 | cursor at flat position 0, also without a root |
| `IxIndex.IxIndexHandle.LeafEnd` | src/index/ix_index_handle.cpp:625-630 | cursor behind the last entry; the same as leaf_begin without a root |
| `IxIndex.IxIndexHandle.GetRid` | src/index/ix_index_handle.cpp:572-579 | the record id of the entry under the cursor, or an error when there is none |
| `IxScans.IxScan.Next` | src/index/ix_scan.cpp:17-29 | the cursor moves to the next entry, over the ring at the end of a leaf |
| `IxScans.Collect` | src/index/ix_scan.cpp:17-33 | a scan between two cursors ends exactly when the second is reachable, with exactly the entries between, in order |
| `IxScans.ScanAll` | src/index/ix_index_handle.cpp:625-641 | from leaf_begin to leaf_end every entry once, in ascending key order; nothing without a root |
| `Values.SwapKeepsMeaning` | src/optimizer/planner.cpp:219-228 | exchanging the sides and the operator of a comparison keeps its truth |
| `Values.OperatorMeaning` | src/execution/filter.h:29-95 | each of the six operators, judged on the result of a comparison, is the comparison of the values: as numbers, or by the first byte in which two strings differ |
| `Values.NumberOperators` | src/execution/filter.h:29-95 | on integers the six operators are =, <>, <, >, <= and >= |
| `Plans.HoldsMeans` | src/execution/filter.h:98-145 | a condition holds of a combination of rows exactly when its columns are there and their values compare as the operator says |
| `IxKeys.IxCompare` | src/index/ix_index_handle.h:50-58 | the column loop computes the lexicographic comparison |
| `IxKeys.KeyOrder` | src/index/ix_index_handle.h:23-58 | comparing keys is comparing their integer codes |
| `IxKeys.KeyCodeInjective` | src/index/ix_index_handle.h:23-58 | keys with the same code are equal |
| `IndexScan.Filter` | src/execution/filter.h:182-186 | the record passes exactly when the two sides of every condition compare as its operator says |
| `IndexScan.BoundsMeaning` | src/execution/executor_index_scan.h:121-147 | an operator is used for the lower (upper) side exactly when nothing less (greater) than its constant can meet it |
| `IndexScan.GatherBounds` | src/execution/executor_index_scan.h:116-147 | the loops gather all constants of a column, then go on as many columns later |
| `IndexScan.OnceIsPrefix` | src/execution/executor_index_scan.h:116-147 | with one bound per column and side that is a longest prefix of bounded columns, each constant in its own place |
| `IndexScan.CutPosition` | src/index/ix_index_handle.cpp:607-617 | the upper cursor stands right before the first entry that is cut off |
| `IndexScan.RowInRange` | src/execution/executor_index_scan.h:148-170 | a row that meets the conditions lies between the filled-up keys |
| `IndexScan.CompletesIff` | src/execution/executor_index_scan.h:148-170 | with ordered bounds the cursors meet exactly when the index is not empty below an upper bound and the lower bound lands on a slot |
| `IndexScan.Run` | src/execution/executor_index_scan.h:108-189 | returns, each once, exactly the rows that meet the conditions and lie between the cursors, all that meet them under one bound per column and side; throws exactly when the range does not complete; without a root it throws exactly when there is a bound and returns no row otherwise |
| `IndexScan.EmptyIndexThrows` | src/index/ix_index_handle.cpp:607-617 | a scan with an upper bound on an index without entries throws |
| `IndexScan.LostByBounds` | src/execution/executor_index_scan.h:121-132 | for `a >= 2 and a >= 1` on an index over (a, b) the scan starts at (2, 1) and loses the row (2, 0) |
| `Locks.LockManager.LockSharedOnTable` | src/transaction/concurrency/lock_manager.cpp:52-78 | grants, refuses or aborts, and keeps the entry in agreement with its holders; an exclusive entry is granted only to its holder and stays exclusive |
| `Locks.LockManager.LockExclusiveOnTable` | src/transaction/concurrency/lock_manager.cpp:86-118 | granted means sole holder, upgrade included; refused means another holder exists; a failure changes nothing |
| `Locks.LockManager.Unlock` | src/transaction/concurrency/lock_manager.cpp:148-159 | one holder fewer, the entry gone with the last and shared otherwise, the lock set untouched |
| `Locks.LockManager.ReleaseAll` | src/transaction/transaction_manager.cpp:69-74 | the loop releases every lock of the transaction and no other; all other entries stay as they are |
| `Serializability.StepKeeps` | src/transaction/concurrency/lock_manager.cpp:52-159 | every step keeps: X means one holder, S counts its holders, no entry means none, conflict edges follow the release order |
| `Serializability.RunInv` | src/transaction/concurrency/lock_manager.cpp:52-159 | the invariant holds at every point of every interleaving |
| `Serializability.RequestsNeverStuck` | src/transaction/concurrency/lock_manager.cpp:52-118 | in every reachable state a running transaction can make any lock request |
| `Serializability.EveryRunSerializable` | src/transaction/transaction_manager.cpp:47-75 | in the serial history in release order every access sees the same writes as in the run |
| `Serializability.SerialKeepsPrograms` | src/transaction/transaction_manager.cpp:47-75 | the serial history keeps each transaction's own accesses in order |
| `Planner.PopConds` | src/optimizer/planner.cpp:46-62 | the conditions split into those of the table and the rest, both in their old order, none lost or doubled |
| `Planner.PushConds` | src/optimizer/planner.cpp:64-119 | a condition over joined tables is attached once, at the lowest join that has both sides, turned round when the left input has its right column |
| `Planner.MakeScans` | src/optimizer/planner.cpp:145-159 | one scan per table: its comparisons with constants, and on the first table all comparisons inside one table, in their order; what remains relates two tables |
| `Planner.JoinByConds` | src/optimizer/planner.cpp:173-238 | the loop over the conditions gives exactly the plan of `ByConds`, without losing scans or conditions |
| `Planner.MakeOneRel` | src/optimizer/planner.cpp:141-255 | the plan is `PlanOf` the query; every table once, every condition once up to exchanged sides; well placed exactly when no condition compares two columns of a later table |
| `PlanShapes.PlanShape` | src/optimizer/planner.cpp:173-251 | every join has on its left a scan, or two scans joined by a condition, and on its right the plan built before; a table that a later condition brings in stands further left, and the tables without a condition stand before all those, the last of the query first |
| `PlanShapes.LeftPopped` | src/optimizer/planner.cpp:46-62 | what a table takes from the conditions left over by the tables before it is what its scan should filter by |
| `PlanMeaning.PlanIsQuery` | src/optimizer/planner.cpp:141-255 | the relational meaning of such a plan is exactly the row combinations that meet the query, each once, on every database |
| `PlanMeaning.PlanQuery` | src/optimizer/planner.cpp:141-255 | the same for the planner's own output |
| `PlanExecution.RunPlan` | src/execution/executor_nestedloop_join.h:38-113 | the executor tree of a plan emits the rows of `Emit`, in that order: all left rows over a scan, the first block over a join |
| `PlanExecution.BlockSize` | src/execution/executor_nestedloop_join.h:87 | the largest number of rows that fit in four pages, or 64 if that is more |
| `PlanExecution.EmitIff` | src/execution/executor_nestedloop_join.h:38-67 | of the plan's results exactly those are emitted whose left part is in the first block at every join over a join |
| `PlanExecution.EmitShape` | src/execution/executor_nestedloop_join.h:38-67 | no row is emitted twice |
| `PlanExecution.FittingComplete` | src/execution/executor_nestedloop_join.h:87 | if every left input over a join fits in a block, all results of the plan are emitted |
| `PlanExecution.TopJoinIff` | src/execution/executor_nestedloop_join.h:54-64 | at a join over a join with complete inputs, nothing is lost exactly when no left row behind the first block has a partner |
| `PlanExecution.TwoTablesFit` | src/optimizer/planner.cpp:141-255 | the planner's plans for at most two tables have no join over a join |
| `PlanExecution.RunQuery` | src/optimizer/planner.cpp:141-255 | planning and running a query returns the answers that survive in the plan `PlanOf`, each once; all answers for at most two tables or fitting left inputs |
| `PlanExecution.CrossLoses` | src/optimizer/planner.cpp:244-251 | in the cross product of three tables every row of the third behind the first block is lost |
| `PlanExecution.LostRow` | src/optimizer/planner.cpp:244-251 | three tables of one, one and sixty-five rows whose product is returned without one of its rows |
| `PlanExecution.ChainLoses` | src/optimizer/planner.cpp:217-232 | for three tables joined in a row by two conditions every answer with a row of the third table behind the first block is lost |
| `PlanExecution.LostJoinRow` | src/optimizer/planner.cpp:217-232 | tables of one, one and sixty-five rows with a.x = b.x and b.x = c.x: an answer is not returned |
| `PlanMeaning.MisplacedCondition` | src/optimizer/planner.cpp:54 | a query whose same-table condition lands on the scan of another table |
| `Replacer.LRUReplacer.Victim` | src/replacer/lru_replacer.cpp:22-37 | the frame that entered the list before all others |
| `Replacer.LRUReplacer.Pin` | src/replacer/lru_replacer.cpp:43-52 | the frame leaves the list, the others keep their order |
| `Replacer.LRUReplacer.Unpin` | src/replacer/lru_replacer.cpp:58-68 | a frame not in the list enters it as the youngest |
| `BufferPool.BufferPoolManager.FindVictimPage` | src/storage/buffer_pool_manager.cpp:19-31 | takes the first free frame, else the oldest of the LRU list; fails exactly when all frames are pinned |
| `BufferPool.BufferPoolManager.UpdatePage` | src/storage/buffer_pool_manager.cpp:39-52 | an eviction with write-back changes no page's view |
| `BufferPool.BufferPoolManager.FetchPage` | src/storage/buffer_pool_manager.cpp:63-90 | fails exactly if the page is uncached and all frames are pinned; no view changes; a cached page is only pinned; for any other the first free frame or the oldest unpinned one is taken, written back if dirty, and only its page leaves the table |
| `BufferPool.BufferPoolManager.UnpinPage` | src/storage/buffer_pool_manager.cpp:98-125 | one pin fewer, dirt kept; no view changes; with the last pin the frame enters the LRU list as the youngest |
| `BufferPool.BufferPoolManager.FlushPage` | src/storage/buffer_pool_manager.cpp:132-147 | the disk then holds the page's view; only the dirty mark of its frame changes, pins stay |
| `BufferPool.BufferPoolManager.NewPage` | src/storage/buffer_pool_manager.cpp:155-183 | only the fresh page's view changes; the frame is taken as in fetch_page and written back if dirty |
| `BufferPool.BufferPoolManager.DeletePage` | src/storage/buffer_pool_manager.cpp:191-213 | refuses exactly pinned pages; otherwise the page is written, its frame emptied and put last in the free list; no view changes |
| `BufferPool.BufferPoolManager.FlushAllPages` | src/storage/buffer_pool_manager.cpp:219-234 | every cached page of the file is on disk, unpinned ones leave the table, pinned ones keep their pins, other frames and the LRU list stay; no view changes |
| `Bitmap.SetBit` | src/record/bitmap.h:25-26 | sets its bit and no other |
| `Bitmap.ResetBit` | src/record/bitmap.h:28-29 | clears its bit and no other |
| `Bitmap.MaskIsShift` | src/record/bitmap.h:58-60 | the bit of a position is 0x80 shifted right by the position modulo 8 |
| `Bitmap.NextBit` | src/record/bitmap.h:42-49 | the first position after the given one with the wanted bit, or the bound |
| `HeapFile.RmFileHandle.GetRecord` | src/record/rm_file_handle.cpp:19-33 | the record the map has at an occupied id |
| `HeapFile.RmFileHandle.CreatePageHandle` | src/record/rm_file_handle.cpp:236-271 | the first page with room, or a new empty one at the end of the file; the records and all other pages stay |
| `HeapFile.RmFileHandle.InsertRecord` | src/record/rm_file_handle.cpp:41-99 | map insertion at the lowest free slot of the first page with room; pages and header afterwards are exactly those of `Filled`; the page leaves the front of the free list exactly when it is full |
| `HeapFile.RmFileHandle.DeleteRecord` | src/record/rm_file_handle.cpp:122-171 | removes exactly the id; pages and header afterwards are exactly those of `Cleared`; a full page goes to the front of the free list, which otherwise stays; on an empty slot the count falls below the bits |
| `HeapFile.RmFileHandle.UpdateRecord` | src/record/rm_file_handle.cpp:180-212 | writes the slot and nothing else; the map changes at an occupied id only |
| `HeapFile.ChainPop` | src/record/rm_file_handle.cpp:73-75 | when its first page fills, the list is again exactly the pages with room |
| `HeapFile.ChainPush` | src/record/rm_file_handle.cpp:277-284 | a page that gets room enters the list, which stays acyclic and exact |
| `HeapFile.RmScan.Next` | src/record/rm_scan.cpp:28-44 | the next occupied id in reading order, or the end |
| `HeapFile.ScanAll` | src/record/rm_scan.cpp:18-44 | every occupied id once, in order |
| `Abort.RollbackInsert` | src/system/sm_manager.cpp:407-427 | removes the inserted row from the heap as delete_record does; on an empty slot the page count goes wrong |
| `Abort.RollbackDelete` | src/system/sm_manager.cpp:430-448 | puts the row back at the lowest free slot of the first page with room |
| `Abort.RollbackUpdate` | src/system/sm_manager.cpp:451-481 | writes the old image, in vain if the slot is empty |
| `Abort.UndoDeleteStep` | src/system/sm_manager.cpp:430-448 | wherever the row lands, undoing can go on, if its id is not still needed or is where it landed |
| `Abort.UndoAll` | src/transaction/transaction_manager.cpp:111-146 | the loop over any write set and any table: what every rollback does to the rows and to the file, deleted rows going to the slot of the next insert, and that it only goes wrong at an insert whose slot is empty |
| `Abort.Restores` | src/transaction/transaction_manager.cpp:111-146 | if rows of ids written before come home, such a run reaches the first write and restores the multiset of rows |
| `Abort.TableTxn.Abort` | src/transaction/transaction_manager.cpp:111-146 | the file is what the rollbacks make of it, from the last write on; the multiset of rows from before the transaction is restored if no delete targets an id written before, or if such rows come home |
| `Abort.StrayedUndo` | src/transaction/transaction_manager.cpp:111-146 | a write set outside that condition after which the rows are different |
| `LogRecords.DecodeBack` | src/recovery/log_manager.h:92-98 | reading at a record's start gives back header and payload, whatever follows |
| `LogRecords.HeaderBytes` | src/recovery/log_manager.h:83-89 | the first twenty bytes of a record: the number of its type, its own number, total length, transaction and previous number, four bytes each, lowest byte first |
| `LogRecords.PayloadBytes` | src/recovery/log_manager.h:300-575 | every field of every payload stands at its offset: lengths, row images, record id, table name, page number and page images |
| `LogRecords.Serialize` | src/recovery/log_manager.h:83-89 | the counted bytes of every record type land in the buffer and nothing before them changes |
| `LogRecords.SerializeTuple` | src/recovery/log_manager.h:300-313 | insert and delete records; the undo_next behind the counted length does not disturb them |
| `LogRecords.SerializeUpdate` | src/recovery/log_manager.h:465-483 | update records |
| `LogRecords.SerializePage` | src/recovery/log_manager.h:556-575 | page records |
| `LogRecords.ReadTupleBack` | src/recovery/log_manager.h:316-329 | insert and delete payloads survive the round trip |
| `LogRecords.ReadUpdateBack` | src/recovery/log_manager.h:486-500 | update payloads survive the round trip |
| `LogRecords.ReadPageBack` | src/recovery/log_manager.h:577-600 | page payloads survive the round trip |
| `LogManager.RecordAt` | src/recovery/log_recovery.cpp:82-83 | in the byte stream every record stands at the sum of the lengths before it |
| `LogManager.LogManager.AddLogToBuffer` | src/recovery/log_manager.cpp:21-33 | the record gets the next number; disk and buffer together stay the concatenation of all records; the disk changes exactly when the buffer has no room, and then holds all earlier records |
| `LogManager.LogManager.FlushLogToDisk` | src/recovery/log_manager.cpp:38-44 | the disk holds all records and ends on a record boundary |
| `LogManager.ReleaseLocks` | src/transaction/transaction_manager.cpp:69-74 | every lock of the transaction is released, with a trace of the disk at each unlock |
| `LogManager.Commit` | src/transaction/transaction_manager.cpp:56-74 | COMMIT and END are appended, and at every unlock the disk holds all records |
| `LogChain.StepKeeps` | src/record/rm_file_handle.cpp:79-95 | every append, the middle of a page pair included, keeps the links and the transactions' own numbers in agreement |
| `LogChain.EveryLogChained` | src/transaction/transaction_manager.cpp:23-81 | for every interleaving, prev_lsn_ names the transaction's previous record, and only a BEGIN has none |
| `LogChain.WalkExact` | src/recovery/log_recovery.cpp:233-234 | following the links stays in the transaction, goes strictly down, reaches every earlier record and ends at BEGIN |
| `LogChain.PrefixRun` | src/recovery/log_manager.cpp:21-33 | the first records of a log are the log of a shorter run |
| `Recovery.NoteRecord` | src/recovery/log_recovery.cpp:33-81 | the transaction table is the last noted record and last marker of every unended transaction |
| `Recovery.Analyze` | src/recovery/log_recovery.cpp:16-85 | walking by length recovers the appended records with payloads, the number-to-offset map and the transaction table |
| `Recovery.GetMaxLsn` | src/recovery/log_recovery.cpp:153-163 | the transaction with the latest record |
| `Recovery.UndoTxn` | src/recovery/log_recovery.cpp:175-235 | visits the tuple records of the transaction once each, latest first |
| `Recovery.Undo` | src/recovery/log_recovery.cpp:168-240 | ends exactly when no unended transaction is committed; every unended transaction's tuple records are then undone once, latest first, the transaction with the latest record before the others |
| `Recovery.WriteStep` | src/recovery/log_manager.cpp:21-33 | the log manager appends exactly the protocol's record |
| `Recovery.CrashLog` | src/recovery/log_manager.cpp:21-44 | the disk at any moment holds the log of a shorter run |
| `Recovery.Recover` | src/recovery/log_recovery.cpp:168-240 | over the disk of any interleaving, undo ends exactly when no transaction is between COMMIT and END, and undoes exactly the unended ones, the one with the latest record first |
| `TableRecovery.RecoverTable` | src/recovery/log_recovery.cpp:168-240 | if undo ends and the file held exactly the logged writes, the file is what the rollbacks of the only unended writer make of it, and the table is back to its rows from before that transaction, under the condition of abort |
| `TableRecovery.ReachedWrites` | src/recovery/log_recovery.cpp:204-226 | the rollbacks that reach the table are that transaction's writes, from the last to the first |
| `TableRecovery.AbortingLog` | src/recovery/log_recovery.cpp:187-199 | a log that breaks off while its transaction aborts, with the delete still to be undone |
| `TableRecovery.UndoneTwice` | src/recovery/log_recovery.cpp:187-216 | abort puts a deleted row back, the log breaks off before END, and recovery over that log puts it back a second time |
| `LockedLog.LogStepKeeps` | src/execution/executor_delete.h:28-75 | a log step under the locks keeps: what an unended transaction has written is exclusively locked by it |
| `LockedLog.LockStepKeeps` | src/transaction/transaction_manager.cpp:56-74 | a lock step keeps it too, since locks go only after the END record |
| `LockedLog.AlwaysOneWriter` | src/transaction/concurrency/lock_manager.cpp:86-118 | at every crash point of every interleaving an unended writer of a table is its only unended writer |
| `LockedLog.RecoverCrashed` | src/recovery/log_recovery.cpp:168-240 | recovery of a table after a crash at any point of any such interleaving |
| `WriteAhead.EvictionIff` | src/storage/buffer_pool_manager.cpp:44-48 | giving up a frame keeps the write-ahead rule exactly when the frame is clean or its last record is durable |
| `WriteAhead.PageBeforeLog` | src/storage/buffer_pool_manager.cpp:39-52 | a logged change whose page reaches the disk while the log file is still empty |
| `NestedLoopJoin.Executor.MakeBuff` | src/execution/executor_nestedloop_join.h:38-67 | the rows still to be formed become the buffered ones and the rest, in order |
| `NestedLoopJoin.Executor.BeginJoin` | src/execution/executor_nestedloop_join.h:90-98 | on the first call all rows are to come; a join that has ended stays at its end |
| `NestedLoopJoin.Executor.NextJoin` | src/execution/executor_nestedloop_join.h:100-106 | the row that was taken goes, the others stay in order |
| `NestedLoopJoin.Executor.TakeBuffered` | src/execution/executor_nestedloop_join.h:108-113 | the first of the rows still to come |
| `NestedLoopJoin.RunAll` | src/execution/executor_nestedloop_join.h:38-113 | a full run over any tree of scans and joins ends and emits exactly the tree's rows |
| `NestedLoopJoin.BlocksRows` | src/execution/executor_nestedloop_join.h:42-65 | for any block size all blocks together form the filtered pairs, as a multiset |
| `NestedLoopJoin.EmittedRows` | src/execution/executor_nestedloop_join.h:42-65 | over a right child that restarts all left rows are joined, over a join the first block |
| `NestedLoopJoin.CompleteIff` | src/execution/executor_nestedloop_join.h:42-65 | over a join nothing is lost exactly when the left rows behind the first block would add nothing |
| `Layout.PageLayout` | src/record/rm_file_handle.h:31-40 | header, bitmap and all slots are pairwise disjoint and inside the page, for record sizes 1 to 512 |
| `Layout.PageBudget` | src/record/rm_manager.h:43-50 | as many records as the budget allows and not one more, and a bitmap of just as many bytes as they need |
| `Layout.PageContiguous` | src/record/rm_file_handle.h:31-40 | log number, header, bitmap and slots follow each other without gaps |
| `Layout.SlotWrite` | src/record/rm_file_handle.h:38-40 | writing a record changes its slot and no other slot, bit or header byte |
| `Layout.CreateFile` | src/record/rm_manager.h:34-56 | other record sizes are refused; otherwise the bitmap covers the slots and the file is empty |
| `Layout.NodeLayout` | src/index/ix_manager.h:65-84 | order + 1 keys and record ids are disjoint and inside the page, and the order is above 2, for key lengths up to 512 |
| `Layout.NodeBudget` | src/index/ix_manager.h:76-79 | there is room for one entry more than the order and not for two |
| `Layout.NodeContiguous` | src/index/ix_index_handle.h:78-119 | log number, header, keys and record ids follow each other without gaps |
| `Layout.NodesFit` | src/index/ix_index_handle.cpp:110-130 | every node of a valid index has room for one more entry, so no insert before a split overruns its page |

## Left out

- Parsers, network, client, printing, `output.txt`, sorting, projection and aggregation: no state worth an invariant, or generated.
- Index page logging (also the index records that commit and abort write first), `IndexPagesLogRecord`, `CreateIndexLogRecord`, `DropIndexLogRecord`: their byte forms do not round-trip in the source; the chain model has no such records.
- Redo, the dirty-page table, and log numbers across restarts.
- Pin counts and buffer pool calls inside index and record code: pages are a mutable map there, and the pool is proved separately; page latches and aliasing of page pointers are not captured.
- Floats, mixed-type comparison, date checks, strings with bytes above 127.
- Self-joins, and queries without tables.
- Index maintenance during update and rollback (key equality by `strcmp`): abort is stated on the heap.
- Record-level and intention locks (stubs) and `insert_record` at a given record id.
- The index works on integers instead of byte keys: `IxKeys.KeyOrder` gives the coding.
- Frames of the buffer pool and slots of a record page are sequences that methods reassign, not arrays: in-place update inside one page is stated byte-wise in `Layout.SlotWrite` only.
- BufferPool.BufferPoolManager.FetchPage: requires a page number that the file has allocated, because a read past the end of the file is left to the operating system.
- IxIndex.IxIndexHandle.DeleteEntry: says nothing about the pages after a sibling fault, because the source then follows links of internal nodes that were never set.
- IndexScan.Run: constants that overrun the key buffer or straddle columns of different types only yield `KeyGarbled`.
- IndexScan.Run: models beginTuple and all nextTuple calls as one run; for bounds out of order it states the rows of a completed run but not when it completes.
- Abort.TableTxn.Abort: the condition is sufficient, for one table; other write sets can also restore the rows by coincidence of values, which no condition on ids decides.
- Abort.UndoAll: the model stops at an undone insert whose slot is empty, because the page count is wrong from there on; the source goes on.
- LogManager.LogManager.AddLogToBuffer: the buffer has four spare bytes for the undo_next of tuple records (the source has one), and numbers stay below 2^31.
- NestedLoopJoin.Executor.MakeBuff: scans are cursors over fixed rows, the filter is a total function, and one class stands for scans and joins; records are combined by a function instead of by copying bytes.
- PlanExecution.RunQuery: all scans are sequential; an index scan may throw instead (`IndexScan.CompletesIff`). Starting a join again before it has ended is not described.
- Recovery.UndoTxn: rollbacks are the list of records handed to them; what they do to a table is in TableRecovery.
- TableRecovery.RecoverTable: requires the file to hold exactly the writes in the durable log; redo is not modelled, and the engine can leave a file ahead of the log (`WriteAhead.PageBeforeLog`).
