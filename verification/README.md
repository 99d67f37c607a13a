# RMDB: a verified model of its storage, index and query core

RMDB is a small relational engine. This project models the parts of it that carry real invariants and proves
what they promise, for every input and every run.

| part | modules |
|---|---|
| unique B+ tree index | `KeyOrder`, `IndexNode`, `IndexShape`, `IndexSteps`, `IndexSplit`, `IndexGrow`, `IndexContents`, `IndexOrder`, `IndexHandle`, `IndexLaws`, `PinLedger` |
| index scan and its key range | `Conditions`, `IndexScan`, `ScanFailures`, `IndexRange`, `ScanExecutors` |
| table with its indexes | `PlainTable`, `TableStore`, `TableRuns` |
| record file and its scan | `Bitmap`, `RecordFile`, `RecordScan` |
| buffer pool and LRU replacer | `BufferPool`, `BufferManager`, `BufferRuns` |
| join planner and nested-loop join | `JoinPlans`, `TableScan`, `NestedLoop`, `PlanMeaning`, `PlanBuilding`, `Planner`, `Queries` |
| GROUP BY, aggregates, HAVING | `Aggregation`, `AggregateExecutor` |
| catalog text, index header, insert log record | `CatalogText`, `Catalog`, `Words`, `IndexHeader`, `InsertLog` |

`dafny verify dfyconfig.toml` checks everything.

How the model is built:

- An object that the source updates in place is a class with the same fields; pages of a file are a map from page
  number to page. Each method is proved against a ghost value (a finite map for an index or a record file, a plain
  store for the buffer pool, a plan tree for a planner node), and the laws are proved about those values.
- A step that leaves an invariant unfinished (an overfull page, a first key the parent has not heard of, two halves of
  which the parent knows one) is described by `IndexShape.Todo`; the invariant is stated relative to it, so that the
  state between the steps of an operation is specified too.
- Keys are the ranks of their column values; `KeyOrder` proves that column-by-column comparison is comparison of ranks.
- Pins and dirty marks of the index operations are kept in `PinLedger`: every method says that the pins balance and
  that each page it changed was unpinned as dirty during the call. Methods that work on given pages require them to
  be pinned; `MaintainParent` alone goes on reading a page that it has just given back, as its loop invariant says.
- What a condition, an assignment, an aggregate or a cached page means is stated apart from the code that computes it:
  `Conditions.Relates`, `JoinPlans.Holds`, `PlainTable.IsAssigned`, `Aggregation.IsAggregate`,
  `Aggregation.ValuesRelate` and the plain store of `BufferRuns` name none of the functions that the executors call.
- Errors are result values (`None`, `Err`, `Failed`), not preconditions. Preconditions state what callers and the
  earlier phases of the engine guarantee: resolved columns, typed values, distinct table names.

Where the code does not do what it is for, the model does what the code does and the exact condition is proved:

- A scan range with a `>=` on a column followed by further index columns is padded with maxima and loses the rows that
  meet the bound with equality unless their trailing columns are greatest (`IndexRange.MatchIsAboveBottom`,
  `IndexRange.PaddingLosesARow`). A query over such a scan gives the whole answer iff no row of the answer is lost
  (`ScanExecutors.CompareScans`, `Queries.LostRowsDecide`).
- An index scan fails when an emptied leaf lies inside its range or the range is reversed, and only then
  (`IndexScan.ReadRange`, `ScanFailures`).
- An update leaves the table inconsistent iff another record has its new key in some index and, before the first such
  index, a key changes (`TableStore.Table.UpdateRow`, `PlainTable.UpdateCanTear`).
- A comparison of two columns of one table is given to the scan of the first table, whichever table it speaks of; the
  plan has all columns in scope iff no such comparison speaks of another table (`Planner.MakeOneRel`).
- The check that a join method is enabled is made only when a condition joins two tables (`Planner.MakeOneRel`).

## Model

| member | source | states |
|---|---|---|
| `IndexLaws.Run` | rmdb/src/index/ix_index_handle.cpp:106-234 | Over every run of insertions, deletions and lookups from the empty index, the answers are those of a finite map from key to Rid. |
| `IndexLaws.Perform` | rmdb/src/index/ix_index_handle.cpp:106-234 | One operation answers and changes the contents as the finite map does, and keeps the whole invariant. |
| `IndexLaws.SeparatorLaw` | rmdb/src/index/ix_index_handle.cpp:45-51 | In every reachable tree the keys of a node are sorted and a separator equals its child's first key, except over an emptied leaf and over the globally first leaf, where it may be too high only while that leaf holds at most max_size/2 entries. |
| `IndexLaws.EqualDepth` | rmdb/src/index/ix_index_handle.cpp:166-196 | Every leaf is the same number of parent links below the root. |
| `IndexLaws.ChainIsInOrder` | rmdb/src/index/ix_index_handle.cpp:134-164 | The leaf chain from first_leaf to last_leaf is exactly the leaves of the tree, read from left to right; first_leaf never changes. |
| `IndexLaws.PageCoversRun` | rmdb/src/index/ix_index_handle.cpp:166-196 | The leaves below any page are a consecutive run of the chain. |
| `IndexHandle.IxIndexHandle.constructor` | rmdb/src/index/ix_manager.h:57-139 | A new index satisfies the invariant and holds the empty map, for any order above 2. |
| `IndexHandle.IxIndexHandle.FindLeafPage` | rmdb/src/index/ix_index_handle.cpp:106-118 | The clamped descent ends in the one leaf where the key belongs, even while the first separator is too high; only that leaf is left pinned. |
| `IndexHandle.IxIndexHandle.GetValue` | rmdb/src/index/ix_index_handle.cpp:121-132 | The lookup answers as the map does and leaves all pins and dirty marks as they were. |
| `IndexHandle.IxIndexHandle.InsertEntry` | rmdb/src/index/ix_index_handle.cpp:198-218 | Fails iff the key is there, changing nothing; otherwise the contents gain exactly this entry, the answer is the leaf in which the key belonged before the insertion, the invariant holds again after any number of splits, pins balance, and every page this call has changed was unpinned as dirty during it. |
| `IndexHandle.IxIndexHandle.InsertInLeaf` | rmdb/src/index/ix_index_handle.cpp:66-73 | The pair enters the covering leaf: the contents gain exactly it, only that leaf changes, and the invariant holds up to the leaf being full or its parent not knowing its first key. |
| `IndexHandle.IxIndexHandle.DeleteEntry` | rmdb/src/index/ix_index_handle.cpp:220-234 | Removes exactly the given key, answers whether it was there, keeps the invariant (leaves may become empty), balances pins and has unpinned as dirty, during this call, every page it changed. |
| `IndexHandle.IxIndexHandle.EraseFromLeaf` | rmdb/src/index/ix_index_handle.cpp:75-91 | The contents lose exactly the erased key, only that leaf changes, and the invariant holds up to its first key. |
| `PinLedger.OwesTogether` | rmdb/src/index/ix_index_handle.cpp:106-292 | What one stretch of an operation owes the pool and what the next owes add up: a changed page is reported since, or still owed. |
| `IndexHandle.IxIndexHandle.MaintainParent` | rmdb/src/index/ix_index_handle.cpp:317-331 | Restores the invariant from a state in which one page's first key has changed; pins balance, every page it changed was unpinned as dirty during the call. |
| `IndexHandle.IxIndexHandle.Split` | rmdb/src/index/ix_index_handle.cpp:134-164 | Turns a tree with one overfull page into one with two legal halves, the old page keeping half of its entries (rounded down), of which the parent knows only the first; contents, chain and all other pages are as required. |
| `IndexHandle.IxIndexHandle.SplitLeaf` | rmdb/src/index/ix_index_handle.cpp:134-164 | The same for a leaf: both halves are linked into the chain and last_leaf follows. |
| `IndexHandle.IxIndexHandle.SplitInner` | rmdb/src/index/ix_index_handle.cpp:134-164 | The same for an inner page: the moved children point to the new page. |
| `IndexHandle.IxIndexHandle.MoveHalfLeaf` | rmdb/src/index/ix_index_handle.cpp:134-164 | The in-place page changes of a leaf split give the specified tree, balance the pins and account for the neighbour leaf. |
| `IndexHandle.IxIndexHandle.MoveHalfInner` | rmdb/src/index/ix_index_handle.cpp:134-164 | The in-place page changes of an inner split re-parent exactly the moved children. |
| `IndexHandle.IxIndexHandle.InsertIntoParent` | rmdb/src/index/ix_index_handle.cpp:166-196 | From two halves the recursion up to a possible new root re-establishes the full invariant with unchanged contents, pins balanced and changes dirty. |
| `IndexHandle.IxIndexHandle.GrowRoot` | rmdb/src/index/ix_index_handle.cpp:168-183 | A new root above the two halves of the old one makes the tree whole again. |
| `IndexHandle.IxIndexHandle.Adopt` | rmdb/src/index/ix_index_handle.cpp:186-196 | Entering the new half in its parent makes the tree whole except that the parent may now be full. |
| `IndexHandle.IxIndexHandle.MaintainChildren` | rmdb/src/index/ix_index_handle.cpp:351-358 | Exactly the listed children change, and only in their parent pointer. |
| `IndexHandle.IxIndexHandle.CreateNode` | rmdb/src/index/ix_index_handle.cpp:310-315 | The new page has a number never used before, and is pinned once. |
| `IndexHandle.IxIndexHandle.LowerBoundOf` | rmdb/src/index/ix_index_handle.cpp:262-276 | Returns the position of the first entry of the whole index with key >= the target, or the end of the last leaf, across any number of emptied leaves; the walk ends. |
| `IndexHandle.IxIndexHandle.UpperBoundOf` | rmdb/src/index/ix_index_handle.cpp:278-292 | The same for the first entry with key > the target. |
| `IndexHandle.IxIndexHandle.SkipToEntry` | rmdb/src/index/ix_index_handle.cpp:262-276 | The walk over emptied leaves keeps the place in the order and stops on an entry or at the end. |
| `IndexHandle.IxIndexHandle.GetRid` | rmdb/src/index/ix_index_handle.cpp:251-260 | Gives the Rid of the entry at a position, and reports a missing entry exactly beyond the leaf's last one. |
| `IndexNode.LowerBound` | rmdb/src/index/ix_index_handle.cpp:8-20 | The binary search splits the keys into those below the target and the others. |
| `IndexNode.UpperBound` | rmdb/src/index/ix_index_handle.cpp:22-34 | The binary search splits the keys into those up to the target and the others. |
| `IndexNode.InternalLookup` | rmdb/src/index/ix_index_handle.cpp:45-51 | The chosen child is the last whose separator is not above the key, or child 0 when all are. |
| `IndexNode.FindChild` | rmdb/src/index/ix_index_handle.h:148-157 | Finds the first position that points to the child. |
| `IndexShape.CoverAnswers` | rmdb/src/index/ix_index_handle.cpp:36-51 | The leaf a key is routed to answers for the whole map. |
| `IndexShape.CoverIsUnique` | rmdb/src/index/ix_index_handle.cpp:45-51 | At most one leaf covers a key. |
| `IndexShape.FirstKeyIsCut` | rmdb/src/index/ix_index_handle.cpp:317-331 | Below finished separators, the first key of every subtree but the leftmost is the cut of its first leaf. |
| `IndexSteps.LeafStep` | rmdb/src/index/ix_index_handle.cpp:53-91 | Changing the entries of one leaf keeps the invariant up to that leaf's separator. |
| `IndexSteps.RaiseStep` | rmdb/src/index/ix_index_handle.cpp:317-331 | Telling the parent a new first key moves the open end one level up. |
| `IndexSplit.SplitLeafStep` | rmdb/src/index/ix_index_handle.cpp:134-164 | Splitting a full leaf keeps the invariant up to the missing separator. |
| `IndexSplit.SplitInnerStep` | rmdb/src/index/ix_index_handle.cpp:134-164 | Splitting a full inner page keeps the invariant up to the missing separator. |
| `IndexGrow.NewRootStep` | rmdb/src/index/ix_index_handle.cpp:168-183 | Growing the root keeps the invariant and the leaf chain, one level deeper. |
| `IndexGrow.AdoptStep` | rmdb/src/index/ix_index_handle.cpp:186-196 | Entering the right half after the left one keeps separators increasing and children consecutive. |
| `IndexContents.InsertSound` | rmdb/src/index/ix_index_handle.cpp:66-73 | Inserting a pair into the covering leaf adds exactly that entry to the map. |
| `IndexContents.EraseSound` | rmdb/src/index/ix_index_handle.cpp:75-91 | Erasing a pair removes exactly that entry from the map. |
| `IndexOrder.FlatSorted` | rmdb/src/index/ix_index_handle.cpp:294-303 | Keys increase strictly along the whole leaf chain from first_leaf to last_leaf. |
| `IndexOrder.FlatIsContents` | rmdb/src/index/ix_index_handle.cpp:294-303 | The entries along the chain are exactly the map, each once. |
| `IndexOrder.LeafCutIsGlobal` | rmdb/src/index/ix_index_handle.cpp:262-292 | The in-leaf search position is the cut of the whole index. |
| `KeyOrder.RankIsOrder` | rmdb/src/index/ix_index_handle.h:20-47 | Column-by-column comparison orders keys as their ranks do, and ranks tell keys apart. |
| `KeyOrder.Compare` | rmdb/src/index/ix_index_handle.h:39-47 | The early-exit comparison has the sign of the rank difference. |
| `IndexScan.ReadRange` | rmdb/src/index/ix_scan.cpp:17-34 | The scan between two positions returns the Rids of exactly the entries between them, in order, iff the range is not reversed and no emptied leaf lies inside it; otherwise it ends with entry-not-found. |
| `IndexScan.IxScan.Next` | rmdb/src/index/ix_scan.cpp:17-30 | Moves one slot on, or to slot 0 of the next leaf whatever that leaf holds; pins balance. |
| `ScanFailures.EmptiedLeafStopsScan` | rmdb/src/index/ix_scan.cpp:24-28 | A legal index with an emptied leaf and two positions, as the searches return them, between which the scan fails. |
| `ScanFailures.ReversedRangeStopsScan` | rmdb/src/index/ix_scan.cpp:24-28 | The same index and a reversed range without an emptied leaf inside it that the scan cannot read. |
| `IndexRange.MakeScanRange` | rmdb/src/execution/executor_index_scan.h:61-138 | The key range is the one the conditions determine: the last equality of each leading column, the first bounds on the next, padding behind it. |
| `IndexRange.PicksByPlace` | rmdb/src/execution/executor_index_scan.h:76-95 | The picked conditions are, by their places in the list, the last equality and the first lower and upper bound on the column, and none only when there is none. |
| `IndexRange.MatchIsAboveBottom` | rmdb/src/execution/executor_index_scan.h:61-138 | A row that meets the conditions is at or after the start of the range iff it is not cut off by a >= bound padded with maxima. |
| `IndexRange.MatchIsBelowTop` | rmdb/src/execution/executor_index_scan.h:61-138 | A row that meets the conditions comes before the end of the range. |
| `IndexRange.RangeIsTight` | rmdb/src/execution/executor_index_scan.h:61-138 | A row whose key lies in the range meets the picked equalities and lies within the picked bounds. |
| `IndexRange.PaddingLosesARow` | rmdb/src/execution/executor_index_scan.h:106-113 | A concrete index, condition and matching row that the padded bound leaves out. |
| `IndexRange.CountMatched` | rmdb/src/optimizer/planner.cpp:30-58 | Counts the leading index columns that the conditions use. |
| `IndexRange.MatchedByColumn` | rmdb/src/optimizer/planner.cpp:36-57 | The counted columns all have an equality but for the last, which has one or a bound, and the column behind them has neither. |
| `IndexRange.ChooseIndex` | rmdb/src/optimizer/planner.cpp:28-71 | Chooses the first index with the most usable columns, and none iff no index has any. |
| `ScanExecutors.SeqScan` | rmdb/src/execution/executor_seq_scan.h:48-73 | Returns exactly the records whose values stand in the relation that each condition's operator names, once each, in record order. |
| `ScanExecutors.IndexScanRows` | rmdb/src/execution/executor_index_scan.h:140-182 | With an index that agrees with the table and a usable condition, returns exactly the selected records that the padding does not cut off, in key order, iff its range can be read. |
| `ScanExecutors.CompareScans` | rmdb/src/execution/executor_index_scan.h:140-182 | Given a readable range, the index scan finds the same rows as the sequential scan iff its padding cuts off no selected row. |
| `ScanExecutors.FindRows` | rmdb/src/optimizer/planner.cpp:190-202 | The scan that the planner chooses for a table yields the selected rows, all of them without an index, all but the cut-off ones with one, or fails iff the chosen index cannot be read. |
| `ScanExecutors.FullLeavesRead` | rmdb/src/index/ix_scan.cpp:24-28 | An index without emptied leaves reads every range that is not reversed. |
| `ScanExecutors.RangeIsRecords` | rmdb/src/execution/executor_index_scan.h:140-158 | The entries of a key range belong to exactly the records whose keys lie in it. |
| `Conditions.EvalConds` | rmdb/src/execution/executor_abstract.h:61-162 | The early-exit test accepts a row iff it has every column that is compared and the value there is equal to, different from, less than, greater than, at most or at least the given one, as the operator says. |
| `TableRuns.Run` | rmdb/src/execution/executor_insert.h:40-79 | Every run of insert, delete, update and create-index statements from the empty table answers as a plain table with unique keys does, with the key column lists that the answers themselves have built, up to an update that tears the table; an update gives the records it reaches the value of the last clause on each column and leaves the others; every index is the map from keys to Rids iff the run has not torn. |
| `TableRuns.Perform` | rmdb/src/execution/executor_update.h:40-76 | One statement gives the plain table's answer, leaves its records and its key lists, and keeps the agreement iff it is not an update that tears. |
| `TableStore.Table.InsertRow` | rmdb/src/execution/executor_insert.h:40-79 | Rejected iff some record has the row's values in the columns of some index, and then nothing changes; otherwise one new Rid holds the row and every index still agrees with the records. |
| `TableStore.Table.DeleteRow` | rmdb/src/execution/executor_delete.h:39-55 | Removes the record and exactly its index entries. |
| `TableStore.Table.DeleteRows` | rmdb/src/execution/executor_delete.h:39-55 | Deletes the listed records up to the first that is not there any more: all of them iff they are distinct and present; agreement holds in either case. |
| `TableStore.Table.UpdateRow` | rmdb/src/execution/executor_update.h:40-76 | Answers updated iff the row is there and no other record has its new key in any index, and otherwise names the first such index; an updated row has, in each column, the value of the last clause on it or its old value; the table is in agreement afterwards iff there is no such index with a changed key before it. |
| `TableStore.Table.UpdateRows` | rmdb/src/execution/executor_update.h:40-76 | Updates the rows up to the first that is not there or clashes when its turn comes; exactly those rows change, column by column as the clauses say; agreement is lost iff that row clashes behind a key it changes. |
| `TableStore.Table.MoveEntries` | rmdb/src/execution/executor_update.h:55-73 | Moves the row's entry in each index in turn and stops at the first index where another row has the key, all earlier ones being free for it. |
| `TableStore.TornUpdate` | rmdb/src/execution/executor_update.h:55-73 | An update stopped at index n leaves agreement iff the columns of no earlier index change. |
| `TableStore.FirstBlocked` | rmdb/src/execution/executor_update.h:65-70 | The first key that may not move is the first whose columns another record has. |
| `PlainTable.UpdateAnswerIsUnique` | rmdb/src/execution/executor_update.h:40-76 | The condition on the records and the assignments admits one answer to an update. |
| `PlainTable.DeleteAnswerIsUnique` | rmdb/src/execution/executor_delete.h:39-55 | The condition on the records admits one answer to a deletion. |
| `PlainTable.TearsWhereStopped` | rmdb/src/execution/executor_update.h:55-73 | An update tears iff the row at which it stops clashes behind a key that it changes. |
| `PlainTable.UpdateCanTear` | rmdb/src/execution/executor_update.h:55-73 | Two unique keys, rows (1, 1) and (2, 2): setting the first to (3, 2) tears the table. |
| `PlainTable.SetColumns` | rmdb/src/execution/executor_update.h:42-54 | The loop over the clauses gives every column the value of the last clause on it, and its old value when there is none. |
| `PlainTable.SetAllReassigns` | rmdb/src/execution/executor_update.h:40-76 | After the assignments to a list of rows, repeated or not, each of them is assigned once, column by column, and no other record has changed. |
| `TableStore.Table.FillIndex` | rmdb/src/system/sm_manager.cpp:288-306 | Filling a new index ends normally iff all keys are distinct, and then it agrees with the records. |
| `TableStore.Table.CreateIndex` | rmdb/src/system/sm_manager.cpp:273-320 | Fails with index-exists iff there is one on these columns; otherwise succeeds iff the keys are distinct; on failure the table is as before. |
| `TableStore.AllInStepAfterInsert` | rmdb/src/execution/executor_insert.h:55-77 | Entering the keys of a row that clashes nowhere keeps every index in agreement. |
| `TableStore.AllInStepAfterUpdate` | rmdb/src/execution/executor_update.h:55-74 | Moving a row's keys to free places keeps every index in agreement. |
| `TableStore.TakenIsClash` | rmdb/src/execution/executor_insert.h:64-67 | The lookups find a key iff some record has the row's values in the columns of some index. |
| `RecordFile.RmFileHandle.constructor` | rmdb/src/record/rm_manager.h:34-57 | A new file holds no record and has no page with room. |
| `RecordFile.RmFileHandle.GetRecord` | rmdb/src/record/rm_file_handle.cpp:19-30 | Answers as the map Rid -> record, with the two error cases apart. |
| `RecordFile.RmFileHandle.InsertRecord` | rmdb/src/record/rm_file_handle.cpp:38-55 | Stores the record in the first free slot of the first page of the free list, or of a new page when the list is empty, and changes no other record; the free list stays exact. |
| `RecordFile.RmFileHandle.FreeSlot` | rmdb/src/record/rm_file_handle.cpp:42-44 | The slot is free and all slots before it are in use. |
| `RecordFile.RmFileHandle.InsertRecordAt` | rmdb/src/record/rm_file_handle.cpp:62-99 | Succeeds iff the place is legal, adds pages up to it, and changes exactly that record. |
| `RecordFile.RmFileHandle.FillPlace` | rmdb/src/record/rm_file_handle.cpp:73-98 | Filling any slot, used or not, sets exactly that record; a page that fills up leaves the free list. |
| `RecordFile.RmFileHandle.Unlink` | rmdb/src/record/rm_file_handle.cpp:79-97 | The walk from the head of the free list ends and takes out exactly the full page. |
| `RecordFile.RmFileHandle.UpdateRecord` | rmdb/src/record/rm_file_handle.cpp:132-142 | Succeeds iff the record exists and changes only it. |
| `RecordFile.RmFileHandle.DeleteRecord` | rmdb/src/record/rm_file_handle.cpp:106-123 | Succeeds iff the record exists and removes only it; a page that was full becomes the first of the free list. |
| `RecordFile.RmFileHandle.CreatePage` | rmdb/src/record/rm_file_handle.cpp:167-181 | The new page is empty and first in the free list. |
| `RecordFile.RmFileHandle.PageWithRoom` | rmdb/src/record/rm_file_handle.cpp:189-194 | The page returned has room and heads the free list; a page is added iff the list was empty. |
| `RecordFile.FreeListUnlink` | rmdb/src/record/rm_file_handle.cpp:79-97 | Unlinking at any place keeps the list acyclic and exactly the pages with room. |
| `Bitmap.CountIsFull` | rmdb/src/record/bitmap.h:25-51 | The count of set bits equals the number of slots iff every slot is set. |
| `Bitmap.BitsInOrder` | rmdb/src/record/bitmap.h:57-60 | Eight positions to a byte, from its highest bit to its lowest. |
| `Bitmap.CountAfterSet` | rmdb/src/record/bitmap.h:25-28 | Setting or resetting a bit moves the count by one iff it changes the bit. |
| `Bitmap.NextBit` | rmdb/src/record/bitmap.h:41-48 | Finds the next position with the wanted bit, skipping none, or the limit. |
| `RecordScan.ScanAll` | rmdb/src/record/rm_scan.cpp:18-49 | Visits every live record exactly once in increasing (page, slot) order and ends. |
| `RecordScan.RmScan.Next` | rmdb/src/record/rm_scan.cpp:26-42 | Moves to the least live record after the current place, or to the end. |
| `RecordScan.RmScan.constructor` | rmdb/src/record/rm_scan.cpp:18-21 | Starts on the least live record. |
| `BufferRuns.Run` | rmdb/src/storage/buffer_pool_manager.cpp:58-196 | Over every run of fetch, unpin, read, write, flush, new and delete from an empty pool, every answer is that of a store that keeps all pages in memory, allows as many different pinned pages as there are frames, and caches pages by one rule: a page that comes in replaces, only when as many pages are cached as there are frames, the unpinned page given back longest ago. What a flush finds cached is exactly what this rule says. |
| `BufferRuns.Perform` | rmdb/src/storage/buffer_pool_manager.cpp:58-196 | One operation answers as the plain store and keeps the correspondence of contents, pins, unreported changes and the order of the pages waiting to be replaced. |
| `BufferPool.FullOfPins` | rmdb/src/storage/buffer_pool_manager.cpp:18-25 | All frames are pinned iff as many different pages are pinned as there are frames. |
| `BufferPool.NoVictimMeansAllPinned` | rmdb/src/storage/buffer_pool_manager.cpp:18-25 | No frame can be found iff every frame is pinned. |
| `BufferPool.TakenAdmits` | rmdb/src/storage/buffer_pool_manager.cpp:18-49 | A page that comes in takes an empty frame, and every cached page stays, if there is such a frame; otherwise it takes the place of the page unpinned longest ago, and only that page leaves. |
| `BufferPool.RoomForOne` | rmdb/src/storage/buffer_pool_manager.cpp:18-25 | There is an empty frame iff the pinned pages and the pages waiting to be replaced are together fewer than the frames. |
| `BufferPool.CachedIsHeldOrIdle` | rmdb/src/storage/buffer_pool_manager.cpp:95-111 | A page is cached iff it is pinned or waits to be replaced, and never both. |
| `BufferPool.FetchStep` | rmdb/src/storage/buffer_pool_manager.cpp:58-87 | Bringing a page in over a victim, with its write-back, changes no page's content and keeps every frame accounted for. |
| `BufferPool.CreateStep` | rmdb/src/storage/buffer_pool_manager.cpp:135-153 | Creating a page changes its own content only. |
| `BufferPool.UnpinStep` | rmdb/src/storage/buffer_pool_manager.cpp:95-111 | Unpinning keeps contents; the LRU list is never full when a frame is to be listed. |
| `BufferPool.ReleasedContent` | rmdb/src/storage/buffer_pool_manager.cpp:160-180 | Dropping an unpinned page, written back if dirty, changes no page's content. |
| `BufferPool.TakenConserved` | rmdb/src/storage/buffer_pool_manager.cpp:33-49 | After a frame has changed hands every frame is exactly one of free, listed for replacement, or mapped and pinned, and page table and frames agree. |
| `BufferManager.LRUReplacer.Victim` | rmdb/src/replacer/lru_replacer.cpp:22-34 | The victim is the listed frame unpinned longest ago; fails iff none is listed. |
| `BufferManager.LRUReplacer.Pin` | rmdb/src/replacer/lru_replacer.cpp:40-48 | Takes the frame out of the list and keeps the order of the others. |
| `BufferManager.LRUReplacer.Unpin` | rmdb/src/replacer/lru_replacer.cpp:54-61 | Lists the frame as the youngest unless it is listed already or the list is full. |
| `BufferManager.BufferPoolManager.FindVictimPage` | rmdb/src/storage/buffer_pool_manager.cpp:18-25 | A free frame if there is one, with the LRU list untouched; otherwise the listed frame with the earliest unpin time; fails iff there is neither. |
| `BufferManager.BufferPoolManager.UpdatePage` | rmdb/src/storage/buffer_pool_manager.cpp:33-49 | Writes a dirty page back, drops its table entry and gives the emptied frame to the new page. |
| `BufferManager.BufferPoolManager.FetchPage` | rmdb/src/storage/buffer_pool_manager.cpp:58-87 | Fails iff the page is not cached and every frame is pinned; otherwise it has one more pin and every content is as before. A page that is not cached goes to a frame that held no page, with all cached pages kept, or, when there is none, over the frame with the earliest unpin time. |
| `BufferManager.BufferPoolManager.UnpinPage` | rmdb/src/storage/buffer_pool_manager.cpp:95-111 | Succeeds iff the page is pinned; takes one pin, keeps a dirty mark, changes no content; at the last pin the page waits behind all others. |
| `BufferManager.BufferPoolManager.FlushPage` | rmdb/src/storage/buffer_pool_manager.cpp:118-128 | The disk has the page's content afterwards; nothing a client sees changes. |
| `BufferManager.BufferPoolManager.NewPage` | rmdb/src/storage/buffer_pool_manager.cpp:135-153 | Fails iff every frame is pinned; otherwise a page number never used before, empty and pinned once, in a frame that held no page if there is one and else over the frame with the earliest unpin time. |
| `BufferManager.BufferPoolManager.DeletePage` | rmdb/src/storage/buffer_pool_manager.cpp:160-180 | Succeeds iff the page is not cached or not pinned; no content is lost. |
| `BufferManager.BufferPoolManager.FlushAllPages` | rmdb/src/storage/buffer_pool_manager.cpp:186-196 | Afterwards the disk has the content of every cached page of the file; contents and pins are as before. |
| `Planner.MakeOneRel` | rmdb/src/optimizer/planner.cpp:181-301 | Every table is scanned once and every condition placed once, on a join with its left side in the left input (flipped when swapped) or on a scan; each scan has all comparisons of its columns with values; all columns are in scope iff no condition compares two columns of a table other than the first; fails iff a cross-table condition meets no join method. |
| `Planner.PopConds` | rmdb/src/optimizer/planner.cpp:80-98 | Splits the conditions, in order, into those the scan takes and the rest. |
| `Planner.PushConds` | rmdb/src/optimizer/planner.cpp:100-141 | The in-place push gives the specified tree and code. |
| `PlanBuilding.PushPlaces` | rmdb/src/optimizer/planner.cpp:100-141 | A condition with both tables in the tree is placed once, at the join where they meet, the right way round. |
| `PlanBuilding.PushFinds` | rmdb/src/optimizer/planner.cpp:100-129 | The code tells exactly which of the two tables are in the tree, and below 3 the tree is unchanged. |
| `Planner.PopScan` | rmdb/src/optimizer/planner.cpp:143-156 | Marks and returns the scan of the table, or nothing when there is none. |
| `Planner.PlaceCond` | rmdb/src/optimizer/planner.cpp:246-284 | One more condition, with the tables it needs, keeps the account of tables and conditions in all four cases. |
| `Planner.JoinByConds` | rmdb/src/optimizer/planner.cpp:215-286 | All cross-table conditions are placed; no tree iff both join methods are off. |
| `Planner.JoinRemaining` | rmdb/src/optimizer/planner.cpp:291-297 | The tables no condition brought in are joined once each. |
| `Planner.MakeScans` | rmdb/src/optimizer/planner.cpp:186-203 | Each scan takes exactly the conditions it can take that no earlier scan took. |
| `PlanBuilding.AllDealt` | rmdb/src/optimizer/planner.cpp:87-90 | Only cross-table comparisons are left, and a scan lacks a column iff some condition compares two columns of a table other than the first. |
| `PlanMeaning.FlipHolds` | rmdb/src/optimizer/planner.cpp:131-135 | Exchanging the sides of a comparison and flipping its operator keeps its meaning. |
| `PlanMeaning.YieldsExact` | rmdb/src/optimizer/planner.cpp:181-301 | A plan that does not fail yields exactly the choices of rows that satisfy its conditions and use no row lost by an index scan, each once. |
| `PlanMeaning.RunYields` | rmdb/src/execution/executor_nestedloop_join.h:47-113 | Running a plan gives the records of those choices, in nested-loop order, and fails when a scan that it starts fails. |
| `PlanMeaning.ColumnInRecord` | rmdb/src/execution/executor_nestedloop_join.h:31-45 | Every column, found by name in the joined record, has the value of its own table's row. |
| `JoinPlans.LookupByPlace` | rmdb/src/execution/executor_abstract.h:164-172 | A column's value is that of the first column with its name; it is missing iff no column has the name. |
| `PlanMeaning.PairsExact` | rmdb/src/execution/executor_nestedloop_join.h:93-113 | The nested loop meets exactly the matching pairs, each once, left rows in order and right rows in reverse. |
| `PlanMeaning.JoinYieldsPairs` | rmdb/src/execution/executor_nestedloop_join.h:47-113 | The join's output is the records of those pairs. |
| `NestedLoop.NestedLoopJoin.AdvanceToMatch` | rmdb/src/execution/executor_nestedloop_join.h:93-113 | Stops at the next matching pair or at the end, skipping none; terminates on (left rows remaining, right_pos). |
| `NestedLoop.NestedLoopJoin.BeginTuple` | rmdb/src/execution/executor_nestedloop_join.h:47-66 | What is then still to come is the whole join; an empty right input ends at once. |
| `NestedLoop.NestedLoopJoin.NextTuple` | rmdb/src/execution/executor_nestedloop_join.h:68-74 | Takes exactly one record off what is still to come. |
| `NestedLoop.DrainJoin` | rmdb/src/execution/executor_nestedloop_join.h:47-113 | Reading to the end gives the whole join, or fails iff a condition lacks a column. |
| `NestedLoop.EmptyRight` | rmdb/src/execution/executor_nestedloop_join.h:47-66 | A join whose right input is empty is empty, whatever its left input would do. |
| `NestedLoop.RunPlan` | rmdb/src/portal.h:157-184 | The executor tree of a plan, with the scan that the planner chooses for each table, yields what the plan denotes, the conditions being tested with the source's sign comparison. |
| `Queries.PlanAnswersQuery` | rmdb/src/optimizer/planner.cpp:181-301 | Planning preserves meaning: a plan that runs gives exactly the rows of the cross product that satisfy all conditions and that no index scan has lost, each once, and it runs when no condition is stray and every chosen index can be read. |
| `Queries.Answer` | rmdb/src/optimizer/planner.cpp:181-301 | Planner and executors together: the query fails or gives one record per choice of rows of which every condition is true, in terms of its operator and the two values, and that uses no lost row, showing that choice's values under every column name; it fails only for a stray condition or an index range that cannot be read. |
| `Queries.LostRowsDecide` | rmdb/src/execution/executor_index_scan.h:106-113 | The answer is the whole answer iff no satisfying choice uses a row that its table's index scan loses. |
| `Queries.LeftOutFails` | rmdb/src/execution/executor_abstract.h:84-152 | A choice of rows is left out iff some condition is false of it (no member of the IN list, or the two values not equal, different, less, greater, at most or at least, as the operator says) or it uses a lost row. |
| `TableScan.StrayConditionFails` | rmdb/src/optimizer/planner.cpp:90-90 | A scan given a comparison of another table's columns yields no row, and fails as soon as it tests a row that meets the conditions before it. |
| `TableScan.ScanIsExact` | rmdb/src/execution/executor_index_scan.h:140-158 | A scan that comes to an end yields exactly the rows that meet its conditions and are not lost, whatever they are joined with. |
| `TableScan.ScanSucceeds` | rmdb/src/execution/executor_index_scan.h:140-158 | A scan with all its columns and a readable range does not fail. |
| `TableScan.ScanTable` | rmdb/src/optimizer/planner.cpp:190-202 | Choosing the index and scanning gives the rows so specified, in the order of the scan. |
| `TableScan.UsableByPlace` | rmdb/src/optimizer/planner.cpp:39-48 | The conditions that an index may use are exactly the comparisons of the table's columns with values, in their order. |
| `TableScan.ScanOrder` | rmdb/src/execution/executor_seq_scan.h:48-73 | A scan yields its rows in the order of the table, or in the order of the keys of the index it uses. |
| `AggregateExecutor.AggExecutor.constructor` | rmdb/src/execution/executor_agg.h:127-148 | Every aggregate of the select list and of HAVING has a slot afterwards. |
| `AggregateExecutor.AggExecutor.EnsureAggSpec` | rmdb/src/execution/executor_agg.h:106-125 | Returns the slot of this aggregate; an aggregate that has one gets no second. |
| `AggregateExecutor.AggKeyInjective` | rmdb/src/execution/executor_agg.h:101-104 | Slot names tell different aggregates apart. |
| `AggregateExecutor.AggExecutor.BeginTuple` | rmdb/src/execution/executor_agg.h:331-379 | One row per group that passes HAVING. The group is exactly the input records that agree on the grouping columns; a COUNT item is their number, SUM their sum, AVG times their number is that sum, MIN and MAX the number of a member that no member is below or above, and a grouping column the value all members share. No slot is added. |
| `AggregateExecutor.AggExecutor.CollectGroups` | rmdb/src/execution/executor_agg.h:331-366 | The groups are those of the input in first-seen order, each with states that cover its members; counting an empty input has one empty group. |
| `AggregateExecutor.UpdateTracks` | rmdb/src/execution/executor_agg.h:151-180 | The running state stays the count, sum, minimum and maximum of the members. |
| `AggregateExecutor.AggExecutor.ValueFromAgg` | rmdb/src/execution/executor_agg.h:206-244 | The slot's value is, of the fields of the group's members, what its kind says: their number, sum, mean, least or greatest. |
| `Aggregation.AggregateMeans` | rmdb/src/execution/executor_agg.h:206-244 | The value of each kind of aggregate, stated on the members' fields. |
| `Aggregation.AnswerReports` | rmdb/src/execution/executor_agg.h:368-379 | Every row of the answer reports its group: the items of the row are what their kinds say of the group's records. |
| `Aggregation.AnswerInOrder` | rmdb/src/execution/executor_agg.h:331-379 | The rows are in the order in which their groups first occur in the input. |
| `Aggregation.EmptyInput` | rmdb/src/execution/executor_agg.h:357-366 | An empty input gives one row of zeros for counts without GROUP BY and HAVING, and no row when something else is selected or grouped by. |
| `Aggregation.MembersAreGroup` | rmdb/src/execution/executor_agg.h:70-79 | The members of a group are the input records with its grouping fields, each as often as it is there. |
| `AggregateExecutor.AggExecutor.ValueFromNonAgg` | rmdb/src/execution/executor_agg.h:182-204 | A grouping column has the value of the group; any other column is an error. |
| `AggregateExecutor.AggExecutor.PassHaving` | rmdb/src/execution/executor_agg.h:251-272 | The early-exit evaluation agrees with the OR of ANDs. |
| `Aggregation.OrIsSome` | rmdb/src/execution/executor_agg.h:251-272 | Without type errors a group passes iff all conditions of some conjunction hold. |
| `Aggregation.CompareValues` | rmdb/src/execution/executor_agg.h:81-99 | Fails iff one value is a text and the other a number; otherwise true iff the operator holds of the two, numbers compared by size whatever their types and texts by their first different byte. |
| `Aggregation.FloatScale` | rmdb/src/execution/executor_agg.h:166-171 | One more in the exponent of a float doubles it, its sign negates it, and its fraction counts equal steps from the least number with its exponent. |
| `Aggregation.SameGroup` | rmdb/src/execution/executor_agg.h:70-79 | Two records are in one group iff they agree on every grouping column. |
| `Aggregation.KeysExact` | rmdb/src/execution/executor_agg.h:331-366 | Each group is listed once and has members. |
| `Aggregation.CountsAddUp` | rmdb/src/execution/executor_agg.h:331-366 | The sizes of all groups add up to the size of the input. |
| `Catalog.CatalogBack` | rmdb/src/system/sm_meta.h:188-205 | Reading what was printed gives the same catalog back, in whatever order its tables were printed. |
| `Catalog.PrintDb` | rmdb/src/system/sm_meta.h:188-194 | The printing loops produce the text that is read back. |
| `Catalog.PrintTab` | rmdb/src/system/sm_meta.h:128-138 | Prints a table, its columns and its indexes as the text that is read back. |
| `Catalog.TabBack` | rmdb/src/system/sm_meta.h:140-155 | A table is read back from its text, whatever blanks precede it. |
| `Catalog.IndexBack` | rmdb/src/system/sm_meta.h:49-65 | An index entry is read back from its text. |
| `Catalog.ColBack` | rmdb/src/system/sm_meta.h:31-39 | A column is read back from its text. |
| `Catalog.TableAsText` | rmdb/src/system/sm_meta.h:128-138 | The text of a table of two columns and one index, part by part. |
| `Catalog.ColumnAsText` | rmdb/src/system/sm_meta.h:31-35 | The text of two given columns. |
| `CatalogText.ManyBack` | rmdb/src/system/sm_meta.h:57-65 | A list of items is read back by its loop. |
| `CatalogText.ReadLoop` | rmdb/src/system/sm_meta.h:57-65 | The reading loop gives the items one after the other, or fails with the first that cannot be read. |
| `IndexHeader.IxFileHdr.Serialize` | rmdb/src/index/ix_defs.h:58-89 | Writes exactly tot_len bytes, which encode all fields. |
| `IndexHeader.IxFileHdr.Deserialize` | rmdb/src/index/ix_defs.h:91-126 | Reads every field back; columns are appended to those already present. |
| `IndexHeader.IxFileHdr.UpdateTotLen` | rmdb/src/index/ix_defs.h:52-56 | The total length for any number of columns. |
| `IndexHeader.Reopen` | rmdb/src/index/ix_defs.h:52-126 | Writing a header and reading it into a new object gives the same header. |
| `InsertLog.InsertLogRecord.Serialize` | rmdb/src/recovery/log_manager.h:139-151 | Writes exactly log_tot_len bytes, for any record size and table name length. |
| `InsertLog.InsertLogRecord.Deserialize` | rmdb/src/recovery/log_manager.h:153-163 | Reads every field back. |
| `InsertLog.InsertLogRecord.constructor` | rmdb/src/recovery/log_manager.h:116-136 | The total length counts header, record, Rid and table name with their length fields. |
| `Words.WordRoundTrip` | rmdb/src/index/ix_defs.h:58-126 | A 32-bit integer survives its little-endian encoding. |
| `Words.LowestFirst` | rmdb/src/index/ix_defs.h:58-126 | The bytes of a word, lowest first, give its number modulo 2 to the 32nd, and every four bytes are a word. |

## Left out

- Lock manager, transactions, log buffer and recovery: their bodies are empty or only set a flag.
- SortExecutor, coalesce, redistribute and adjust_root: stubs in the source.
- Disk and file system calls, sockets, threads, latches and output files: the disk is a total map of pages and calls are sequential.
- Lexer, parser, semantic analysis and subquery evaluation: the model starts from resolved conditions and typed values.
- Type errors of inserted and assigned values, float rounding, infinities and NaN: values are places in a total order, sums and averages are exact.
- IxIndexHandle.is_empty and the "root page not found" branches: the root page always exists, so they cannot be reached.
- InvalidColLengthError for index keys over 512 bytes: the order of an index is a parameter above 2.
- Bytes of a page beyond its entries, and page images of nodes: a node is its header fields and its two arrays.
- IndexHandle.IxIndexHandle.MaintainParent: does not model that the frame of a page read after it was given back could be taken for another page; pages keep their content.
- ScanExecutors.IndexScanRows: does not model the scan from leaf_begin to leaf_end without a usable condition, because the planner chooses an index only for a usable condition; it reads the candidates and then filters them, where the source interleaves the two.
- Conditions.EvalConds: the conditions that no index can use are one predicate, tested last; their order and missing columns are in `JoinPlans.EvalAll`.
- TableStore.Table.FillIndex: enters the records from a finished record scan, where the source advances the scan between insertions.
- Closing a file and reusing its descriptor while its pages are cached: files stay open.
- BufferManager.BufferPoolManager.FetchPage: does not model a page number that the file has not allocated, because reading it from the disk fails.
- BufferManager.BufferPoolManager.UnpinPage: does not model a client that gives its last pin back without reporting its change, because transparency is promised to clients that report.
- Queries.Answer: inputs of a join are the lists of records they yield, where the source pulls records one at a time; ORDER BY, projection and output are not modelled. An index is described by its key order and its readable ranges, as `ScanExecutors.FindRows` proves them of the index itself.
- AggregateExecutor.AggExecutor.constructor: does not model MIN, MAX, SUM and AVG of text columns, because semantic analysis rejects them.
- AggregateExecutor.AggExecutor.BeginTuple: output rows are values; their byte layout and 32-bit overflow of sums are not modelled.
- AggregateExecutor.UpdateTracks: does not model text columns for the aggregates of numbers, as above.
- AggregateExecutor.AggExecutor.ValueFromAgg: does not model text columns for the aggregates of numbers, as above.
- CatalogText.ReadInt: a number ends at a blank, where stream input would stop inside a word that only starts with digits.
- Other log record types and the text printers of log records: they carry no further state.
