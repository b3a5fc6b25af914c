# nkvdb: a verified model

nkvdb is an append-only time-series store. Measurements go through caches to a worker thread, which
sorts each cache and writes it to pages; every page has a B+ tree index over time in a flat node
arena, and readers select pages, look positions up in the index and read them in chunks. This project
models that core in Dafny and proves what its parts promise each other. `dafny verify dfyconfig.toml`
checks all of it.

## The parts

* **The tree** (`TreeShape`, `TreeSteps`, `TreeContents`, `TreeChain`, `TreeSize`). The tree as a value: the
  used slots, each with the key interval it is responsible for and its height, and the order of the leaves.
  `Inv` is the whole B+ tree invariant; the insertion into a leaf and one level of a split are functions on
  trees that keep it. A tree in the middle of a cascade has one overflowing slot, `full`.
* **The nodes** (`NodeArrays`, `NodeArena`, `BTree`). Node objects with fixed arrays, updated in place, and the
  tree operations on them. `Stores(u)` ties the heap to a tree value `u`, slot by slot, and every
  method says which tree it leaves behind. The tree values are ghost: the program sees only the nodes.
* **The index** (`IndexWalk`, `Index`, `IndexRuns`). Buffered records, flush into a tree rebuilt from the saved header, and the
  leaf walk of a lookup.
* **The page** (`Measurements`, `PageLayout`, `PageAppend`, `WriteWindow`, `Bloom`). A byte array with records growing up
  and value bytes growing down, and what an append does to bytes, header, write window and index.
* **The write path** (`Caches`, `CacheWriter`, `WritePipeline`, `PipelineRuns`, `PipelineLedger`,
  `AsyncWorker`). The sequential code as classes and methods;
  the concurrent protocol as a state machine over the steps of the mutex holder and of the worker. Both
  use the same functions (`Kept`, `Taken`, `PagesAfter`), so a step of the protocol is what the method computes.
* **Filtering** (`Picking`). What it means to keep exactly the marked elements of a sequence, each once and in order.
* **Reading** (`PageReaders`, `IndexedQuery`, `PageQuery`, `PageRuns`, `PageSelect`, `InterpolationSearch`).

## Where the code does less than one would expect

* The index walk does not scan the stop leaf once a record has matched; `WalkComplete` gives the exact
  condition under which a lookup is complete, `WalkMissesStopLeaf` an example in which it is not,
  `DeliversAllIff` what that means for a query, and `DeliversBeforeStop` what is delivered then.
* The full test of a page protects the two regions only for some page sizes (`RegionsStayApart`, `RegionsOverlap`);
  those of `calc_size` are among them.
* An empty queue does not mean that everything is written; the reader needs the worker's lock as well
  (`EmptyQueueIff`, `EmptyQueueIsNotEnough`).
* `stop` serves an item added while it still waits for the queue to be empty, and gives no promise for one added
  after that (`CalledIff`, `LateItemIsLost`); it returns at once, without waiting for the queue, when the stop
  flag is already set (`StopWhenStopped`, `SecondStopLeavesIt`).
* `find` on a key that is not stored reports the value of the next larger key, unless that is in a later leaf
  (`MissIff`, `AbsentKeyAnswered`).
* The loop over the write window's file applies one more, empty, measurement when it meets the end of the
  file; `LoadedIsSaved` shows that this does no harm.
* A page that ends exactly at `from` and starts earlier is not opened, unless a page after a gap follows, although
  its measurements at `from` are asked for (`SelectedIff`, `PageAtFromMissed`).
* A page that starts and ends exactly at `from` can be listed twice (`SelectedTwice`); `OnceIff` says exactly when.
* `backwardRead` keeps measurements whose id is *not* asked for (`ReportedIff`, `WrongIdReported`).
* The write loop does not end on pages without room for one measurement (`LoopEndsIff`).
* A query past a page's end delivers the places of the write window as they are, those of ids that never occurred
  included (`WholeWindow`).

## Modelling decisions

* Integers are unbounded; 64-bit fields are the type `U64`, and the one place where wrap-around matters, the
  gap of the full test, is written out. Times used as tree keys are integers.
* `std::sort` and `std::lower_bound` are written out and proved to deliver what they are used for.
* The age test `checkPastTime` depends on the clock: its verdict on each measurement is a parameter.
* The protocol's threads are the holder of the write mutex (a producer or a reader, one at a time) and the
  worker. Everything a thread does on data no other thread touches is one step; every access to the
  queue, the `sync` flags (one by one in the scan of the pool), the pages and the locks is a step of its own.
* A closed page is a value, `PageFile`: its bytes, header fields, window and index records. The index of a page
  being written is seen as the list of records emitted; the tree they go to is `PageIndex.Index`.
* What `backwardRead` finds through the index for an interval that starts inside the page is a parameter of
  the reader (`earlier`); for an interval that starts at the page's first time it is computed.
* `find`'s return of 0 for a miss is `None`.

## Model

| member | source | states |
|---|---|---|
| NodeArrays.InsertToArray | include/btree_common.h:5-24 | The swap loop leaves in the first `sz` places the old contents with the value put in at the position, and touches nothing behind them. |
| NodeArrays.LowerBound | include/btree.hpp:33-34 | What `std::lower_bound` delivers: all keys before the position are smaller, none from it on is. |
| NodeArrays.Node.InsertValue | include/btree.hpp:18-44 | The entry goes before the first key that is not smaller; everything else the node holds is unchanged, in each of the four branches. |
| NodeArrays.Node.InsertChild | include/btree.hpp:46-67 | The child goes directly behind the place its key has among the values, in the branch for the last key and in the search branch alike. |
| NodeArrays.Node.LookUp | include/btree.hpp:132-146 | A leaf answers with the value of its first key not below the sought one, and with nothing exactly when all its keys are below. |
| NodeArrays.Node.Route | include/btree.hpp:148-179 | The three routing cases choose the one child whose separators enclose the key. |
| NodeArena.DivideNodes | include/btree.hpp:206-249 | The copy loops and link updates of a split: the two nodes hold the lower and upper half, the moved children name their new parent, every other node of the arena is unchanged. |
| TreeSteps.InsertInLeafInv | include/btree.hpp:195-199 | Putting a new key into its leaf keeps the whole tree invariant, apart from that leaf now being possibly full. |
| TreeSteps.SplitInv | include/btree.hpp:205-276 | Splitting an overflowing node restores the whole invariant (order, separators, children = values + 1, parent links inverse to child links, equal leaf depth, half full, no array past 2N, leaf chain), except that the parent may overflow in turn. |
| TreeContents.InsertInLeafContents | include/btree.hpp:195-199 | The leaf insertion inserts the entry into the ordered contents of the whole tree. |
| TreeContents.SplitContents | include/btree.hpp:205-276 | A split leaves the entries along the leaf chain as they are. |
| TreeContents.ContentsAscending | include/btree.hpp:205-276 | The entries met along the leaf chain have strictly increasing keys. |
| TreeContents.LeafHasFloor | include/btree.hpp:130-182 | The leaf responsible for a key holds the greatest stored key not above it whenever one exists: an entry is the floor in the whole tree if and only if it is the floor in that leaf. |
| TreeContents.LeafDecides | include/btree.hpp:130-182 | A key is stored in the tree if and only if it is stored in the leaf responsible for it. |
| TreeChain.ChainIsLeaves | include/btree.hpp:227-231 | However long one follows `next` from slot 1, one meets every leaf exactly once and nothing else: the chain has no cycle. |
| TreeChain.ChainIsInOrder | include/btree.hpp:205-276 | The chain is the in-order traversal of the tree, also in the middle of a split cascade. |
| TreeSize.SplitCounted | include/btree.hpp:205-276 | A split keeps the count of links (one per node but the root) and of leaves. |
| TreeSize.ArenaBound | include/btree.hpp:98-107 | Every slot made is a leaf or an inner node; with L >= 2 leaves and M entries L*N <= M; with I >= 1 inner nodes (I-1)*(N-1) <= L-2; so the slots used are bounded by a function of M and N. |
| TreeSize.SlotsForMonotone | include/btree.hpp:98-107 | More entries never need fewer slots, so room for the final number of entries is room for every step before. |
| BTreeArena.AnswerFinds | include/btree.hpp:109-120 | For a stored key the lookup answers with the value stored for it; any answer is the value of the least stored key not below the sought one; there is no answer exactly when all keys of the responsible leaf are below. |
| BTreeArena.BTree.InerFind | include/btree.hpp:130-182 | The recursive search ends at a leaf responsible for the key and answers what that leaf answers. |
| BTreeArena.BTree.Find | include/btree.hpp:109-120 | The same promise for the nodes in the heap, so the result is determined for every key. |
| BTreeArena.BTree.FindNode | include/btree.hpp:122-128 | The leaf returned is responsible for the key, and holds the greatest stored key not above it when there is one. |
| BTreeArena.BTree.MakeNode | include/btree.hpp:98-107 | The next slot gets its number; nothing else in the arena changes. |
| BTreeArena.BTree.SplitNode | include/btree.hpp:205-276 | The cascade ends, the nodes again store a tree that meets the invariant, and the contents are those before. |
| BTreeArena.BTree.Insert | include/btree.hpp:189-203 | Inserting a new key keeps the invariant and adds exactly that entry to the ordered contents. |
| Entries.InsertAllSortedMeaning | libnkvdb/index.cpp:38-40 | Inserting many new keys one by one gives an ordered sequence with exactly those entries more. |
| Entries.InsertAllSortedConcat | libnkvdb/index.cpp:31-46 | How the entries are split into portions makes no difference. |
| IndexWalk.CheckIntervalIsOverlap | libnkvdb/index.cpp:178-183 | The four-part test, with its repeated last part, is the overlap of the two time spans. |
| IndexWalk.JoinAllPositions | libnkvdb/index.cpp:148-158 | Coalescing neither adds nor loses nor reorders a position, and leaves no two neighbouring ranges apart. |
| IndexWalk.NothingBeforeStart | libnkvdb/index.cpp:129 | For records with separate time spans no record before the start leaf can meet the interval. |
| IndexWalk.WalkComplete | libnkvdb/index.cpp:110-176 | The walk finds exactly the positions a scan of all records finds if and only if both bounds route to one leaf or nothing before the stop leaf meets the interval. |
| IndexWalk.WalkScans | libnkvdb/index.cpp:129-169 | Otherwise the walk finds, of the records that meet the interval, exactly those with keys below the stop leaf's first key: every leaf before the stop leaf is scanned. |
| IndexWalk.WalkMissesStopLeaf | libnkvdb/index.cpp:132 | A tree and an interval for which the walk does miss records, because the loop test skips the stop leaf. |
| PageIndex.ScanLeaf | libnkvdb/index.cpp:133-161 | The inner loop joins the leaf's records that meet the interval to the ranges so far, `prev_value` and `first` included. |
| PageIndex.WalkTree | libnkvdb/index.cpp:129-169 | The whole walk over the nodes ends and returns the coalesced records of the leaves from the start leaf to where it stops. |
| PageIndex.LookUpRange | libnkvdb/index.cpp:110-176 | The ranges returned cover, in order and without neighbours, the positions of the records met; they are those of a linear scan exactly under the condition of WalkComplete. |
| PageIndex.Rebuild | libnkvdb/index.cpp:31-46 | A tree object rebuilt from the saved root and allocation position takes the records; what is saved afterwards again describes a valid tree with exactly these records more. |
| IndexRuns.FlushAllThenFind | libnkvdb/index.cpp:31-46 | On a new index, after any distinct-key run flushed in any portions, each into a tree rebuilt from the saved root and position, a lookup in a rebuilt tree reports for every first time exactly the record written for it. |
| IndexRuns.WriteRun | libnkvdb/index.cpp:102-108 | Records written one by one through the buffer, flushed whenever it is full: the index holds exactly them, in key order. |
| IndexRuns.MissIff | include/btree.hpp:130-146 | A key that is not stored is reported as missing if and only if the leaf responsible for it holds no larger key; otherwise the next larger key's value is reported. |
| IndexRuns.AbsentKeyAnswered | include/btree.hpp:138-142 | A leaf with the keys 1 and 5, asked for 3: the only answer is the value of 5. |
| PageIndex.Index.Flush | libnkvdb/index.cpp:31-46 | All buffered records enter the tree, the buffer is empty, and the set of all records is unchanged. |
| PageIndex.Index.WriteIndexRec | libnkvdb/index.cpp:102-108 | Whether or not the buffer is flushed for it, the record joins all others in key order and none is lost. |
| PageIndex.Index.FindInIndex | libnkvdb/index.cpp:110-176 | The lookup flushes first, loses no record, and returns what LookUpRange promises. |
| PageIndex.InitCache | include/btree.hpp:77-81 | A zeroed arena becomes the empty tree: slot 1 an empty leaf and the root. |
| Measurements.RoundTrip | include/page.h:62-71 | The 48 stored bytes of a record decode to the record that was encoded. |
| Measurements.FieldPlaces | include/page.h:62-71 | Each field of a stored record is in its eight bytes, in the order of the source's struct, least significant byte first. |
| PageLayout.ReachedIffCapacity | libnkvdb/page.cpp:604-611 | On a page of good size a run of appends gets exactly as far as the capacity: the unsigned full test stops it neither earlier nor later. |
| PageLayout.RegionsStayApart | libnkvdb/page.cpp:604-611 | Records (48 bytes each) and value bytes stay apart in every run of eight-byte appends if and only if the remainder of the data area is too small for the full test to admit one more measurement. |
| PageLayout.NominalGapNeverNegative | libnkvdb/page.cpp:604-611 | The number the full test measures, which allows 56 bytes for each record, never gets negative if and only if the same holds. |
| PageLayout.RegionsOverlap | libnkvdb/page.cpp:604-611 | A page size at which a run reaches two measurements and the second record reaches into the value bytes. |
| PageLayout.FullTestWrapsAround | libnkvdb/page.cpp:604-611 | How it comes about: after the first measurement on that page the unsigned gap has wrapped around and the page does not count as full. |
| PageLayout.CalcSizeFits | include/page.h:96-99 | A page of `calc_size(n)` takes exactly n eight-byte measurements. |
| PageLayout.PutStores | libnkvdb/page.cpp:290-301 | After the two copies of an append the measurement is in the page, fields and value bytes. |
| PageLayout.PutKeeps | libnkvdb/page.cpp:290-301 | They leave every earlier measurement as it is. |
| PageAppend.Page.IsFull | libnkvdb/page.cpp:604-611 | True exactly when the capacity is reached. |
| PageAppend.Page.Append | libnkvdb/page.cpp:273-315 | A page with room takes the measurement, updates window and index record and keeps its invariant (bytes, filters, tiling, times); a full one changes nothing. |
| PageAppend.Page.AppendBatch | libnkvdb/page.cpp:317-397 | As many measurements as fit are stored, in order; the window is updated by exactly these; the records emitted are those of BatchRecords; the page invariant holds, and for a batch in time order the time ranges too. |
| PageAppend.Page.Read | libnkvdb/page.cpp:401-420 | Whatever was appended later, `read(i)` returns the id, time, source, flag, size and the eight value bytes of the i-th appended measurement, the other value bytes being zero, and fails exactly past the end. |
| PageAppend.TilesMeansOnce | libnkvdb/page.cpp:303-312 | Tiling in terms of positions: every stored position lies in exactly one index record. |
| PageAppend.BatchRecordsSpan | libnkvdb/page.cpp:359-391 | The records of a batch hold 100 positions each but for the last, which holds 1 to 100; for a batch in time order their times bound every measurement they cover. |
| PageRuns.BatchRecordsExact | libnkvdb/page.cpp:359-391 | The times of every record of a batch are those of the first and the last measurement it covers, in whatever order the batch is. |
| PageAppend.SortedBatchBounds | libnkvdb/page.cpp:392-395 | For a batch in time order the header's range, updated with the first and the last time only, is exactly the range of all times stored. |
| WriteWindow.WindowOfHistory | libnkvdb/page.cpp:261-271 | With positive times the window holds for every id the first-appended measurement of greatest time over the whole history, and nothing for other ids. |
| WriteWindow.LoadedIsSaved | libnkvdb/page.cpp:100-118 | Replaying the saved places, with the extra empty one the read at end of file delivers, rebuilds the window exactly. |
| WriteWindow.Load | libnkvdb/page.cpp:100-118 | The loading loop computes that replay; a missing file gives the empty window. |
| WriteWindow.SaveAndLoad | libnkvdb/page.cpp:80-118 | Flush followed by load reproduces the window of any history, whatever its times. |
| Bloom.AdmitsTaken | include/bloom_filter.h:10-18 | The OR-filters admit every measurement a page ever took. |
| Bloom.FedAfter | libnkvdb/page.cpp:351-353 | A measurement more gives the three filters the bits of its id, flag and source and no others: a filter has a bit if and only if one of the ids (flags, sources) taken has it. |
| Bloom.AdmitsIff | include/bloom_filter.h:15-18 | A filter admits a number if and only if every bit of it occurs in one of the numbers it was fed; it is zero exactly when these have no bits. |
| Caches.Cache.Append | libnkvdb/cache.cpp:37-58 | A refused measurement counts as written and ignored, a full cache writes nothing, otherwise the measurement is appended. |
| Caches.Cache.AppendBatch | libnkvdb/cache.cpp:60-91 | As many as the free places allow are consumed; those the age test lets pass are appended in order; the counts add up. |
| Caches.KeptIsFiltered | libnkvdb/cache.cpp:76-88 | Of a batch with mixed verdicts exactly the measurements the age test lets pass are stored, each once, in their order. |
| Caches.GetCache | libnkvdb/cache.cpp:142-151 | The last cache that is not being synchronised, and none exactly when all are. |
| Caches.SortByTime | libnkvdb/storage.cpp:31-32 | The sort: time order, the same measurements, nothing behind them touched. |
| CacheWriter.RoundConserves | libnkvdb/storage.cpp:37-44 | A round moves measurements from the work list to the pages and loses none, in order. |
| CacheWriter.LoopEndsIff | libnkvdb/storage.cpp:37-44 | The rounds of the write loop leave nothing to write after some number of them if and only if a page has room for one measurement or there was nothing to write. |
| CacheWriter.RoundFills | libnkvdb/storage.cpp:37-44 | A round starts a new page only when the one before is full and something is left for it: every page but the last stays full, and the last one is not empty when all is written. |
| CacheWriter.PackedUnique | libnkvdb/storage.cpp:37-44 | So what was written determines the pages: there is one way to cut it into full pages and a rest. |
| CacheWriter.PageManager.CreateNewPage | libnkvdb/page_manager.cpp:41-58 | The full page is closed with all it holds and with the window of the whole history up to its end; an empty one follows, and the write window is handed over. |
| CacheWriter.PageManager.WriteRound | libnkvdb/storage.cpp:38-43 | One round: the current page takes all that fits, a new page follows if not all was taken; every page but the current one is full, and every page's window is that of all that was written up to its end. |
| CacheWriter.PageManager.WriteAll | libnkvdb/storage.cpp:34-44 | The loop ends, across any number of rollovers, and has extended the concatenated page contents by exactly the output, and the window by the same measurements; every page but the last is full, and the last is not empty. |
| CacheWriter.Call | libnkvdb/storage.cpp:26-49 | Writing a cache extends the pages by exactly its measurements in time order, keeps the window that of the whole history, and leaves the cache empty and free. |
| CacheWriter.WriteHistory | libnkvdb/storage.cpp:26-49 | A new storage that writes any number of caches: the pages hold them one after the other, each in time order, every page but the last full and the last not empty unless it is the only one; with positive times the window of each page, closed or current, is that of the whole history up to its end. |
| WritePipeline.NextKeeps | libnkvdb/storage.cpp:143-200 | Every step of producer, reader and worker keeps the invariant: conservation, the queue being exactly the marked caches not in flight, all other caches empty, the lock, the order of writing, full pages before the last. |
| PipelineRuns.EveryRun | libnkvdb/storage.cpp:26-49 | Hence it holds in every state any interleaving reaches: the accepted measurements are those of the current cache, the queued caches, the rest in flight and the pages, and batches are written in queue order, each in time order. |
| PipelineLedger.EveryRunBalances | libnkvdb/storage.cpp:143-200 | In every state any interleaving reaches: the measurements the calls brought are, in the order brought, those the age test has judged and behind them those still in hand; the ones it let pass are in the queued caches, in queue order, and in the current one. |
| PipelineLedger.NothingLost | libnkvdb/storage.cpp:143-177 | What the calls brought is what was accepted, what the caller still has in hand, and what was refused; nothing else happens to a measurement. |
| PipelineLedger.TakenInOrder | libnkvdb/storage.cpp:143-177 | When the age test lets everything pass, the measurements brought, computed from the calls alone, are those of the queued caches, the current cache and in hand, in that order. |
| PipelineLedger.QueuedAreFull | libnkvdb/storage.cpp:148-173 | When nothing is refused and nobody reads, every cache handed to the worker is full. |
| WritePipeline.ScanTakes | libnkvdb/cache.cpp:142-151 | The cache the scan hands out is empty and nobody else has it, although the worker runs meanwhile. |
| PipelineRuns.ScanAlone | libnkvdb/storage.cpp:191-197 | A scan of the pool that nobody disturbs takes the last cache that is not marked, and starts over when all are. |
| PipelineRuns.ReaderSeesAll | libnkvdb/storage.cpp:203-212 | A reader that ran writeCache, saw the queue empty and got the worker's lock finds every accepted measurement in the pages. |
| PipelineLedger.ReaderFindsBrought | libnkvdb/storage.cpp:203-212 | Behind its barrier a reader finds in the pages exactly what the calls before it brought, less what was refused; every page but the last is full. |
| PipelineRuns.ReaderUndisturbed | libnkvdb/storage.cpp:210-294 | While it holds the lock no step of anyone changes pages or caches. |
| PipelineRuns.EmptyQueueIff | libnkvdb/storage.cpp:439-447 | A reader that saw the queue empty, in any reachable state, finds every accepted measurement in the pages if and only if the worker has nothing left to write. |
| PipelineRuns.EmptyQueueIsNotEnough | libnkvdb/storage.cpp:439-447 | A run in which the queue is seen empty while an accepted measurement is in no page: the lock is needed. |
| PipelineRuns.ReaderGetsThrough | libnkvdb/storage.cpp:203-212 | A run in which the reader does reach its pages and finds the measurement. |
| AsyncWorker.EveryRun | include/asyncworker.h:66-88 | In every reachable state the items added are those called, the one in hand and those queued, in order; the flags and the lock describe the thread. |
| AsyncWorker.StopDrains | include/asyncworker.h:45-55 | When a stop that found the worker running returns, every item added before it saw the queue empty has been called once and in order; with no add after that this is every item. |
| AsyncWorker.CalledIff | include/asyncworker.h:45-55 | In every state any interleaving reaches with a stop under way: an item added now is called before the stop returns, however the run goes on, if and only if the stop still waits for the queue to be empty. |
| AsyncWorker.StopWhenStopped | include/asyncworker.h:45-55 | A stop that finds the flag set returns at once; every item added before has been called if and only if the queue was empty. |
| AsyncWorker.PausedIsQuiet | include/asyncworker.h:59-61 | While the worker is paused no call is under way and no item is taken. |
| AsyncWorker.LateItemIsLost | include/asyncworker.h:45-55 | A run in which an item added after the busy test is never called. |
| AsyncWorker.SecondStopLeavesIt | include/asyncworker.h:45-55 | A second stop does not call that item either. |
| PageReaders.MatchingConcat | libnkvdb/readers.cpp:84-86 | Filtering in portions is filtering at once. |
| IndexedQuery.HitsRead | libnkvdb/readers.cpp:66-88 | Reading positions delivers the fields and value bytes of exactly those measurements there that are in the interval and have a flag, source and id asked for, each once, in the order of the positions. |
| IndexedQuery.MatchingReads | libnkvdb/readers.cpp:66-88 | Over the whole page: the k-th measurement delivered has the fields and value bytes of the k-th appended one that passes. |
| PageReaders.WindowValuesAre | libnkvdb/readers.cpp:41-50 | Past the page's end exactly the places of the window with a flag, source and id asked for are delivered, each once and in order. |
| PageReaders.WholeWindow | libnkvdb/readers.cpp:41-50 | Without filters this is the whole window. |
| PageReaders.PrevOutsideIs | libnkvdb/page.cpp:669-687 | Of the previous page's window exactly the values that have a time, an id the page has no earlier value for, and pass, are delivered, each once and in order. |
| PageReaders.PointOfIs | libnkvdb/readers.cpp:52-57 | They precede the measurements, followed by the page's own earlier values, if the interval does not start before the page's first time; else nothing does. |
| PageReaders.BackwardRead | libnkvdb/page.cpp:537-602 | The backward scan of the whole page computes the fold of its step, with the filters as the code has them. |
| PageReaders.NothingBefore | libnkvdb/page.cpp:543-548 | At the page's first time the backward scan finds nothing. |
| PageReaders.BackFinds | libnkvdb/page.cpp:553-596 | What the scan reports for an id, with any filter: nothing exactly when no earlier measurement of it passes the scan's filter; otherwise the latest one at or below the position where it first meets such a measurement, those the filter refuses included. |
| PageReaders.ReportedIff | libnkvdb/page.cpp:577-582 | An id that is asked for and has a matching earlier measurement is reported if and only if the query lists no ids. |
| PageReaders.WrongIdReported | libnkvdb/page.cpp:577-582 | A page and a query for id 7 for which the scan reports id 8 and not 7. |
| PageReaders.ListValues | libnkvdb/page.cpp:598-600 | The values found are listed all, once each, in the order of their ids. |
| PageReaders.PageReaderInterval.ReadNext | libnkvdb/readers.cpp:36-90 | A call delivers a beginning of what is to come and advances by at most `ReadSize` positions of one range, exactly to the chunk's end. |
| PageReaders.PageReaderInterval.ReadAll | libnkvdb/meas.cpp:32-36 | The loop ends for every chunk size of at least one and delivers all there was to come, which does not depend on the chunk size. |
| PageReaders.ReadInterval | libnkvdb/page.cpp:474-520 | No reader for an empty page; a query over the whole time range delivers exactly the matching measurements in write order (after the previous page's window values); one past the page's end the places of the window that are asked for, each once and in order; any other the ranges the index found. |
| IndexedQuery.EachReadOnce | libnkvdb/page.cpp:503-519 | From the tree to the reader: for an index of the page's records with separate time spans, and bounds that route to one leaf, reading the ranges a lookup returns reads every measurement that passes exactly once and no position twice. |
| IndexedQuery.FoundIsMatching | libnkvdb/page.cpp:503-519 | Under the same conditions the reader's output from these ranges is, as a multiset, exactly the matching measurements of the page. |
| PageQuery.QueryPage | libnkvdb/page.cpp:474-520 | Lookup, reader and reading together, for a page and the index that holds its records: past the page's end the places of the window that are asked for, without filters all; over the whole range fields and value bytes of exactly the matching measurements in write order; inside the page, always, those of what passes at the positions the walk reads, in the order of the index; when the bounds route to one leaf these are the positions of all records that meet the interval, and what passes there are exactly the matching measurements, each as often as it was appended. |
| PageRuns.SelectedInWriteOrder | libnkvdb/page.cpp:503-519 | For records in the order they were written, what passes at the positions of those that meet the interval is the sequence of matching measurements, in write order. |
| PageRuns.DeliversAllIff | libnkvdb/page.cpp:503-519 | An unfiltered query inside a page whose records end apart in time delivers exactly the matching measurements, in write order, if and only if the bounds route to one leaf or nothing before the stop leaf meets the interval; otherwise the first measurement of the stop leaf is lost. |
| PageRuns.DeliversBeforeStop | libnkvdb/page.cpp:503-519 | When it does not, it delivers exactly what matches before the position of the stop leaf's first record. |
| PageRuns.FillThenQuery | libnkvdb/page.cpp:317-520 | A whole run: a new page takes batches in time order whose records end apart, its records go through the buffer to a new index, whose tree then holds exactly these records, and a query reads from both. Past the end it delivers what is asked for of the window, which with positive times has every id's first-appended measurement of greatest time. Inside the page it delivers what passes at the positions the walk reads: all that matches exactly under the condition above, else all that matches before the stop leaf; with fewer than 2N records all always. |
| PageSelect.SelectPages | libnkvdb/storage.cpp:218-283 | The loop with its five time tests selects a page if its times meet the interval, whichever way round that is given (one that ends where a longer interval starts only if it starts there too), and a page with its predecessor after a gap at `from`; the previous page is set to the one before the last page in which the interval starts and goes on, else to the one before the first page listed if the interval lies in that, else not at all. |
| PageSelect.FiltersKeep | libnkvdb/storage.cpp:222-241 | A page that holds a measurement the filters let pass is not ruled out by its header. |
| PageSelect.MayHoldIff | libnkvdb/storage.cpp:222-241 | A page's header admits a query if and only if, for flag, source and some id asked for, all of its bits occur among those stored in the page, or the stored ones have no bits at all; so a page is ruled out when every id asked for has a bit that no stored id has. |
| PageSelect.OwnLookIff | libnkvdb/storage.cpp:218-283 | A page is listed by its own look if and only if the bits stored in it agree with the query in this way, and its times meet the interval or it starts after a gap at `from`. |
| PageSelect.ListedIff | libnkvdb/storage.cpp:218-283 | A page is listed at all if and only if its own look lists it or the page behind it agrees and starts after a gap at `from`. |
| PageSelect.PickedAscending | libnkvdb/storage.cpp:218-283 | The pages are listed in the order of their times. |
| PageSelect.SelectedIff | libnkvdb/storage.cpp:218-283 | A page that holds a measurement the reader's own inclusive test asks for is selected if and only if it does not end exactly at the `from` of a longer interval, having started earlier, without an admitted page after a gap behind it. |
| PageSelect.PageAtFromMissed | libnkvdb/storage.cpp:254-261 | A page with the times 3 to 5 is not selected for the interval from 5 to 9, which asks for the time 5. |
| PageSelect.NoPageMissed | libnkvdb/storage.cpp:218-283 | In particular every page that holds a measurement passing the filters with from < time <= to is selected. |
| PageSelect.OnceIff | libnkvdb/storage.cpp:244-282 | No page is selected twice if and only if none that starts and ends exactly at `from` (for an interval that is a point or given the wrong way round: that ends in it) is followed by one that starts later, both admitted by the filters. |
| PageSelect.PickedOnce | libnkvdb/storage.cpp:263-270 | In particular, when no page ends exactly at `from`, no page is selected twice. |
| PageSelect.SelectedTwice | libnkvdb/storage.cpp:263-282 | Two pages, one ending exactly at `from`, for which a page is selected twice. |
| InterpolationSearch.FindBegin | include/search.h:4-33 | On a non-empty sorted sequence the search ends within bounds without dividing by zero, returns a position of the value whenever it occurs, and otherwise one with only smaller elements before it. |

## Left out

- File mapping, file creation, directory listing and page naming: input and output; a page is a byte array with a header.
- Trees with equal keys, and N = 1: outside this model.
- BTreeArena.BTree.MakeNode: requires a free slot; the guard of the code admits the slot after the last one, and with the room ArenaBound asks for it is never reached.
- BTreeArena.BTree.InerFind: the final `return false` of the search is not modelled, since one of the three routing cases always applies.
- PageIndex.Index.FindInIndex: unfiltered lookups only; the id, flag and source fields of the records are not filled in a form that supports a claim.
- PageReaders.BackwardRead: the scan over the whole page only; for a later time point its result, found through the index, is a parameter of the reader.
- AsyncWorker.StopDrains: safety only; that the condition variable wakes the worker and the busy loops end is not claimed.
- InterpolationSearch.FindBegin: integer keys without overflow in the product.
- Dynamic resizing of caches and pool (`setSize`, `setPoolSize`): it replaces buffers under the protocol.
- `curValues`, which calls `writeCache` without the write mutex, and `Close` concurrent with other calls.
- `readInTimePoint` over a storage, the combination of several pages' readers, and the `ReadersCount` of a page.
- PageAppend.Page.Append: eight-byte values on pages of a good size, as `calc_size` gives them; for other sizes the full test does not keep the regions apart (RegionsStayApart).
- PageAppend.Page.AppendBatch: eight-byte values on pages of a good size, as for Append.
- CacheWriter.Call: pages with room for at least one measurement; on smaller ones the write loop of the code does not end (LoopEndsIff).
- PageSelect.SelectPages: headers whose least time is not above their greatest, as every append leaves them.
- PageReaders.ReadInterval: what the index finds is a parameter here; QueryPage joins it with the lookup.
- PageQuery.QueryPage: a query that needs the index has no ids, flag and source, as for FindInIndex.
- BTreeArena.BTree.Insert: keys that are not stored yet; trees with equal keys are outside this model.
- Logging, exceptions' texts, `to_stream`, benchmarks and examples: they carry no property.
