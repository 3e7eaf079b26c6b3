# FineDB: page store, index pages and codec

FineDB is a key-value server. It keeps its values, compressed, in LMDB: a single-writer,
multi-version page store with copy-on-write B-trees. This project models the parts of the server
and of the two libraries under it that carry its guarantees, and proves them.

* **Page store** (`PageStore`, `PageStoreInvariant`, `PageStoreRuns`,
  `PageStoreAfterRead`, `PageStoreCommits`, `PageLists`). A transition
  system whose steps are: a reader registers or ends, the writer begins, takes over a free-page
  record, allocates, frees, gives back and stores pages, syncs, writes a meta page, publishes,
  aborts, and the process crashes at any point. The theorems are about every interleaving of
  these steps.
* **Page allocator** (`PageRuns`, `PageAlloc`, `PageAllocator`, `AllocatorRefines`). The allocator's
  loops over ID lists, a class with the state that a transaction keeps for it, and the proof that a
  call is a run of the page store.
* **ID lists and dirty lists** (`IdlSort`, `DirtyList`, `NestedCommit`, `DirtyRoom`, `DirtyContents`).
  The sort with its explicit stack, the sorted index of dirty pages, the in-place merge when a nested
  transaction commits, and what the lists and the count of free slots are over the life of a
  transaction with children to any depth.
* **Index pages** (`SlottedPage`, `SlottedPageOps`, `LeafSplit`). Pages as arrays of bytes, nodes as
  what the bytes say, and the split of a full leaf.
* **B-trees** (`BTree`, `BTreeSearch`, `BTreeCursor`, `TreeDrop`). Cursors as stacks of pages and
  indices, search, and the walk that frees a whole tree.
* **Snappy** (`SnappyFormat`, `SnappyTagTable`, `SnappyVarint`, `SnappyWriter`, `SnappyDecoder`,
  `SnappyConformance`, `SnappyEmit`, `SnappyMatch`, `SnappyGreedy`, `SnappyCompressor`). `SnappyFormat` says what a
  compressed string means, after sections 1, 2.1 and 2.2 of the Snappy compressed format description.
  The decoder and the compressor are proved against it; `SnappyConformance` says exactly where the
  decoder departs from it. `SnappyGreedy` says into which literals and copies a block is cut, in
  terms of the positions passed; the compressor with its hash table is proved to emit just these.
* **Server** (`FineDb`). PUT, the writer thread and GET on top of the codec.
* `Basics`, `DivMod` and `PowersOfTwo` hold types and arithmetic that several modules use.

`dafny verify dfyconfig.toml` checks everything.

## Where the code does less than one would expect

* `compress` writes only the length header for an input of 2^31 bytes or more
  (lib/snappy-c/snappy.c:1234-1310). `SnappyCompressor.Compress` states the round trip for inputs
  below that limit and the bare header above it; `SnappyCompressor.BareHeaderFails` shows that the
  header alone does not decode.
* The two readers of the length header disagree on a fifth byte from 16 to 127: one rejects it, the
  other accepts it and drops the high bits. `SnappyVarint.ReadersAgreeIff` gives the exact condition,
  `SnappyVarint.ReadersDisagree` an example. GET sizes its buffer with the first reader, ignores its
  failure and decodes with the second (src/server/command_get.c:46-48). `FineDb.DefinedIff` says when
  the outcome does not depend on the length that was never set: if and only if the readers agree or
  decoding fails before a byte is stored. `FineDb.Disagreements` has a string of either kind.
* The decoder computes the length of a literal in 32 bits, so that a literal of 2^32 bytes counts as
  empty. `SnappyConformance.DecoderConforms` says for every string how the decoder relates to the
  format; `SnappyConformance.EmptyLiteralDecodes` is a string that decodes and should not.
* database_get ends its read transaction before the bytes are used (src/server/database.c:193-205).
  `PageStoreAfterRead.ReadBytesStay` says that they stay until the second commit after the one read,
  `PageStoreAfterRead.ReadBytesChange` is a run in which they change after it.
* The sort adds the ends of a segment in an `int` (lib/lmdb/midl.c:200). `IdlSort.SumFitsIff` gives the
  longest list for which this is safe, and `IdlSort.Sort` says that the first round fails for a list of
  2^31 - 1 entries.
* `mdb_ovpage_free` takes the entry found by the search out of the transaction's dirty list without
  comparing it, although a dirty run of an ancestor is not in that list, and it does not give the slot
  back to `mt_dirty_room` (lib/lmdb/mdb.c:4282-4291). `DirtyList.DroppingView` and `DirtyList.Remove`
  state which entry goes, `DirtyList.WrongEntryGoes` shows a wrong one going.
  When a child of a top-level transaction commits, the length of the merged list is computed from
  `mt_dirty_room`. `DirtyRoom.LifeRightIff` says, for every life of a top-level transaction with
  children to any depth, when all these lengths are right; `DirtyRoom.RoomRightIff` says it for the
  first child: if and only if the parent has given back nothing and the child loses nothing.
  `DirtyRoom.GivenBackBefore` and `DirtyContents.ParentRunGivenBack` are families of lives that go
  wrong; `NestedCommit.CommitNested` states what the parent's list is then.
  `DirtyContents.MergedAsMeant` says when the merged list maps the dirty pages in use.
  A repair is a use of a page whose listing is wrong already: a page still listed is allocated, or a
  page that is listed nowhere is copied or given back.
* A branch node holds 48 bits of a page number (`SlottedPage.BranchPgno`).
* A leaf split can report a full page in two cases. The size check before it is skipped for pages with
  many small nodes, and then the half that takes the new node may overflow although another cut would
  fit (`LeafSplit.HalfOverflows`). With the check, it fails if the new node fits neither with the nodes
  before it nor with those behind it, so that no cut would fit (`LeafSplit.WedgedIff`); this happens
  because the limit for a node is compared before the size is rounded up and without its pointer
  (`LeafSplit.NoRoomBetween`), and cannot happen for a node of half a page or less
  (`LeafSplit.SmallNodeFits`). `LeafSplit.SplitLeaf` states that these are the only cases.

## Model

| member | source | states |
|---|---|---|
| PageStoreRuns.SnapshotSafety | lib/lmdb/mdb.c:1341-1565 | in every reachable state, no page handed out by the allocator is in the snapshot of a registered reader, in the last committed snapshot or in the one before it |
| PageStoreRuns.ReaderIsolation | lib/lmdb/mdb.c:1808-1899 | in every reachable state a reader finds in the file exactly the pages and contents its transaction committed |
| PageStoreRuns.ReaderSeesOneSnapshot | lib/lmdb/mdb.c:1808-1899 | over every run that does not end the reader, it keeps one and the same snapshot |
| PageStoreCommits.CommitIsChanges | lib/lmdb/mdb.c:2464-2532 | every transaction that commits: under the next number, the tree of the last commit in which each page has the contents of the last step that names it, or is gone if that step freed it or gave it back |
| PageStoreCommits.NextReaderFinds | lib/lmdb/mdb.c:1808-1860 | a reader that begins right after a commit finds these contents in the file, and the other pages as they were |
| PageStoreCommits.AbortChangesNothing | lib/lmdb/mdb.c:2050-2100 | a transaction that aborts leaves what is committed as it was |
| PageStoreRuns.PageConservation | lib/lmdb/mdb.c:2298-2400 | in every reachable state each page number from 2 to the end of the file is in the committed trees or in one free-page record, not both, and once |
| PageStoreRuns.MetaParity | lib/lmdb/mdb.c:2673-2779 | in every reachable state meta page t mod 2 is that of the current transaction t |
| PageStoreRuns.ReachableCrashRecovers | lib/lmdb/mdb.c:2786-2789 | after a crash in any reachable state, with any part of the unsynced writes lost, the meta page with the larger number describes exactly what that transaction committed, and at most one commit is lost |
| PageStoreRuns.NoLostCommit | lib/lmdb/mdb.c:2522-2532 | if meta pages are written with a sync, a crash loses no published commit |
| PageStoreAfterRead.PagesStay | lib/lmdb/mdb.c:1386-1391 | over every run without a crash, the pages of a transaction keep their contents in the file until the second commit after it |
| PageStoreAfterRead.ReadBytesStay | src/server/database.c:193-205 | so what a reader has found stays as it is until then, also when the reader has ended |
| PageStoreAfterRead.ReadBytesChange | src/server/database.c:193-205 | a run in which the bytes that a reader has found change after the second commit |
| PageStoreRuns.RunKeeps | lib/lmdb/mdb.c:1341-1565 | every run keeps the invariant |
| PageStoreRuns.StepKeeps | lib/lmdb/mdb.c:1341-1565 | every step keeps the invariant |
| PageStoreRuns.SyncKeeps | lib/lmdb/mdb.c:2522-2527 | after the sync the snapshot to be committed is complete, on disk and accounts for every page |
| PageStoreRuns.WriteMetaKeeps | lib/lmdb/mdb.c:2673-2779 | writing the meta page over the older of the two keeps the newest committed one intact |
| PageStoreRuns.CrashKeeps | lib/lmdb/mdb.c:3054-3058 | restarting from the picked meta page restores the invariant |
| PageStoreInvariant.InitInv | lib/lmdb/mdb.c:2616-2665 | a fresh environment satisfies the invariant |
| PageStoreInvariant.BeginReadKeeps | lib/lmdb/mdb.c:1819-1860 | registering a reader keeps the invariant, although the writer may have looked at the reader table before |
| PageStoreInvariant.EndReadKeeps | lib/lmdb/mdb.c:2050-2063 | ending a reader keeps the invariant |
| PageStoreInvariant.BeginWriteKeeps | lib/lmdb/mdb.c:1861-1881 | starting a write transaction keeps the invariant |
| PageStoreInvariant.ReclaimKeeps | lib/lmdb/mdb.c:1360-1420 | taking over a record older than every reader keeps the invariant: its pages are in no snapshot still in use |
| PageStoreInvariant.TakeRunKeeps | lib/lmdb/mdb.c:1499-1526 | using free pages keeps the invariant |
| PageStoreInvariant.GrowKeeps | lib/lmdb/mdb.c:1530-1565 | extending the file keeps the invariant |
| PageStoreInvariant.FreePageKeeps | lib/lmdb/mdb.c:1597-1606 | freeing a page keeps the invariant |
| PageStoreInvariant.GiveBackKeeps | lib/lmdb/mdb.c:4282-4306 | giving back a dirty run keeps the invariant |
| PageStoreInvariant.ModifyKeeps | lib/lmdb/mdb.c:1594-1656 | changing a page that the transaction allocated itself keeps the invariant |
| PageStoreInvariant.StorePageKeeps | lib/lmdb/mdb.c:2464-2518 | storing a dirty page into the file keeps the invariant |
| PageStoreInvariant.PublishKeeps | lib/lmdb/mdb.c:2769-2778 | publishing the transaction number keeps the invariant |
| PageStoreInvariant.AbortKeeps | lib/lmdb/mdb.c:2050-2100 | aborting keeps the invariant |
| PageStoreInvariant.LeftoversHold | lib/lmdb/mdb.c:2362-2395 | splitting the leftovers into records under falling transaction numbers loses and duplicates no page, and keeps the records sorted |
| PageStoreInvariant.LeftoversSplit | lib/lmdb/mdb.c:2362-2395 | these records are the leftovers from the front, as many to a record as fit one overflow page; only the last may be shorter, or longer if its number is 4 or less |
| PageStoreInvariant.CommitTiles | lib/lmdb/mdb.c:2298-2395 | the trees and free-page records that a commit writes account for every page exactly once |
| PageStoreInvariant.OldRecordsApart | lib/lmdb/mdb.c:1386-1391 | a record older than the last commit and every reader lists no page of a snapshot in use |
| AllocatorRefines.AllocatorReady | lib/lmdb/mdb.c:1341-1420 | in every reachable state the free lists are as the allocator needs them: descending and disjoint |
| AllocatorRefines.TakesRuns | lib/lmdb/mdb.c:1360-1499 | the records that an allocator call takes are steps of the page store |
| AllocatorRefines.TakenIsSafe | lib/lmdb/mdb.c:1341-1565 | an allocator call that finds free pages is a run of the page store, and its pages are in no snapshot in use |
| AllocatorRefines.GrownIsSafe | lib/lmdb/mdb.c:1530-1565 | the same for a call that extends the file |
| AllocatorRefines.AllocateInStore | lib/lmdb/mdb.c:1341-1565 | a call of the allocator on fields that show a reachable state of the store leads to a reachable state that they show again, and no page it returns is in a snapshot in use |
| AllocatorRefines.OldestIsOlder | lib/lmdb/mdb.c:1315-1328 | the number found by scanning the reader table is at most that of every registered reader and of the last commit |
| AllocatorRefines.SortedForCommit | lib/lmdb/mdb.c:2356-2357 | the sort turns the list of freed pages, which has no repetitions, into the strictly descending list that a commit writes |
| PageAlloc.FindOldest | lib/lmdb/mdb.c:1315-1328 | the result is the smallest transaction number of an occupied slot, or the one before the writer's |
| PageAlloc.NextRecord | lib/lmdb/mdb.c:1378-1385 | the first record from a given number on, or none if there is none |
| PageAlloc.MergeRecord | lib/lmdb/mdb.c:1480-1492 | the backward merge with the sentinel in place of the count yields the merged list |
| PageRuns.MergedDownBag | lib/lmdb/mdb.c:1480-1492 | the merge keeps the multiset |
| PageRuns.MergedDownDescends | lib/lmdb/mdb.c:1480-1492 | the merge of disjoint descending lists is descending |
| PageRuns.RunIsAt | lib/lmdb/mdb.c:1499-1501 | a run of numbers that is in a descending list takes up neighbouring positions, so that the test of its two ends finds it |
| PageRuns.WithoutRun | lib/lmdb/mdb.c:1500-1508 | taking the entries of a run out removes exactly these numbers and keeps the order |
| PageRuns.WithRun | lib/lmdb/mdb.c:4296-4305 | putting a run in at its place adds exactly these numbers and keeps the order |
| PageRuns.GiveBackUndoesTake | lib/lmdb/mdb.c:4282-4306 | giving back a run restores the list from which it was taken |
| PageRuns.DescendingUnique | lib/lmdb/midl.h:47-57 | a descending list is determined by its elements |
| PageAlloc.TakeRun | lib/lmdb/mdb.c:1499-1510 | a request for several pages gets the lowest run of that length and removes exactly it, or the list is unchanged and has no such run |
| PageAlloc.GiveBackRun | lib/lmdb/mdb.c:4292-4306 | a dirty run goes into the list in order, whose array grows if need be |
| PageAllocator.Allocator.ReadFirst | lib/lmdb/mdb.c:1360-1425 | without a pool, the next usable record that is not empty becomes the pool; if there is still none, every usable record has been tried |
| PageAllocator.Allocator.MergeNext | lib/lmdb/mdb.c:1450-1497 | one more usable record is merged in, or there is none left; the records unread become fewer |
| PageAllocator.Allocator.TakeMany | lib/lmdb/mdb.c:1427-1518 | the retry loop ends; it yields the lowest run in the enlarged pool, or no usable record is left and the pool has no such run; every record was taken for want of a run |
| PageAllocator.Allocator.FromPool | lib/lmdb/mdb.c:1359-1528 | the search for free pages as a whole, for one page or several; records are taken only for want of a run |
| PageAllocator.Allocator.Allocate | lib/lmdb/mdb.c:1341-1565 | which pages are returned, what is left in the pool, which records were taken, and exactly when the file grows or an error is reported |
| IdlSort.Sort | lib/lmdb/midl.c:175-234 | the result is a descending permutation of the list; 64 stack slots are enough for every list shorter than 2^31; the sum of the ends fits an `int` in every round for lists of at most 2^30 + 3 entries, and does not for 2^31 - 1 entries |
| IdlSort.SumFitsIff | lib/lmdb/midl.c:200 | 2^30 + 3 is the largest length for which the sum fits whatever the segment |
| IdlSort.InsertionSort | lib/lmdb/midl.c:187-196 | a segment is sorted in place, and no element outside of it is moved |
| IdlSort.Insert | lib/lmdb/midl.c:188-195 | one element goes to its place; the loop, which would run down to position 1, stops at the start of the segment |
| IdlSort.Scan | lib/lmdb/midl.c:214-216 | the two sentinel loops stay inside the segment |
| IdlSort.Partition | lib/lmdb/midl.c:200-222 | the segment is rearranged into elements not below, equal to and not above the pivot |
| IdlSort.SegmentSplit | lib/lmdb/midl.c:200-232 | after a partition the list is sorted once the two parts are |
| IdlSort.HalvingKept | lib/lmdb/midl.c:223-231 | keeping the larger part on the stack halves the size of what is at hand |
| IdlSort.StackDepth | lib/lmdb/midl.c:178-179 | a stack entry is only added when fewer than 28 are there |
| DirtyList.Search | lib/lmdb/midl.c:236-269 | the position of a page number: smaller ones before it, others from it on |
| DirtyList.Insert | lib/lmdb/midl.c:271-297 | success adds one binding to the page map and keeps the order; the two error codes are returned exactly for a listed page and a full list, and then nothing changes |
| DirtyList.Remove | lib/lmdb/mdb.c:4284-4288 | the entry that the search finds, or the last one, leaves the list, which is that of the given page if and only if the page was listed; from an empty list nothing is taken, but the count wraps around |
| DirtyList.DroppingView | lib/lmdb/mdb.c:4284-4288 | the map loses one binding, that of the given page exactly when the page is listed |
| DirtyList.WrongEntryGoes | lib/lmdb/mdb.c:4284-4288 | with pages x and z listed, giving back a page y between them takes the entry of z |
| DirtyList.AscendingUnique | lib/lmdb/midl.h:127-137 | an ascending list is determined by its page map |
| DirtyList.InsertedView | lib/lmdb/midl.c:291-295 | insertion at the position found adds one binding |
| DirtyList.RemovedView | lib/lmdb/mdb.c:4284-4288 | removal takes away one binding |
| NestedCommit.MergedAscending | lib/lmdb/mdb.c:2222-2231 | the merged list is ascending |
| NestedCommit.MergedView | lib/lmdb/mdb.c:2222-2231 | the merged list maps every page of either list, the child's page winning |
| NestedCommit.MergedConserves | lib/lmdb/mdb.c:2222-2231 | every entry of either list is kept or released, once |
| NestedCommit.MergedLength | lib/lmdb/mdb.c:2207-2218 | the counting loop computes the length of the merged list |
| NestedCommit.MergeInto | lib/lmdb/mdb.c:2222-2232 | the backward merge inside the parent's array yields the merged list and releases the replaced pages; the indices meet if and only if the length was right |
| NestedCommit.CommitNested | lib/lmdb/mdb.c:2202-2234 | the parent's list becomes an ordered list of its page map overridden by the child's if and only if the indices meet, which is if and only if the length was right; otherwise it has the merged entries with surplus ones in between |
| DirtyRoom.LifeRightIff | lib/lmdb/mdb.c:2202-2234 | over every life of a top-level transaction, with children to any depth that commit or abort: each child that commits takes the right length if and only if no use lets the length drift as long as a commit is still to come |
| DirtyRoom.RoomCountsUnion | lib/lmdb/mdb.c:2219-2221 | over every run of a transaction and its children, the length computed from the room left exceeds the number of pages listed by the sum of what each use adds to it |
| DirtyRoom.OwnDrifts | lib/lmdb/mdb.c:4282-4291 | before its first child, that excess is the number of give-backs of the top-level transaction |
| DirtyRoom.RoomRightIff | lib/lmdb/mdb.c:2219-2221 | the length for the first child is right if and only if its parent has given back nothing and the drifts of the child add up to nothing; without repairs, if and only if the child also takes out no entry that its ancestors do not list |
| DirtyRoom.NeverShort | lib/lmdb/mdb.c:2219-2221 | over every run, a length that starts out right is never too small for the pages listed and the entries that were lost |
| DirtyRoom.NeverFull | lib/lmdb/mdb.c:1670-1680 | so no insertion finds the list full |
| DirtyRoom.GivenBackBefore | lib/lmdb/mdb.c:4282-4291 | after a transaction has allocated two pages and given one back, a child that does nothing takes a length of 2 for one page |
| DirtyContents.OneUseAsMeant | lib/lmdb/mdb.c:4282-4306 | one use spoils what the lists map exactly if it gives back a page that the transaction does not list itself or an ancestor lists too |
| DirtyContents.MergedAsMeant | lib/lmdb/mdb.c:4282-4306 | over every run in which each give-back hits a page that only the transaction itself lists, the lists map exactly the dirty pages in use to their newest contents; over runs without repairs, only then |
| DirtyContents.ParentRunGivenBack | lib/lmdb/mdb.c:4282-4291 | children that give back a run of their parent: the length is one too large, and the merged list is not the one that is meant |
| SlottedPage.ReadWritten | lib/lmdb/mdb.c:5670-5697 | reading a node that was written gives the node |
| SlottedPage.Added | lib/lmdb/mdb.c:5659-5697 | a node stored below all others and its pointer leave every other node readable as before |
| SlottedPage.Deleted | lib/lmdb/mdb.c:5740-5766 | moving the lower nodes up over a deleted one, and their pointers with them, leaves every other node readable as before |
| SlottedPage.LeafNode | lib/lmdb/mdb.c:5622-5648 | the node stored for a key and data: size, flags, and the data itself or the number of an overflow page exactly when the node would be too large |
| SlottedPage.BranchPgno | lib/lmdb/mdb.c:689-695 | the low 48 bits of a page number are read back from a branch node |
| SlottedPageOps.Page.constructor | lib/lmdb/mdb.c:5497-5520 | a new page is empty |
| SlottedPageOps.Page.Add | lib/lmdb/mdb.c:5648-5697 | a node is inserted into the sequence of nodes at its index; the page is reported full exactly when the node does not fit, and then nothing changes |
| SlottedPageOps.Page.AddLeaf | lib/lmdb/mdb.c:5590-5700 | a node with this key, size, flags and data is inserted, unless there is no room for it |
| SlottedPageOps.Page.AddBranch | lib/lmdb/mdb.c:5590-5680 | a node with this key and child page is inserted, unless there is no room for it |
| SlottedPageOps.Page.Delete | lib/lmdb/mdb.c:5713-5766 | a node is removed from the sequence of nodes and its space is free again |
| SlottedPageOps.Page.Perform | lib/lmdb/mdb.c:5590-5766 | any sequence of additions and deletions on the bytes is that sequence of insertions and removals, and leaves no slack |
| SlottedPageOps.Page.CopyFrom | lib/lmdb/mdb.c:7004-7010 | copying the pointers and the bytes from the last pointer on copies the nodes |
| LeafSplit.ChooseSplit | lib/lmdb/mdb.c:6821-6870 | neither page is left empty; without the size check the page is split in the middle; with it, the middle is kept if the new node fits with its half, and otherwise the cut moves just as far as it has to; it fits if any does |
| LeafSplit.FromLeft | lib/lmdb/mdb.c:6827-6848 | for a new node on the left half, both pages fit unless no cut fits |
| LeafSplit.FromRight | lib/lmdb/mdb.c:6849-6868 | for a new node on the right half, both pages fit unless no cut fits |
| LeafSplit.WedgedIff | lib/lmdb/mdb.c:6809-6820 | no cut fits if and only if the new node fits neither with the nodes before it nor with those behind it |
| LeafSplit.SmallNodeFits | lib/lmdb/mdb.c:6809-6820 | a node of at most half a page always fits somewhere |
| LeafSplit.NoRoomBetween | lib/lmdb/mdb.c:5535-5548 | a node within the limit for a leaf and a full page for which no cut fits |
| LeafSplit.HalfOverflows | lib/lmdb/mdb.c:6826 | a page for which the split fails because the size check is skipped |
| LeafSplit.SwitchesAtCut | lib/lmdb/mdb.c:6954-6962 | the test for changing to the right page succeeds once, at the cut |
| LeafSplit.Separator | lib/lmdb/mdb.c:6872-6884 | the separator is the first key of the right page |
| LeafSplit.MoveNodes | lib/lmdb/mdb.c:6954-7002 | all nodes with the new one among them are on the two pages in order, unless one does not fit; the cursor index is that of the new node |
| LeafSplit.Divide | lib/lmdb/mdb.c:6886-7033 | the nodes in front of the cut are on the left page and the others on the right one, or the page is reported full exactly if one part does not fit |
| LeafSplit.SplitLeaf | lib/lmdb/mdb.c:6760-7033 | left page followed by right page is the old sequence with the new node inserted, cut at the place just described; both are non-empty, the separator is the right page's first key; a full page is reported exactly if the new node is wedged in or, without the size check, if the half that takes it overflows |
| BTree.RightRank | lib/lmdb/mdb.c:4381-4424 | the item to the right is the next one of its level, and there is none exactly at the end |
| BTree.LeftRank | lib/lmdb/mdb.c:4381-4424 | the item to the left is the one before, and there is none exactly at the start |
| BTree.LeftUndoesRight | lib/lmdb/mdb.c:4503-4572 | moving left undoes moving right, and the other way round |
| BTree.RightOnPage | lib/lmdb/mdb.c:4396-4412 | the item to the right is on the same page, or first on the page to the right |
| BTree.LeftOnPage | lib/lmdb/mdb.c:4396-4422 | the item to the left is on the same page, or last on the page to the left |
| BTree.FlatAt | lib/lmdb/mdb.c:4464-4490 | the entry at a cursor's rank is that number of the in-order sequence |
| BTree.RankInjective | lib/lmdb/mdb.c:4428-4497 | the rank determines the cursor's indices |
| BTreeSearch.FlatRising | lib/lmdb/mdb.c:3886-3982 | the in-order sequence of an ordered tree is strictly ascending |
| BTreeSearch.NodeSearch | lib/lmdb/mdb.c:3886-3982 | binary search on a leaf or branch page finds the place of the key |
| BTreeSearch.ChildFor | lib/lmdb/mdb.c:4112-4126 | the descent follows the child whose key range has the key |
| BTreeSearch.FollowsKey | lib/lmdb/mdb.c:4092-4156 | the tree has the key if and only if the child followed has it |
| BTreeSearch.FollowsAround | lib/lmdb/mdb.c:4092-4156 | all entries in front of the child followed have smaller keys, all behind it larger ones |
| BTreeSearch.GapIff | lib/lmdb/mdb.c:3975 | a place is between the smaller and the larger keys if and only if inserting the key there keeps the in-order sequence ascending |
| BTreeCursor.Cursor.Sibling | lib/lmdb/mdb.c:4381-4424 | the cursor goes to the near end of the page to that side, or stays as it was if there is none |
| BTreeCursor.Cursor.Next | lib/lmdb/mdb.c:4428-4497 | the next entry of the in-order sequence; fails exactly at the last one |
| BTreeCursor.Cursor.Prev | lib/lmdb/mdb.c:4503-4572 | the entry before; fails exactly at the first one |
| BTreeCursor.Cursor.First | lib/lmdb/mdb.c:4755-4771 | the first entry of the in-order sequence |
| BTreeCursor.Cursor.Enumerate | lib/lmdb/mdb.c:4428-4497 | first and then next to the end yields the in-order sequence |
| BTreeCursor.Cursor.SearchPage | lib/lmdb/mdb.c:4092-4156 | the descent ends on a leaf page in front of which all keys are smaller and behind which all are larger |
| BTreeCursor.Cursor.SearchHere | lib/lmdb/mdb.c:4682-4688 | the index of the key on that page, or the one where it belongs |
| BTreeCursor.Cursor.ShortCut | lib/lmdb/mdb.c:4588-4673 | what a positioned cursor concludes without a search from the root is right, and an absent key leaves it where the key belongs |
| BTreeCursor.Cursor.Set | lib/lmdb/mdb.c:4576-4687 | exact lookup succeeds if and only if the tree has the key, and then the cursor is at it; otherwise the cursor is where the key belongs in the in-order sequence; the pages are those of a descent from the root, also after a short cut |
| BTreeCursor.SameKeySameStack | lib/lmdb/mdb.c:4588-4677 | two cursors at the same key have the same stack: short cut and search from the root agree |
| BTreeCursor.AbsentKeySameStack | lib/lmdb/mdb.c:4588-4688 | two cursors where an absent key belongs, both on the way that a descent takes, have the same stack |
| TreeDrop.Drop | lib/lmdb/mdb.c:7355-7425 | the level-by-level walk ends; the freed pages are appended in the order of the levels, every page of the tree exactly once |
| TreeDrop.DropsEachPageOnce | lib/lmdb/mdb.c:7355-7425 | every branch, leaf and overflow page of the tree is freed exactly once |
| TreeDrop.VisitPage | lib/lmdb/mdb.c:7371-7403 | a leaf page adds its overflow runs, a branch page its children |
| TreeDrop.Advance | lib/lmdb/mdb.c:7406-7418 | from a page to the next one of its level, or to the first page of the level above |
| SnappyFormat.OverlapCopyUnique | lib/snappy-c/snappy.c:356-366 | the overlapping copy is the only extension in which every byte repeats the one `offset` before it |
| SnappyFormat.OverlapCopyCompose | lib/snappy-c/snappy.c:591-614 | two copies in turn with the same offset are one copy |
| SnappyFormat.RunTagsAppend | lib/snappy-c/snappy.c:1054-1140 | decoding a concatenation is decoding its parts in turn |
| SnappyTagTable.TableIsFormat | lib/snappy-c/snappy.c:957-990 | each of the 256 table entries has the length, offset bits and extra bytes of the format |
| SnappyVarint.EncodeRoundTrip | lib/snappy-c/snappy.c:175-203 | a length that was written is read back by both readers |
| SnappyVarint.EncodeTerminated | lib/snappy-c/snappy.c:175-203 | the digits written have the value of the length, and there is none more than needed |
| SnappyVarint.ReadLengthUnrolled | lib/snappy-c/snappy.c:126-171 | how the unrolled reader relates to the looping one, case by case |
| SnappyVarint.ReadersAgreeIff | lib/snappy-c/snappy.c:1021-1046 | the two readers differ if and only if there are five digits and the last is from 16 to 127 |
| SnappyVarint.ReadersDisagree | lib/snappy-c/snappy.c:1021-1046 | a header on which they differ |
| SnappyVarint.EncodedLengthIsAgreed | lib/snappy-c/snappy.c:175-203 | they agree on every header that was written |
| SnappyWriter.IncrementalCopy | lib/snappy-c/snappy.c:356-362 | the byte loop repeats the pattern and touches nothing else |
| SnappyWriter.IncrementalCopyFastPath | lib/snappy-c/snappy.c:399-413 | the pattern-doubling path leaves the same bytes and writes at most 10 bytes beyond them |
| SnappyWriter.CopyWithin | lib/snappy-c/snappy.c:424-438 | whichever path is taken, the copy is the overlapping copy and nothing at or past the limit is written |
| SnappyWriter.Writer.AppendFromSelf | lib/snappy-c/snappy.c:415-442 | exactly the valid offsets and lengths succeed, with the overlapping copy as result |
| SnappyWriter.Writer.Append | lib/snappy-c/snappy.c:444-454 | data is appended if and only if it fits |
| SnappyWriter.Writer.TryFastAppend | lib/snappy-c/snappy.c:456-469 | a short literal is appended by a 16-byte store that stays inside the buffer |
| SnappyDecoder.Decompressor.ReadUncompressedLength | lib/snappy-c/snappy.c:1021-1046 | the length header is read from any fragmentation as from the whole string |
| SnappyDecoder.Decompressor.RefillTag | lib/snappy-c/snappy.c:1144-1209 | a whole tag is made available, across fragments if need be, if and only if one is left; nothing is lost |
| SnappyDecoder.Decompressor.Stitch | lib/snappy-c/snappy.c:1171-1193 | the scratch buffer collects a tag from several fragments |
| SnappyDecoder.Decompressor.LiteralTag | lib/snappy-c/snappy.c:1082-1118 | a literal across any number of fragments has the outcome that the format gives it |
| SnappyDecoder.Decompressor.CopyTag | lib/snappy-c/snappy.c:1119-1138 | a copy tag has the outcome that the format gives it |
| SnappyDecoder.Decompressor.DecodeTag | lib/snappy-c/snappy.c:1081-1138 | one tag has the outcome that the format gives it, and bytes are stored only if the output grows |
| SnappyDecoder.Decompressor.DecompressAllTags | lib/snappy-c/snappy.c:1054-1140 | the loop succeeds with the output of the format, or fails where the format fails |
| SnappyDecoder.InternalUncompress | lib/snappy-c/snappy.c:1211-1232 | for every division of the input into fragments, status and output are those of the whole string, and nothing is written outside the announced length; a string in one piece stores no byte exactly if its length cannot be read or its first tags produce nothing |
| SnappyConformance.DecoderConforms | lib/snappy-c/snappy.c:1054-1140 | the decoder's result is the meaning by the format, except for strings on whose length the readers disagree and strings in which a literal of 2^32 bytes is met: these have no meaning |
| SnappyConformance.ParseIsExact | lib/snappy-c/snappy.c:126-171 | the reader that sizes buffers reads the length that the format gives |
| SnappyConformance.EmptyLiteralDecodes | lib/snappy-c/snappy.c:1092-1098 | a string that decodes although it has no meaning |
| SnappyEmit.LiteralDecodes | lib/snappy-c/snappy.c:524-568 | an emitted literal decodes to its data |
| SnappyEmit.CopyBytesDecode | lib/snappy-c/snappy.c:570-589 | an emitted copy tag decodes to the overlapping copy |
| SnappyEmit.CopyStreamDecodes | lib/snappy-c/snappy.c:591-614 | a long copy, cut into pieces of 4 to 64, decodes to one overlapping copy |
| SnappyEmit.CopyStreamSize | lib/snappy-c/snappy.c:591-614 | the pieces take at most three bytes for four of input |
| SnappyEmit.EmitLiteral | lib/snappy-c/snappy.c:524-568 | the buffer gets the literal, also by the overshooting 16-byte store |
| SnappyEmit.EmitCopy | lib/snappy-c/snappy.c:591-614 | the buffer gets the pieces of the copy |
| SnappyMatch.FirstDifference | lib/snappy-c/snappy.c:712-717 | the number of trailing zero bits of the xor of two words, divided by 8, is the index of the first byte that differs |
| SnappyMatch.FindMatchLength | lib/snappy-c/snappy.c:686-729 | the result is the largest common prefix within the limit |
| SnappyMatch.U32FromU64 | lib/snappy-c/snappy.c:765-769 | a 32-bit word taken from a 64-bit load is the one loaded at that offset |
| SnappyCompressor.ScanForMatch | lib/snappy-c/snappy.c:839-859 | for any hash function, the table search is the search among all positions passed for the latest one with the same hash: same match, or none |
| SnappyGreedy.ScanFindsFirst | lib/snappy-c/snappy.c:839-859 | that search reports the first place, at the growing stride, whose four bytes are those at the latest position with the same hash, or there is none before the end margin |
| SnappyGreedy.CommonIs | lib/snappy-c/snappy.c:887-894 | a copy is as long as it can be |
| SnappyGreedy.EqualParts | lib/snappy-c/snappy.c:785-931 | from 17 bytes on, a block of equal bytes becomes a literal of one byte and one copy |
| SnappyGreedy.EqualSize | lib/snappy-c/snappy.c:785-931 | which takes 2 bytes and at most 3 for every started 60 |
| SnappyCompressor.Remember | lib/snappy-c/snappy.c:857 | entering a position keeps the table the latest position for each hash value |
| SnappyCompressor.EmitOneCopy | lib/snappy-c/snappy.c:882-915 | the copy is emitted at full length, and what is ahead is as the positions passed say |
| SnappyCompressor.CompressFragment | lib/snappy-c/snappy.c:785-931 | for any hash function, what is emitted is exactly the literals and copies into which the block is cut; it decodes to the block and takes no more than 7 bytes for 6, up to a constant |
| SnappyCompressor.CompressRound | lib/snappy-c/snappy.c:839-922 | one round emits a literal and copies that decode to the bytes passed |
| SnappyCompressor.LookBehindCopy | lib/snappy-c/snappy.c:899-920 | a match right behind a copy is reported exactly when the four bytes agree |
| SnappyCompressor.HashInRange | lib/snappy-c/snappy.c:478-487 | the hash is an index of the table |
| SnappyCompressor.GetHashTable | lib/snappy-c/snappy.c:653-670 | the table is cleared and its size is the smallest power of two from 2^8 to 2^14 that is not less than the input, or 2^14 |
| SnappyCompressor.TopBits | lib/snappy-c/snappy.c:478-487 | the hash is the upper bits of the low 32 bits of the product |
| SnappyCompressor.CompressBlocks | lib/snappy-c/snappy.c:1246-1305 | the blocks are compressed one after the other, and together decode to the input |
| SnappyCompressor.Compress | lib/snappy-c/snappy.c:1234-1310 | for every input shorter than 2^31 bytes: the output is the length and the compressed blocks; decoding it returns the input, by the format and by the decoder; equal bytes take at most 2 bytes a block and 3 for every started 60; every store stays inside 32 + n + n/6 bytes |
| SnappyCompressor.BareHeaderFails | lib/snappy-c/snappy.c:1234-1310 | a length header without tags does not decode |
| FineDb.Server.Put | src/server/command_put.c:57-140 | what is stored or queued decodes to the value that the client means, whether or not it compressed it |
| FineDb.Server.ApplyOne | src/server/writer_thread.c:25-34 | the writer applies queued PUTs in order |
| FineDb.DefinedIff | src/server/command_get.c:40-54 | the outcome of decoding does not depend on the length that was never set if and only if the length readers agree or decoding fails before a byte is stored |
| FineDb.Disagreements | src/server/command_get.c:46-48 | a string for which it does depend, and one on which the readers disagree for which it does not |
| FineDb.Server.Get | src/server/command_get.c:34-71 | the reply carries the value of the last applied PUT decoded, or the stored bytes if asked for the compressed form, whenever the outcome of decoding is defined; otherwise what a buffer of the size that happens to be there leads to |
| FineDb.Server.Unzip | src/server/command_get.c:40-54 | for every value of the length before it is set: decoding fails, or the buffer has the decoded value in front, or bytes are stored for which the buffer is too small |
| FineDb.Server.Zip | src/server/command_put.c:67-89 | the stored string decodes to the payload, and the terminating byte fits |
| FineDb.LastPutWins | src/server/database.c:89-131 | a key has the value of the last PUT applied to it |
| FineDb.OnlyPutKeys | src/server/database.c:173-219 | only keys that were put are found |

## Left out

- DirtyRoom.LifeRightIff: a life ends with the first commit that takes a wrong length, because an assertion fails there (lib/lmdb/mdb.c:2231).
- FineDb.Server.Get: takes the stored bytes as they are at the lookup; how long they stay in the file is stated by PageStoreAfterRead.ReadBytesStay.
- FineDb.Server.Unzip: does not model a failing allocation; with a buffer that is too small, storing any byte counts as an overrun, even if the bytes that are stored happen to fit.
- FineDb.Server.Put: does not model the create-only and update-only options, deletes, and sessions with a transaction of their own, which add branches but no new reasoning about values.
- SnappyDecoder.InternalUncompress: fragments other than the last are non-empty; the source moves past an empty one when it skips zero bytes.
- SnappyDecoder.InternalUncompress: the 32-bit widths of the positions inside a fragment are not modelled.
- IdlSort.Sort: after a sum that does not fit an `int` the model goes on with the exact sum.
- DirtyList.Search: dirty lists are sorted; under MDB_WRITEMAP they are appended unsorted and neither searched nor merged.
- BTreeCursor.Cursor.Set: keys are integers, standing for any keys with a total order; MDB_SET_RANGE on a positioned cursor is not modelled.
- BTreeCursor.Cursor.Sibling: the stack is a sequence without the limit of 32 pages.
- LeafSplit.SplitLeaf: the page has no slack between its nodes, which additions and deletions keep (SlottedPageOps.Page.Perform).
- LeafSplit.SplitLeaf: does not model the insertion of the separator into the parent, branch pages, MDB_APPEND and the fix-up of other cursors.
- TreeDrop.Drop: does not model sub-databases.
- PageStoreRuns.StepKeeps: a page's contents are one abstract value; registering a reader and writing one meta page are single steps; a commit writes its final free-page records at once, without the loop that stabilises them.
- PageStoreInvariant.ModifyKeeps: which pages a change of a tree touches is left to the writer; the B-tree modules describe trees that do not change.
- Rebalancing and page merging: they depend on re-entrant changes of the same structures.
- MDB_DUPSORT, fixed-size pages and sub-pages: many cases, little extra depth.
- `mdb_update_key`: it may leave slack between the nodes of a branch page; nodes of a page are therefore only said to be disjoint.
- Files, memory maps, locks, sockets, threads and memory allocation: foreign calls.
- The command line client, the client library, logging and the yLib containers: they would only add easy members.
