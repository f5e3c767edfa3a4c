# A model of scoutfs in Dafny

scoutfs is a clustered filesystem for Linux. Its mounts share one block device and
agree on who may use what through cluster locks. Each mount caches items, which are
pairs of a 216-bit key and a value, and writes them to its own log btree. All the
trees together are the forest. Data blocks are mapped by extents, and free blocks are
kept in trees of extents and in lists of block numbers.

The model has five parts, each with the code's own branches, constants and errors,
and each with a simple statement of what it is for.

- **Cluster locks** (`Lock*`, `WriteVersions`). One server, any number of mounts and
  the messages in flight are a state machine (`LockProtocol`). The server's and the
  client's code are classes (`LockServerNode`, `LockClient`) whose methods are proved
  equal to the steps of that machine. The invariant is in `LockServerProofs`,
  `LockClientProofs` and `LockTheorems`, and what follows from it in every reachable
  state is in `LockResults`. `LockProgress` has the measure that every step lowers, and
  so what happens in the end.
- **Btree blocks** (`Avl*`, `Leaf*`). `AvlRoot` is the tree with parent pointers,
  changed in place. `LeafHash` is the probed hash table, `LeafArea` the heap of values
  in the bytes of a block, and `LeafBlock.Leaf` has all of them and the item array at
  once. `LeafMove` and `LeafJoin` move items between two such blocks, and `LeafRefines`
  shows that a leaf block does what the leaf of the tree does.
- **Btree** (`BTree*`). Blocks are sorted entries with byte totals. Walks split and
  join blocks and start again, and the tree stands for a map from keys to values.
- **Item cache** (`Keys`, `Item*`, `Page*`, `PerCpuPages`, `LogItems`, `ForestRead`).
  Pages are ranges of keys. `ItemCache.Cache` has the operations of one mount and the
  keys that each cpu's references are checked against, `ForestRead` the merge of many
  trees, and `ItemProtocol` is a state machine of operations, readers, commits, reclaim
  and other mounts, with its theorems in `ItemTheorems`. `StampedItems` runs the cluster
  locks together with the items that their holders stamp and write.
- **Extents and allocators** (`Extent*`, `Alloc*`, `MetaAlloc`, `Data*`, `File*`).
  Extents are a partial map from blocks to mappings. Free extents are indexed twice.
  Metadata and data allocators conserve every block number, counted as a multiset.

Reading order: the theorem modules named above first, then the classes. Three shapes
return throughout. A method's postcondition ties its result to a function of the old
state, and lemmas say what that function means. A property that the code does not have
is an if-and-only-if with the exact condition, beside a concrete state that shows the
failure. Storage that can fail is an arbitrary function of the call number, so that
error paths are proved for every pattern of failures.

## Model

| member | source | states |
|---|---|---|
| `LockResults.MutualExclusion` | src/lock_server.c:487-579 | in every reachable state active users of one lock on two mounts are all readers or all write-only users, however grants, invalidations, upgrades, shrinking and unlocks interleave |
| `LockResults.EitherOrder` | src/lock.c:636-684 | a grant and a later invalidation may arrive in either order; the early one waits for the old mode to match and both orders end in the same state, with the invalidated mode |
| `LockResults.OneOfEach` | src/lock_server.c:513-571 | at most one grant and one invalidation are outstanding for a mount, in flight or waiting to be applied |
| `LockResults.MessagesAreExpected` | src/lock.c:691-715 | what the client asserts about an incoming grant or invalidation holds in every reachable state |
| `LockResults.QuietMountAgrees` | src/lock_server.c:421-461 | a mount with nothing outstanding has exactly the mode that the server recorded |
| `LockResults.GrantApplies` | src/lock.c:654-670 | a grant that has arrived can always be applied |
| `LockResults.InvalidationsLower` | src/lock_server.c:206-212 | an invalidation goes from write to read or from a mode to null and never raises a mode |
| `LockResults.UsersWithinRecord` | src/lock.c:289-299 | a mount's users never exceed what the server has on record for it |
| `LockResults.GrantsInOrder` | src/lock_server.c:487-579 | over a whole run of one server grants follow the arrival order of requests and write versions strictly rise |
| `LockResults.WhyRequestsWait` | src/lock_server.c:638-675 | nothing is granted during recovery, and a request waits only for recovery or for an outstanding invalidation |
| `LockResults.NoDeadlock` | src/lock.c:751-838 | while a request waits, a protocol step is enabled or users of a mount hold up an invalidation |
| `LockProgress.StepLowers` | src/lock_server.c:487-579 | every step of the machinery, whichever comes next, lowers one measure of the work that is left |
| `LockProgress.RequestsAreGranted` | src/lock_server.c:487-579 | left to itself from any reachable state the machinery ends in a bounded number of steps, in any order; unless users block it then, every request that waited is granted and every mount has the mode on record |
| `LockProgress.SomeRunEnds` | src/lock.c:751-838 | from every state that the invariant allows there is such a run to its end |
| `LockProgress.IdleUsersBlockNothing` | src/lock.c:289-299 | mounts without users hold up nothing over a whole run |
| `LockServerProofs.GrantKeeps` | src/lock_server.c:537-575 | granting the request at the head keeps agreement of all mounts, exclusion, arrival order and rising write versions |
| `LockServerProofs.InvalidateKeeps` | src/lock_server.c:513-535 | moving every conflicting grant to the invalidated list, with its message, keeps the invariant |
| `LockServerProofs.ProcessKeeps` | src/lock_server.c:487-579 | the whole loop over waiting requests restores the full invariant |
| `LockClientProofs.ApplyGrantKeeps` | src/lock.c:636-684 | applying a grant keeps a mount in agreement with the server |
| `LockServerNode.ServerLock.ProcessWaiting` | src/lock_server.c:487-579 | the loops over the lists compute exactly the machine's processing step |
| `LockServerNode.ServerLock.SendInvalidations` | src/lock_server.c:513-531 | grants that conflict move to the invalidated list in order and each gets its message; the others stay |
| `LockServerNode.ServerLock.Request` | src/lock_server.c:370-411 | a request is queued behind the earlier ones, or refused for a bad mode with nothing changed |
| `LockServerNode.ServerLock.Response` | src/lock_server.c:421-461 | an answer succeeds exactly when the client has something invalidated; otherwise nothing changes |
| `LockServerNode.ServerLock.Farewell` | src/lock_server.c:842-905 | a departing client's entries leave every list and waiting requests go on |
| `LockClient.ClientLock.TryLock` | src/lock.c:958-1064 | an attempt uses the granted mode exactly when it matches, gives up, or leaves exactly one request outstanding |
| `LockClient.ClientLock.GrantWork` | src/lock.c:636-684 | a grant changes the mode only once the old mode matches |
| `LockClient.ClientLock.InvalidateWork` | src/lock.c:751-838 | an invalidation changes the mode only once the old mode matches and no user needs more |
| `WriteVersions.WriterHasLastGrant` | src/lock_server.c:497-558 | the write version that a holder of the write mode was granted last is the last one of all |
| `WriteVersions.LastIsHighest` | src/lock_server.c:497-558 | no mount was granted a version above the last, and no other mount the same |
| `WriteVersions.LastGrantIsNewer` | src/item.c:1828-1881 | an item stamped with the last granted version is newer than what any tree stores for its key |
| `StampedItems.VersionsDiffer` | src/item.c:1828-1881 | over every run of locks, writers and commits two mounts never store the same version, of any key |
| `StampedItems.MergeIsOrderFree` | src/forest.c:258-369 | so the merge of the trees of every forest that can come about does not depend on their order |
| `StampedItems.WriterIsNewest` | src/item.c:1828-1881 | what a writer stamps is newer than what any other mount has stamped or stored and no older than its own |
| `StampedItems.WriterMayStamp` | src/item.c:1828-1881 | a writer's version is one that the item cache's state machine asks its operations to have |
| `ItemTheorems.NeverStale` | src/item.c:1410-1537 | in every reachable state a clean cached item is what the forest stores and no cached version is behind it, whatever readers, commits, reclaim and other mounts do |
| `ItemTheorems.LookupsAgree` | src/item.c:1653-1680 | in every reachable state a lookup finds the forest overlaid with the dirty items |
| `ItemTheorems.RunsAreOperations` | src/item.c:1828-2031 | over any run the value of a key changes by the operations on it alone, with other mounts' steps allowed while this mount holds the key |
| `ItemTheorems.VersionsGrow` | src/item.c:2099-2213 | no step replaces a stored version by an older one while the mount holds the key |
| `ItemTheorems.ShrinkingReadersIsStale` | src/item.c:2411-2421 | without the check for active readers, reclaim lets a slow reader cache an old item: a concrete run |
| `ItemCache.Cache.Invalidate` | src/item.c:2324-2383 | exactly the given range is forgotten, whatever is in it, and every other cell is as it was |
| `ItemCache.Cache.TrySplitPage` | src/item.c:1110-1211 | dividing a page changes no cell, and pages stay disjoint |
| `ItemCache.Cache.InsertRead` | src/item.c:1481-1537 | pages that were read fill exactly the uncached keys |
| `ItemCache.Cache.LruShrink` | src/item.c:2391-2455 | reclaim forgets whole pages, none that is dirty, locked or in the range of an active reader |
| `ItemCache.Cache.CacheEmptyPage` | src/item.c:1220-1261 | pages stay disjoint exactly when no neighbour ends on the very end of the range |
| `ItemCache.Cache.ReadPages` | src/item.c:1410-1537 | uncached keys of the range that all trees speak for get the newest items, unless the range meets the first or last key |
| `ItemCache.Cache.GetCachedPage` | src/item.c:1546-1621 | afterwards the key is cached and what a look finds has not changed for any key |
| `ItemCache.Cache.Lookup` | src/item.c:1653-1680 | the value of the key in the cache or else the newest in the forest |
| `ItemCache.Cache.Next` | src/item.c:1716-1779 | the first live item from a key on, across pages that are read on the way; the errors exactly when there is none or the key is below the lock |
| `ItemCache.Cache.ItemCreate` | src/item.c:1828-1881 | an existing live item is an error; otherwise the cell of the key alone becomes the dirty item |
| `ItemCache.Cache.ItemUpdate` | src/item.c:1904-1961 | a missing item is an error; otherwise the cell of the key alone has the new value and version |
| `ItemCache.Cache.ItemDelete` | src/item.c:1971-2031 | an item that was never written is forgotten, and one that was stays as a dirty deletion |
| `ItemCache.Cache.WriteDone` | src/item.c:2220-2261 | dirty items become clean and persistent, deletions are gone, and no other cell changes |
| `ItemCache.Cache.GetPcpuPage` | src/item.c:926-971 | however old a cpu's references are, a page they find for a locked key is the cached page for it and has what the cache has |
| `ItemCache.Cache.AddPage` | src/item.c:2365-2373 | a page that meets no other is in the tree and its keys are in the table |
| `ItemCache.Cache.DropPage` | src/item.c:2349-2356 | the page is gone and the table still shows the pages of the cache one for one |
| `ItemCache.Cache.ChangePage` | src/item.c:736-816 | a page that keeps part of its range keeps its place in tree and table |
| `ItemPages.TrimPageIntersection` | src/item.c:736-816 | the result code says exactly how the ranges meet, and what is left of the page is its cells outside of the range |
| `ItemPages.SetSplitKeys` | src/item.c:1065-1097 | the halves meet, neither is empty and their bytes differ by no more than an item |
| `PageCache.EmptyFits` | src/item.c:1238-1261 | the exact condition under which the empty page does not overlap its neighbours |
| `PageCache.EmptyPageOverlaps` | src/item.c:1245-1257 | a neighbour on the end of the lock's range makes two pages share a key: a concrete state |
| `PerCpuPages.GetPcpuPage` | src/item.c:926-971 | a page that the fast path finds is the one that covers the key in the tree if and only if it is still in the tree, and it is for every key but zero |
| `PerCpuPages.GetPageForLockedKey` | src/item.c:926-971 | for a key of a zone in use the fast path only finds the page that covers the key in the tree |
| `PerCpuPages.ChangesKeep` | src/item.c:978-1053 | over any sequence of changes to pages the table of page keys stays consistent |
| `PerCpuPages.FoundIsCached` | src/item.c:926-971 | the page that is found knows what the cache knows of the key |
| `PerCpuPages.FirstKeyFindsRemoved` | src/item.c:1014-1018 | the cleared keys of a removed page cover key zero |
| `LogItems.DecodeEncode` | src/item.c:2171-2195 | what is written to a log tree reads back as the same item |
| `LogItems.NewestIs` | src/item.c:1316-1386 | merging trees one after the other leaves an item that no tree has a higher version of |
| `LogItems.AnyOrder` | src/forest.c:258-369 | with distinct versions the merge does not depend on the order of the trees |
| `LogItems.TiesFollowOrder` | src/item.c:1333-1338 | with equal versions it does: a concrete pair of trees |
| `ForestRead.ReadForest` | src/forest.c:258-369 | in the range that all trees spoke for each key has its newest item, whatever pages were split, and nothing is there outside of the lock's range |
| `ForestRead.ReadMissesItem` | src/forest.c:258-369 | for every key and value, a tree that stores the item beside a log tree without blocks whose bloom bits are set: the read fails |
| `ForestRead.ReadTree` | src/forest.c:228-242 | one more tree is merged and the range narrows around the key |
| `ForestRead.ReadItems` | src/btree.c:1799-1842 | a leaf delivers every item of the tree in the range it speaks for, in order |
| `ForestRead.ReadPageItem` | src/item.c:1316-1386 | an item replaces an older one of its key and touches no other |
| `ForestRead.CleanRead` | src/item.c:1453-1480 | outside of the range and deletions are dropped; a range at the first or last key loses everything |
| `ItemWrite.WriteDirty` | src/item.c:2099-2213 | exactly the dirty items are put in the log tree, each as its encoding |
| `ItemWrite.WrittenReadsBack` | src/item.c:2099-2213 | reading the log after a write gives the dirty items and otherwise what was there |
| `ItemCells.CommitKeepsOverlay` | src/item.c:2220-2261 | writing and then cleaning moves items from the overlay to the forest and never changes what is seen |
| `Keys.Compare` | src/key.h:116-125 | comparing fields is comparing 216-bit numbers, and only equal keys compare as equal |
| `Keys.CompareRanges` | src/key.h:133-141 | ranges compare as equal exactly when they share a key |
| `Keys.KeyCell.Increment` | src/key.h:143-164 | the carry over five fields adds exactly one, modulo the number of keys |
| `Keys.KeyCell.Decrement` | src/key.h:166-187 | the borrow over five fields takes exactly one away, modulo the number of keys |
| `AvlRoot.Root.Insert` | src/avl.c:269-295 | the node is between its neighbours in order; parent and child links agree, heights are exact and every node is balanced |
| `AvlRoot.Root.Delete` | src/avl.c:359-380 | only that node leaves the order, also when its successor is its own child; links, heights and balance are kept |
| `AvlRoot.Root.Relocate` | src/avl.c:386-403 | the node has another offset and the same place in the order |
| `AvlRoot.Root.RotateImbalance` | src/avl.c:242-267 | a node that is out of balance by two is replaced by its rotation, with all links right |
| `AvlRoot.Root.SwapWithSuccessor` | src/avl.c:314-357 | a node and its in-order successor change places without any other link being wrong |
| `AvlRoot.Root.Search` | src/avl.c:48-86 | finds the node, or the place where it would be linked with everything before it smaller and everything after it greater |
| `AvlRoot.Root.Next` | src/avl.c:108-125 | the in-order successor, or zero |
| `AvlRoot.Root.Prev` | src/avl.c:127-144 | the in-order predecessor, or zero |
| `Avl.HeightNeedsNodes` | src/avl.c:163-180 | a balanced tree of height h has at least Fib(h + 2) - 1 nodes |
| `LeafBlock.TreeIsShallow` | src/avl.c:163-170 | the tree of a leaf is at most 15 high, so that its 8-bit heights cannot overflow |
| `LeafHash.Search` | src/btree.c:253-278 | finds the item with the key exactly when the table holds it |
| `LeafHash.Insert` | src/btree.c:280-299 | the item is in the first free bucket from its home, around the end of the table |
| `LeafHash.Delete` | src/btree.c:311-338 | one item is gone and every other one is still found by probing from its home, also past the end of the table |
| `LeafHash.Change` | src/btree.c:340-362 | only the bucket of the moved item changes |
| `LeafArea.ValueArea.CompactValues` | src/btree.c:411-456 | all free space is in the middle and every item has its bytes, moved in place from the last value to the first |
| `LeafArea.ValueArea.DeleteValue` | src/btree.c:492-534 | freed and live values still tile the space above the middle and the last freed region is the highest |
| `LeafArea.ValueArea.CreateItem` | src/btree.c:464-483 | the value is stored under the others with its owner, and all other values are as they were |
| `LeafArea.ValueArea.UpdateValue` | src/btree.c:1521-1531 | the old value is freed and the new one is stored under the others for the same item; all other values are as they were and the byte count is right |
| `LeafBlock.Leaf.SearchBoth` | src/btree.c:1476-1519 | the hash table and the tree find the same item for every key |
| `LeafBlock.Leaf.CreateItem` | src/btree.c:545-567 | array, tree, hash table and heap agree again and the leaf maps one more key |
| `LeafBlock.Leaf.DeleteItem` | src/btree.c:577-614 | the same without the key; the last item takes its place everywhere, and an item that the caller goes on with is followed there |
| `LeafBlock.Leaf.MakeRoom` | src/btree.c:889-899 | a leaf that is less than 80% full always gets room for the largest item; otherwise it splits exactly when the middle is too small |
| `LeafBlock.Leaf.Insert` | src/btree.c:1476-1519 | search, compaction and creation composed: split, error or one more item |
| `LeafBlock.Leaf.Update` | src/btree.c:1543-1577 | search, compaction and the update of the value composed: split, error or the new value, with no item moved |
| `LeafMove.MoveItems` | src/btree.c:625-672 | whole items go from the end of one leaf to the near end of the other in order until enough bytes moved; the union of the two maps is kept, and it ends in the code's assertion exactly when the moved bytes exceed the destination's middle region |
| `LeafMove.SplitLeaf` | src/btree.c:873-940 | a leaf becomes a lower and an upper part that together map what it mapped, with half of the bytes on either side up to an item |
| `LeafJoin.JoinLeaf` | src/btree.c:949-1004 | what a join of two leaf blocks moves, and the exact condition under which an item does not fit |
| `LeafJoin.JoinRunsOut` | src/btree.c:986-994 | inserts and deletes that lead to two leaves for which it does not |
| `LeafRefines.TotalIs` | src/btree.c:101-104 | the byte count of a leaf block is the sum over its entries in key order |
| `LeafRefines.SplitRule` | src/btree.c:889-899 | a leaf block splits whenever the tree's leaf is full and only when it is heavy |
| `LeafRefines.Insert` | src/btree.c:1476-1519 | inserting into a leaf block does to its entries what the tree does to a leaf |
| `LeafRefines.Update` | src/btree.c:1543-1577 | updating in a leaf block does to its entries what the tree does to a leaf |
| `LeafRefines.Delete` | src/btree.c:1627-1668 | deleting from a leaf block does to its entries what the tree does to a leaf |
| `LeafRefines.MoveRefines` | src/btree.c:625-672 | moving items between leaf blocks moves the tree's entries |
| `BTreeRoot.Tree.Walk` | src/btree.c:1231-1401 | splits and joins keep the items and all invariants of the tree, every sequence of restarts ends, and the leaf that is reached is ready |
| `BTreeDescend.Descend` | src/btree.c:1231-1401 | one walk ends at the leaf, or changes the tree so that a measure of what is left to do falls |
| `BTreeDescend.SplitBlock` | src/btree.c:873-940 | the halves of a heavy block have room, neither is empty and both are below 80% |
| `BTreeDescend.JoinChild` | src/btree.c:949-1024 | a child takes the fewest entries of its neighbour that are as many bytes as it has, or all of them; items and bounds are kept and the walk is closer to its end |
| `BTreeWalk.MoveEntries` | src/btree.c:625-672 | entries go from one end to the near end of the other block in order, and no more of them than it takes |
| `BTreeRoot.Tree.Lookup` | src/btree.c:1430-1460 | the value that the tree maps the key to, or an error exactly when there is none |
| `BTreeRoot.Tree.Insert` | src/btree.c:1476-1519 | the map has the item, or an error says that the value is too long or the key is there |
| `BTreeRoot.Tree.Update` | src/btree.c:1543-1577 | the map has the new value, or an error says why not |
| `BTreeRoot.Tree.Force` | src/btree.c:1583-1621 | the map has the value whether or not it had the key |
| `BTreeRoot.Tree.Delete` | src/btree.c:1627-1668 | the map is without the key, and the whole tree goes only when it held one item |
| `BTreeRoot.Tree.InsertList` | src/btree.c:1853-1896 | reusing a leaf for sorted items gives the map that forcing them one by one gives, wherever a leaf without room in its middle is left |
| `BTreeIter.Next` | src/btree.c:1682-1738 | the least key from a key on, through the keys at which leaves are left; it always ends |
| `BTreeIter.Prev` | src/btree.c:1682-1738 | the greatest key up to a key, and an error exactly when there is none or key zero is hidden |
| `BTreeIter.PrevMissesZero` | src/btree.c:1726-1732 | a tree whose item with key zero is in a leaf of its own and is missed |
| `BTreeIter.JoinHidesZero` | src/btree.c:949-1024 | for any two leaves of items without values, where the second is low and one item shorter than the first, which has key zero: a walk to the second leaves key zero alone |
| `ExtentOps.InsertRefines` | src/ext.c:174-223 | an insert is the pointwise update of the block map if and only if no merge joins mapped with unmapped |
| `ExtentOps.InsertMerged` | src/ext.c:174-223 | an insert leaves extents maximally merged |
| `ExtentOps.RemoveRefines` | src/ext.c:230-259 | a remove takes exactly the range out of the block map and keeps extents merged |
| `ExtentOps.SetRefines` | src/ext.c:322-394 | a set is the pointwise update of the block map if and only if its merges are clean |
| `ExtentOps.SetMerged` | src/ext.c:357-375 | a set whose merges are clean (`SetClean`) keeps extents maximally merged if and only if it does not rewrite part of an extent with its own value |
| `ExtentOps.FlagsKeepSetClean` | src/ext.c:60-67 | merges are clean when equal flags agree on being mapped |
| `ExtentOps.ClearingLosesBlocks` | src/ext.c:60-67 | clearing blocks can drop mapped neighbours: a concrete store |
| `ExtentOps.ResettingSplits` | src/ext.c:357-375 | setting a block to the value it has can leave three extents: a concrete store |
| `ExtentStore.Store.ApplyChanges` | src/ext.c:125-158 | all of up to four changes are made or none, for every pattern of failing storage; online and offline counts stay the sums over extents |
| `ExtentStore.Store.InsertExt` | src/ext.c:174-223 | the extents are those of the specification, or as they were |
| `ExtentStore.Store.RemoveExt` | src/ext.c:230-259 | the same for a remove, with the error for each reason |
| `ExtentStore.Store.AllocExt` | src/ext.c:269-306 | the front of the next extent is taken, or nothing changes |
| `ExtentStore.Store.SetExt` | src/ext.c:322-394 | the same for a set |
| `AllocIndex.KeyRoundTrip` | src/alloc.c:76-106 | both keys of an extent give it back in arithmetic modulo 2^64 |
| `AllocIndex.KeyIsExt` | src/alloc.c:76-106 | items of either kind and free extents are in bijection |
| `AllocIndex.FirstIsLargest` | src/alloc.c:115-140 | the first item by negated length is a largest extent |
| `AllocIndex.FirstIsNext` | src/alloc.c:115-140 | the first item by last block is the next extent |
| `AllocIndex.Root.ExtInsert` | src/alloc.c:157-188 | both items and the total change or none of them, with an error exactly when the extent is stored or storage fails |
| `AllocIndex.Root.ExtRemove` | src/alloc.c:190-218 | both items and the total change or none of them, with an error exactly when the extent is not stored or storage fails |
| `AllocIndex.Root.AllocExt` | src/ext.c:269-306 | over the two indexes the front of a largest extent is taken |
| `AllocIndex.Root.InsertExt` | src/ext.c:174-223 | over the two indexes an extent is inserted and merged, or nothing changes |
| `AllocMove.Move` | src/alloc.c:775-819 | on every outcome the roots stay disjoint and their union is kept; on success exactly the total has moved, and it runs out only when there was less than the total |
| `AllocList.Add` | src/alloc.c:295-315 | the floating array stays in bounds and has the number at one of its ends |
| `AllocList.Remove` | src/alloc.c:320-335 | numbers leave from the front and the array starts again when it is empty |
| `MetaAlloc.ExactlyOnePlace` | src/alloc.c:496-594 | conservation of the sum means that every block number is in exactly one of list entries, list blocks, free extents and use |
| `MetaAlloc.Allocator.DirtyAllocBlocks` | src/alloc.c:496-594 | both first blocks are copied to numbers of their own list and the old numbers are freed, without losing one; it fails exactly when fewer than two are left |
| `MetaAlloc.Allocator.AllocMeta` | src/alloc.c:600-628 | a number is in use that was on the list, or nothing is, with the exact condition |
| `MetaAlloc.Allocator.FreeMeta` | src/alloc.c:630-658 | a number goes from use to the freed list exactly when there is room |
| `MetaAlloc.Allocator.NewPlace` | src/alloc.c:396-479 | each result of taking a number for a copy and freeing the old one has its exact condition; the undo fails exactly when the freed block is full and memory or the old number stands in the way |
| `MetaAlloc.Allocator.DirtyListBlock` | src/alloc.c:396-479 | copying a block of a list keeps every number, with the exact condition for each error and for the failed undo |
| `MetaAlloc.Allocator.TrimEmptyFirstBlock` | src/alloc.c:826-864 | the first block of any list is freed exactly when it is empty and its number can be freed, and nothing else changes |
| `MetaAlloc.CowTest` | src/alloc.c:875-891 | what the test of copies asks for at each height, in 32-bit arithmetic: nothing at height three, and more than a list can hold from four on |
| `MetaAlloc.Allocator.FillList` | src/alloc.c:909-960 | numbers go from a largest free extent to a list up to the target unless the test of copies stops it, and none is lost; the bad argument and the failed undo have exact conditions, and running out means that extents or numbers did |
| `MetaAlloc.Allocator.EmptyList` | src/alloc.c:967-1028 | all numbers go from a list to free extents unless the test of copies stops it, and none is lost; the insert never overlaps when each number is in one place; the undo of a copy fails only at tree height three, and then whenever the first copy is stuck |
| `MetaAlloc.Allocator.SpliceList` | src/alloc.c:1041-1085 | a list is put before another, the totals add up and none is lost; the undo of a copy fails exactly when the space to free numbers runs out before the blocks, the numbers and the memory do |
| `MetaAlloc.Allocator.PrepareCommit` | src/alloc.c:265-275 | a commit keeps all numbers where they are |
| `MetaAlloc.FreeUntilStuck` | src/alloc.c:464-470 | frees that lead to a state in which the undo of a copy fails |
| `DataAlloc.DataInfo.AllocData` | src/alloc.c:672-728 | blocks are the front of the cached extent or of a largest available one, by the size that is asked for, or nothing changes |
| `DataAlloc.DataInfo.FreeData` | src/alloc.c:739-758 | blocks that are in no other place go to a root, and then the insert never overlaps |
| `DataAlloc.DataInfo.PrepareCommit` | src/data.c:1487-1507 | the cached extent goes back and no block is lost, also when that fails |
| `FileData.SetRange` | src/data.c:134-162 | what a set of a file's extents maps, unmaps and loses, with counts that stay the sums over extents |
| `FileData.AllocBlock` | src/data.c:350-455 | every data block stays in one place on every path; the block and its preallocation are mapped as the source promises |
| `FileData.WriteUnwritten` | src/data.c:498-511 | a preallocated block becomes written where it is |
| `FileData.FallocateExtents` | src/data.c:803-891 | the range that was done is mapped, the rest is as it was and every block stays in one place |
| `FileTruncate.TruncateExtents` | src/data.c:180-255 | unmapped blocks are freed; what is lost is stated and is nothing unless extents clash |
| `FileTruncate.TruncateItems` | src/data.c:274-325 | the same over all transactions of a truncate or release |
| `FileTruncate.LostIsClash` | src/ext.c:60-67 | clearing a range loses a neighbour, and exactly its blocks, if and only if the neighbour is mapped to the block number that is the length of the range |
| `FileTruncate.ClashLoses` | src/data.c:236-250 | when the next extent clashes, clearing the range loses all of that extent's blocks |
| `FileTruncate.TruncatingLosesBlock` | src/data.c:236-250 | on every device that has room for it, a file of two extents mapped to real data blocks that loses a block |

## Findings

Where the code does not have a property that one would expect of it, the exact condition
is proved. The keys and states in the witnesses are the smallest that show it.

| what fails | source | exactly when | members |
|---|---|---|---|
| A join asserts that an item fits after it compared the middle region with the bytes it asks for. The last item can be more than that. | src/btree.c:986-994, src/btree.c:551 | the leaf is under a quarter full, its middle has at least as many bytes as its items, and fewer than the whole items that move | `LeafJoin.JoinLeaf`, `LeafJoin.JoinRunsOut` |
| Stepping back misses an item with key zero. | src/btree.c:1726-1732 | key zero is alone in the first leaf, whose parent key is then zero, and the next leaf has nothing at or below the key that is searched for (`HidesZero`); a join leads there | `BTreeIter.Prev`, `BTreeIter.PrevMissesZero`, `BTreeIter.JoinHidesZero` |
| A set merges an unmapped extent with a mapped one. | src/ext.c:60-67 | a neighbour with equal flags is mapped where the other is not (`SetClean` fails) | `ExtentOps.SetRefines`, `ExtentOps.ClearingLosesBlocks` |
| A set leaves extents that could be merged. | src/ext.c:357-375 | its merges are clean (`SetClean`) and it rewrites part of an extent with its own value (`SplitsSame`) | `ExtentOps.SetMerged`, `ExtentOps.ResettingSplits` |
| A truncate loses blocks of a file. | src/data.c:236-250, src/ext.c:60-67 | an extent is cleared to its end and the next one, with no flags, starts at the device block whose number is the cleared length (`Clashes`); data starts at block 144 (src/super.c:342-367), so the cleared length is at least that | `FileTruncate.TruncateExtents`, `FileTruncate.LostIsClash`, `FileTruncate.ClashLoses`, `FileTruncate.TruncatingLosesBlock` |
| An empty page overlaps a cached one. | src/item.c:1245-1257 | a neighbour ends or starts on the very end of the lock's range (`Touching`) | `ItemCache.Cache.CacheEmptyPage`, `PageCache.EmptyPageOverlaps` |
| A read caches nothing. | src/item.c:1453-1480 | the range that was read starts at the first or ends at the last of all keys, as stepping its ends wraps (`Kept`); no lock covers these keys | `ForestRead.CleanRead`, `ItemCache.Cache.ReadPages` |
| The per-cpu fast path finds a page that was removed. | src/item.c:1014-1018 | the key is zero; the zones in use start at one (src/format.h:476), so that no locked key is | `PerCpuPages.GetPcpuPage`, `PerCpuPages.GetPageForLockedKey`, `PerCpuPages.FirstKeyFindsRemoved` |
| A read fails though other trees have items. | src/forest.c:258-369 | a tree that has to be asked has no blocks, as when its bloom bits were set and nothing was written yet | `ForestRead.ReadForest`, `ForestRead.ReadMissesItem` |
| The merge depends on the order of the trees. | src/item.c:1333-1338 | two trees have the same version of a key; write versions rule it out | `LogItems.AnyOrder`, `LogItems.TiesFollowOrder`, `StampedItems.MergeIsOrderFree` |
| The undo of a failed copy of a list block fails and the code stops. | src/alloc.c:464-470 | the block of freed numbers is full while numbers are available, and the new block cannot be had or an old number is to be freed (`Stuck`); over a whole splice, the space to free runs out first (`SpaceRunsOut`) | `MetaAlloc.Allocator.NewPlace`, `MetaAlloc.Allocator.SpliceList`, `MetaAlloc.FreeUntilStuck` |
| The test of how much can be copied does not ask for what its comment says. | src/alloc.c:866-891 | the tree of free extents has height three, where it asks for nothing and always passes, or more, where no list is ever filled or emptied: the height is subtracted | `MetaAlloc.CowTest`, `MetaAlloc.Allocator.FillList`, `MetaAlloc.Allocator.EmptyList` |
| Reclaim without its check for readers makes the cache stale. | src/item.c:2411-2421 | a page in an active reader's range is forgotten: this is what the check is for | `ItemTheorems.ShrinkingReadersIsStale` |

## Left out

- LockClientProofs.ApplyGrantKeeps: a mount's state has no write version, refresh generation or roots; `WriteVersions` takes the versions from the log of grants instead.
- LockProgress.RequestsAreGranted: the users of mounts are given; new requests and users that come and go while the machinery works are not part of a run.
- MetaAlloc.Allocator.EmptyList: the condition for a failed undo before the call is exact for the first copied block and for each one (`DirtyListBlock`); over the loop it is shown to need tree height three and a full block of freed numbers.
- ItemCache.Cache.Invalidate: the assertion that an invalidated page is clean (src/item.c:656) is not part of it; what is there is forgotten.
- StampedItems.VersionsDiffer: the versions are those that one server grants while it lives, and a mount stamps an item with the last one it was granted.
- BTreeDescend.JoinChild: the tree's joins find their free space gathered; `LeafJoin.JoinLeaf` says what happens to leaf blocks when it is not.
- BTreeRoot.Tree.Walk: blocks are values and the walk goes down by recursion; copying blocks, their references and sequence numbers are not part of it, and neither is failing to read or allocate a block.
- AvlRoot.Root.Insert: nodes are named by offsets in a map and not by bytes of the block.
- LockServerNode.ServerLock.Farewell: one lock and one client; the tree of clients and the loop over all locks are not part of it.
- Networking, server failover and quorum: messages are delivered exactly once in any order, there is one server, and recovery starts from grants that agree with the mounts.
- Invalidating the cache, sending the answer and clearing the pending bit of a lock are one step.
- Locking keys of several locks at once, lock coverage, the grace period and the waiting queues of the kernel.
- The block cache, checksums and stale blocks: a reference always gives the right block.
- The hash of keys: any function to buckets.
- Page memory: whether there is room in a page is arbitrary, and packing a page is no change.
- Red-black trees of the kernel: pages and items are sets and maps.
- Write-only locks in the item cache: their forced creates and deletes are operations of `ItemCache.Cache` and not steps of `ItemProtocol`.
- The heights of the tree of free extents in `MetaAlloc`: any numbers, as its extents are a set there.
- Reads of list blocks that fail in src/alloc.c:583-588.
- The check of freed numbers against the device in src/alloc.c:231-238.
- Storage that fails while an undo is under way: the code stops the system there.
- Offsets of extents are unbounded in `Extents`; `AllocIndex` has 64-bit keys.
- Files without an inode in src/data.c:121-132, and waiting for offline data.
- The filesystem's inodes, directories, ioctls, transactions and request handlers.
