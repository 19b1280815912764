# Memory managers of the kernel, modelled and proved

This project models the memory-management backends of a small 32-bit x86 kernel and the
keyboard ring buffer, and proves what each of them promises:

- three stores of virtual memory areas (red-black tree, sorted array, maple tree) refine one
  abstract set of disjoint ranges (`VmaSpec`);
- two physical page allocators (buddy, bitmap) refine one set of free pages (`PageSet`), and
  their clients cannot tell them apart by what succeeds (`PmmEquivalence`);
- the buddy allocator serves blocks of every order from exactly the maximal free blocks;
- the two-level page tables behave as one flat map from virtual pages to frames and rights,
  through single-page operations, batches with rollback, the boot mapping, and whole runs of
  batches, heap growth and the dropping of the identity half, with an exact account of the
  frames that are lost and of those the kernel still reaches (`VmmRuns`);
- two kernel heaps (first fit, slab) hand out disjoint live objects and lose no byte;
- both page allocators manage exactly the memory that the firmware's map, the kernel image and
  the boot information leave for them (`BitmapInit.Init`, `BuddyInit.Init`);
- the keyboard queue is first-in first-out under every interleaving of single loads and
  stores, and loses exactly the keys whose check finds it full.

| component | files |
|---|---|
| shared sizes, options, facts on sequences and sets | `Prelude.dfy` |
| VMA contract | `VmaSpec.dfy` |
| red-black tree | `RbShape.dfy` (links as a tree with a hole), `RbBalance.dfy` (colours, heights), `RbSplice.dfy` (removal), `RbFixup.dfy` (rotations and fix-up loops), `RbTree.dfy` (the store) |
| sorted array, equivalence | `SortedArray.dfy`, `VmaEquivalence.dfy` |
| maple tree | `MapleNodes.dfy`, `MapleSplit.dfy`, `MapleCount.dfy` (pool bound), `MapleCascade.dfy`, `MapleLimit.dfy` (the declared node and its nine pivots), `Maple.dfy` (the store) |
| page allocator contract, memory map | `PageSet.dfy`, `Arithmetic.dfy`, `MemoryMap.dfy` |
| page allocators compared | `PmmEquivalence.dfy` |
| buddy | `BuddyBlocks.dfy`, `RingLists.dfy`, `BuddyZone.dfy`, `BuddyPmm.dfy`, `BuddyInit.dfy` (choosing the memory and placing the zone) |
| bitmap | `BitmapRegion.dfy`, `BitmapLayout.dfy` (where a region goes), `BitmapPmm.dfy`, `BitmapBuild.dfy` (the regions from the map), `BitmapInit.dfy` |
| page tables | `PageTables.dfy`, `Vmm.dfy`, `VmmPages.dfy` (batches), `VmmBoot.dfy` (initial map), `VmmCoverage.dfy` (what the initial map reaches), `VmmArea.dfy` (steps of the area above the direct map), `VmmRuns.dfy` (whole runs) |
| first-fit heap | `HeapBlocks.dfy`, `FirstFit.dfy` |
| slab heap | `SlabPage.dfy`, `SlabLists.dfy`, `SlabHeap.dfy`, `SlabSlots.dfy` (the slots by class), `SlabStats.dfy`, `SlabSupply.dfy` (its pages from the page tables) |
| keyboard | `KeyboardRing.dfy` |

`dafny verify dfyconfig.toml` checks everything.

Pointers become indices or addresses: static node pools are arrays of records with reserved
indices for the sentinel and for NULL, block and slab headers are records or words at
addresses. Machine integers are 32 bits wide and wrap where the code can make them wrap
(`BitmapLayout`, `FirstFit.Align8`, `VmmPages.TotalBytes`, `VmmBoot.PmmEnd`,
`VmmBoot.BumpStart`). Ghost state
names what the fields stand for, and every state-changing method says what it does to it.

Where the code does less than its comments say, the model follows the code:

- The buddy allocator's free flag stands only on heads of free blocks, so its double-free test
  and its usage query are wrong for the inside of a free block
  (`BuddyPmm.FlagMissesInterior`, `BuddyPmm.FreshZonePageOneLooksUsed`).
- A maple node is declared with nine pivots, but a leaf gets one for each of its ten entries.
  The tenth addition to a leaf writes the word behind the array, which holds the entry count
  and the leaf flag; afterwards the leaf says it has one entry (`MapleLimit.InsertIntoLeaf`).
  A run of additions of disjoint ranges stays inside the array if and only if there are at
  most nine (`MapleLimit.OverrunsAtNine`, `Maple.AddAll`), and `Maple.TenthAddition` goes
  one too far. The results on larger trees are for leaves with ten pivots.
- The maple tree's overlap check looks into one leaf only; the comment beside it calls this
  sufficient. `MapleCascade.LeafSeesOverlap` says exactly when it is, and
  `Maple.HiddenOverlap` reaches a case where it is not; `Maple.Store.Answer` says that such a
  range is accepted.
- A memory-map range that starts in the last two pages of the 32-bit space can be given a
  layout outside itself (`BitmapLayout.ComputeLayout`, `BitmapLayout.WrapExample`), and a range to reserve that ends in
  the last page is not reserved (`BitmapInit.MarkUsedRange`, `BitmapInit.TopRangeMissed`).
- The initial map is meant to cover all managed memory, but takes its end to be the lowest
  managed address plus the number of managed pages. With gaps between the regions the last
  pages are left out (`VmmCoverage.ReachesAllManaged`, `VmmCoverage.GapMissed`).
- The kernel heap's window of addresses is meant to be apart from the range of the virtual
  page allocator, but nothing stops the bump pointer at the window. From there on batches can
  be mapped over heap pages, whose frames are then lost (`VmmArea.Take`); with managed memory
  that ends at 512 MiB the first batch already is (`VmmRuns.FirstBatchHitsHeap`).
- Dropping the identity half, which the kernel does on every boot, does not give back the
  frames of its page tables. These are the frames lost, and below the heap's window there are
  no others: one for each table of the identity half, so 4 to 256 of them (`VmmArea.Drop`,
  `VmmRuns.BootAndRun`, `VmmRuns.DropLoses`).
- When the direct map passes 512 MiB the heap's pages replace a part of it. A free frame or
  page table is then out of the kernel's reach exactly if it lies where the heap hides the
  direct map (`VmmRuns.ReachedExactly`, `VmmRuns.BootAndRun`).
- The buddy allocator skips the kernel image and the boot information only if they end,
  rounded up to a page, inside the best memory range. In the last, partial page of that range
  they do not, and the whole pages they touch are handed out (`BuddyInit.Place`,
  `BuddyInit.PartialPageManaged`).
- The bounds check of the virtual page allocator is not exact from 2^20 pages on
  (`VmmPages.BoundsCheckExact`, `VmmPages.WholeSpacePasses`).
- First-fit requests above 2^32 - 8 bytes round to 0 (`FirstFit.AlignExact`).

## Model

| member | source | states |
|---|---|---|
| `VmaSpec.StepKeepsDisjoint` | src/include/kernel/vma.h:24-25 | every operation of the abstract store keeps the ranges valid and pairwise disjoint |
| `VmaSpec.HitUnique` | src/include/kernel/vma.h:24-25 | in a disjoint set at most one range holds an address, so any answer that is a hit is the answer |
| `VmaSpec.OrderedUnique` | src/kernel/mm/vma_sorted_array.c:381-398 | a set of disjoint ranges has only one address-ordered listing, whichever store produced it |
| `RbFixup.NodeStore.RotateLeft` | src/kernel/mm/vma_rbtree.c:157-172 | a left rotation rewrites exactly the links of x, its right child, that child's inner subtree and the parent, the sentinel's parent field aside |
| `RbFixup.NodeStore.RotateRight` | src/kernel/mm/vma_rbtree.c:174-189 | the mirror image of the left rotation |
| `RbShape.ZipRotate` | src/kernel/mm/vma_rbtree.c:157-189 | at any place in the tree, those link changes represent the rotated subtree in the same surroundings |
| `RbShape.RotateContent` | src/kernel/mm/vma_rbtree.c:157-189 | rotation keeps the in-order listing and the node identities |
| `RbShape.SideByPointer` | src/kernel/mm/vma_rbtree.c:262-321 | comparing x with the left link of its parent tells left from right correctly, also when x is the shared sentinel |
| `RbBalance.InsertRedUncle` | src/kernel/mm/vma_rbtree.c:204-246 | recolouring under a red uncle moves the one red-red violation two levels up |
| `RbBalance.InsertInner` | src/kernel/mm/vma_rbtree.c:204-246 | the inner-grandchild rotation turns the violation into an outer one |
| `RbBalance.InsertOuter` | src/kernel/mm/vma_rbtree.c:204-246 | recolouring and rotating the grandparent removes the violation and keeps every black height |
| `RbFixup.NodeStore.InsertFixup` | src/kernel/mm/vma_rbtree.c:204-246 | from one possible red-red edge at z to a balanced tree with a black root and the same listing, in at most one round more than z is deep |
| `RbBalance.DeleteRedSibling` | src/kernel/mm/vma_rbtree.c:262-321 | the red-sibling rotation keeps the missing black at x and gives it a black sibling |
| `RbBalance.DeleteBlackNephews` | src/kernel/mm/vma_rbtree.c:262-321 | with two black nephews the missing black moves up to the parent |
| `RbBalance.DeleteNearNephew` | src/kernel/mm/vma_rbtree.c:262-321 | the near-nephew rotation makes the far nephew red |
| `RbBalance.DeleteFarNephew` | src/kernel/mm/vma_rbtree.c:262-321 | the far-nephew rotation supplies the missing black and ends the fix-up |
| `RbFixup.NodeStore.DeleteFixup` | src/kernel/mm/vma_rbtree.c:262-321 | from one missing black at x, possibly the sentinel, to a balanced tree with a black root and the same listing, in at most one round more than x is deep |
| `RbSplice.ZipSplice` | src/kernel/mm/vma_rbtree.c:330-339 | transplanting the only child of a node, or the sentinel, leaves a well-linked tree without that node, and x's parent field is its place |
| `RbSplice.DetachDeep` | src/kernel/mm/vma_rbtree.c:535-608 | taking the successor out from deep in the right subtree and handing it that subtree keeps all links |
| `RbSplice.SuccessorBalance` | src/kernel/mm/vma_rbtree.c:535-608 | the successor takes the removed node's place and colour; what is left is balanced but for the successor's own black |
| `RbSplice.SuccessorListing` | src/kernel/mm/vma_rbtree.c:535-608 | the listing after replacing a node by its successor lacks exactly that node's range |
| `RbTree.Store.PoolAlloc` | src/kernel/mm/vma_rbtree.c:116-133 | the pool hands out a free node exactly while it has one, and no node in the tree |
| `RbTree.Store.PoolFree` | src/kernel/mm/vma_rbtree.c:135-139 | a freed node joins the free list and nothing else changes |
| `RbTree.Store.FindSlot` | src/kernel/mm/vma_rbtree.c:458-493 | the descent meets an overlapping range, or ends at the one empty place with all ranges to the left ending before `start` and all to the right starting at or after `end`; the power of two of its steps is at most (n+1)^2 |
| `RbTree.Store.LinkAndFix` | src/kernel/mm/vma_rbtree.c:502-518 | the new node joins the listing at its place and the tree is balanced again, in at most one round more than the old tree is high |
| `RbTree.Store.Add` | src/kernel/mm/vma_rbtree.c:388-521 | in every valid state (search order, parent links, black root and sentinel, no red-red edge, equal black heights, node accounting) the result code and the new set are those of the abstract store, so a range is refused below capacity exactly when it is invalid or overlaps some stored range; the new state is valid |
| `RbTree.Store.Remove` | src/kernel/mm/vma_rbtree.c:535-608 | removes exactly the range with this start, or reports -1; keeps the red-black invariant |
| `RbTree.Store.Extract` | src/kernel/mm/vma_rbtree.c:535-600 | the node's range leaves the listing and the tree is balanced again, in at most one round more than the old tree is high |
| `RbTree.Store.Find` | src/kernel/mm/vma_rbtree.c:629-645 | returns the range holding the address, or none when there is none, in as many steps as there are nodes on the way to it, a number whose power of two is at most (n+1)^2 |
| `RbBalance.HeightBound` | src/kernel/mm/vma_rbtree.c:28-37 | a balanced tree of n ranges has height at most 2 log2(n+1) |
| `RbBalance.DepthWithin` | src/kernel/mm/vma_rbtree.c:28-37 | no place in the tree is deeper than the tree is high |
| `SortedArray.Store.LowerBound` | src/kernel/mm/vma_sorted_array.c:143-154 | first index whose range starts at or after the target |
| `SortedArray.Store.UpperBound` | src/kernel/mm/vma_sorted_array.c:156-167 | first index whose range starts after the target |
| `SortedArray.Store.Find` | src/kernel/mm/vma_sorted_array.c:350-361 | the range holding the address, or none when there is none |
| `SortedArray.Store.Add` | src/kernel/mm/vma_sorted_array.c:233-276 | the abstract store's result code and new set, kept sorted |
| `SortedArray.Store.Remove` | src/kernel/mm/vma_sorted_array.c:298-313 | the abstract store's result code and new set, kept sorted |
| `SortedArray.InsertFits` | src/kernel/mm/vma_sorted_array.c:233-276 | a range that overlaps nothing fits at its lower bound between neighbours |
| `VmaEquivalence.ExecTree` | src/kernel/mm/vma_rbtree.c:715-723 | one operation on the tree store, with the outputs of the abstract store |
| `VmaEquivalence.ExecArray` | src/kernel/mm/vma_sorted_array.c:417-425 | one operation on the array store, with the outputs of the abstract store |
| `VmaEquivalence.RunBoth` | src/kernel/mm/vma_rbtree.c:388-709 | over every operation sequence both stores give equal codes, found ranges and counts, those of the abstract set, and end with equal listings |
| `VmaEquivalence.RunMaple` | src/kernel/mm/vma_maple.c:424-687 | with leaves that have a pivot for every entry: on every run that only adds mutually disjoint ranges, looks up and counts, the maple tree answers as the abstract set, hence as the other two stores |
| `VmaEquivalence.ExecMaple` | src/kernel/mm/vma_maple.c:746-754 | one operation other than removal on the maple store, with the outputs of the abstract store |
| `MapleNodes.KidsInOrder` | src/kernel/mm/vma_maple.c:271-289 | the address shares of a node's children follow one another in order |
| `MapleNodes.ScanIsChild` | src/kernel/mm/vma_maple.c:282-289 | the pivot scan stops at the child whose share holds the address |
| `MapleNodes.NodeOfLevel` | src/kernel/mm/vma_maple.c:65-68 | at each level exactly one node is responsible for an address |
| `MapleNodes.FindExact` | src/kernel/mm/vma_maple.c:666-687 | a stored area that contains an address is in the leaf the descent reaches |
| `MapleSplit.InsertHolds` | src/kernel/mm/vma_maple.c:241-251 | with a pivot for every entry: inserting into a leaf with room keeps keys sorted inside their separators, and adds exactly the new area |
| `MapleSplit.SplitHolds` | src/kernel/mm/vma_maple.c:341-389 | splitting a full leaf or inner node keeps depth, order, parent links and the stored set; the right half waits for a parent |
| `MapleSplit.AttachHolds` | src/kernel/mm/vma_maple.c:299-316 | inserting key and new half next to the split child makes the tree whole again |
| `MapleSplit.ScanFindsChild` | src/kernel/mm/vma_maple.c:566-575 | scanning the parent's pivots for the key passed up finds the split child's position |
| `MapleSplit.NewRootHolds` | src/kernel/mm/vma_maple.c:546-564 | a new root over both halves raises every leaf by one level and keeps the invariant |
| `MapleCascade.HalfOfChild` | src/kernel/mm/vma_maple.c:590-607 | comparing the two keys tells which half of a split parent holds the child |
| `MapleCascade.AfterAttach` | src/kernel/mm/vma_maple.c:577-612 | one round of the upward loop leaves exactly one split to pass on, one level higher |
| `MapleCount.InsertTally` | src/kernel/mm/vma_maple.c:241-251 | an insertion adds one entry to the leaves and changes no other level's count |
| `MapleCount.AtMostFourLevels` | src/kernel/mm/vma_maple.c:100-110 | with at most 256 areas there are at most four levels |
| `MapleCount.LeafRoom` | src/kernel/mm/vma_maple.c:512-517 | the level counts of a tree about to split a full leaf add up to fewer than 64 nodes |
| `MapleCount.RoomForLeaf` | src/kernel/mm/vma_maple.c:512-517 | a node is left in the pool whenever a full leaf must be split |
| `MapleCount.RoomForParent` | src/kernel/mm/vma_maple.c:577-583 | a node is left whenever a full parent must be split, so that failure branch is unreachable |
| `MapleCount.RoomForRoot` | src/kernel/mm/vma_maple.c:546-553 | a node is left whenever a new root is needed, so that failure branch is unreachable |
| `MapleCascade.LeafSeesOverlap` | src/kernel/mm/vma_maple.c:454-482 | looking only into the leaf where the range starts finds an overlap if and only if there is one, unless the range runs past the leaf's right bound and meets nothing in the leaf |
| `MapleCascade.DisjointSeen` | src/kernel/mm/vma_maple.c:454-482 | the situation the check misses always hides an overlap, and disjoint ranges never meet it |
| `MapleCascade.UnseenAt` | src/kernel/mm/vma_maple.c:447-482 | the situation the check misses is decided in the one leaf the descent reaches |
| `MapleCascade.SampleHidesOverlap` | src/kernel/mm/vma_maple.c:454-482 | in every tree holding eleven given ranges, the two pages around the first leaf's right bound overlap a stored range that the check does not see |
| `Maple.HiddenOverlap` | src/kernel/mm/vma_maple.c:454-482 | with leaves of ten pivots, eleven additions reach a store with an overlap the check does not see |
| `Maple.Store.FindChild` | src/kernel/mm/vma_maple.c:282-289 | first pivot above the address |
| `Maple.Store.FindLeaf` | src/kernel/mm/vma_maple.c:447-452 | the descent ends in the leaf responsible for the address |
| `Maple.Store.Find` | src/kernel/mm/vma_maple.c:666-687 | the area containing the address, or none when there is none |
| `Maple.Store.Clash` | src/kernel/mm/vma_maple.c:472-482 | whether an area in this leaf meets the range |
| `Maple.Store.FindSlot` | src/kernel/mm/vma_maple.c:227-234 | position that keeps the leaf sorted |
| `Maple.Store.AdoptAll` | src/kernel/mm/vma_maple.c:377-382 | the moved children, and no other node, get the new parent |
| `Maple.Store.PassUp` | src/kernel/mm/vma_maple.c:535-613 | one step of the upward loop: at rest again, or the same situation one level higher |
| `Maple.Store.PassAllUp` | src/kernel/mm/vma_maple.c:530-613 | the loop ends with the tree at rest and the stored set unchanged |
| `Maple.Store.Add` | src/kernel/mm/vma_maple.c:424-617 | with a pivot for every entry: the abstract store's result code and new set, for every range except those of the situation the leaf check misses |
| `Maple.Store.Answer` | src/kernel/mm/vma_maple.c:424-482 | the answer before anything is stored is that of the abstract store exactly when the range is not one the leaf check misses; those are accepted |
| `Maple.AddAll` | src/kernel/mm/vma_maple.c:424-617 | adding up to 256 pairwise disjoint ranges in any order: with leaves of ten pivots all are accepted, and exactly these are stored; some addition writes past the nine declared pivots exactly when there are more than nine ranges |
| `Maple.TenthWrite` | src/kernel/mm/vma_maple.c:241-251 | for every store with nine areas and every admissible tenth: the words of its one leaf, with the tenth written at the place the search finds, no longer represent the leaf, and their count says one |
| `Maple.TenthAddition` | src/kernel/mm/vma_maple.c:241-251 | a concrete store and a concrete tenth range, with the words before and after |
| `MapleLimit.CountWord` | src/kernel/mm/vma_maple.c:118-122 | the count and the leaf flag are the two lowest bytes of the word behind the pivots |
| `MapleLimit.InsertWord` | src/kernel/mm/vma_maple.c:241-251 | on all words of a node: below nine entries the pivots get the new one at its place and the count goes up; at nine the last pivot lands in the word of the count and is then incremented |
| `MapleLimit.InsertIntoLeaf` | src/kernel/mm/vma_maple.c:115-127 | with page-aligned ranges the words go on representing the leaf if and only if it had at most eight entries; after the tenth insertion the count is one and the leaf flag is a byte of an address |
| `MapleLimit.PivotsAfter` | src/kernel/mm/vma_maple.c:105-106 | in any tree an insertion stays inside the nine pivots exactly when the leaf had at most eight entries, and the halves of a split leaf always do |
| `MapleLimit.OneLeaf` | src/kernel/mm/vma_maple.c:495-501 | a tree with at most nine areas is one leaf that holds them all |
| `MapleLimit.OverrunsAtNine` | src/kernel/mm/vma_maple.c:495-500 | in every store with at most nine areas the next addition writes past the declared pivots exactly when there are nine |
| `BuddyBlocks.SingleBitXor` | src/kernel/mm/pmm_buddy.c:203-205 | xor with a block size adds or subtracts it by the parity of the block number |
| `BuddyBlocks.SingleBitAndNot` | src/kernel/mm/pmm_buddy.c:292-306 | clearing the size bit gives the lower buddy |
| `BuddyBlocks.BuddyAndParent` | src/kernel/mm/pmm_buddy.c:203-205 | the computed index is the head of the other half of the parent block |
| `BuddyBlocks.MaximalUnique` | src/kernel/mm/pmm_buddy.c:253-306 | no page lies in two maximal free blocks |
| `BuddyBlocks.AddBlock` | src/kernel/mm/pmm_buddy.c:292-306 | a block of any order that becomes free absorbs exactly the maximal blocks inside the block it completes |
| `BuddyBlocks.TakeBlock` | src/kernel/mm/pmm_buddy.c:253-282 | taking a block of any order out of a maximal block leaves exactly the buddies along the split |
| `BuddyBlocks.RoomExact` | src/kernel/mm/pmm_buddy.c:253-259 | some maximal block has order k or more exactly when some aligned block of order k is wholly free |
| `BuddyBlocks.BuddiesNotBothFree` | src/kernel/mm/pmm_buddy.c:292-306 | below the largest order the buddy of a maximal block is not free |
| `RingLists.ListInit` | src/kernel/mm/pmm_buddy.c:147-150 | a head linked to itself is the empty ring |
| `RingLists.ListAddTail` | src/kernel/mm/pmm_buddy.c:156-161 | the ring gains the node at its end; all other links are unchanged |
| `RingLists.ListDel` | src/kernel/mm/pmm_buddy.c:163-168 | the ring loses exactly this node, which is then linked to itself |
| `RingLists.ListPop` | src/kernel/mm/pmm_buddy.c:170-175 | the first node leaves the ring |
| `BuddyZone.Zone.AddFree` | src/kernel/mm/pmm_buddy.c:210-222 | a block enters the list of its order, its head is flagged and both counters agree again |
| `BuddyZone.Zone.RemoveFree` | src/kernel/mm/pmm_buddy.c:227-233 | a block leaves the list of its order, its flag is cleared and both counters agree again |
| `BuddyZone.Zone.constructor` | src/kernel/mm/pmm_buddy.c:493-505 | carving from the lowest page up lists exactly the maximal blocks of the full zone |
| `BuddyZone.Zone.LargestOrder` | src/kernel/mm/pmm_buddy.c:495-503 | the largest aligned block that fits at an index |
| `BuddyZone.Zone.Alloc` | src/kernel/mm/pmm_buddy.c:253-282 | for every order: none exactly when no aligned block of that size is wholly free; otherwise the front of a smallest free block that is big enough leaves the set, its head records the order, and the lists are again the maximal blocks |
| `BuddyZone.Zone.SplitDown` | src/kernel/mm/pmm_buddy.c:253-282 | splitting lists the upper halves, which with the rest are the maximal blocks without the block taken |
| `BuddyZone.Zone.MergeUp` | src/kernel/mm/pmm_buddy.c:292-306 | coalescing stops at the maximal block around the block freed; the absorbed buddies have left their lists |
| `BuddyZone.Zone.Free` | src/kernel/mm/pmm_buddy.c:292-306 | an aligned block of any order without a free page joins the free set and the lists are again the maximal blocks |
| `BuddyZone.Zone.PageIsUsed` | src/kernel/mm/pmm_buddy.c:585-589 | answers 0 exactly for heads of free blocks |
| `BuddyPmm.Pmm.AllocPage` | src/kernel/mm/pmm_buddy.c:312-319 | the page allocator's contract: NULL exactly when nothing is free, otherwise exactly that page leaves the free set |
| `BuddyPmm.Pmm.FreePage` | src/kernel/mm/pmm_buddy.c:321-344 | adds back exactly the named page if it is managed and not free |
| `BuddyPmm.ListedBlocks` | src/kernel/mm/pmm_buddy.c:210-233 | every listed block is aligned to its size, inside the zone, wholly free, and its buddy is not listed beside it |
| `BuddyPmm.BlocksPartitionFree` | src/kernel/mm/pmm_buddy.c:253-306 | every free page lies in exactly one listed block |
| `BuddyPmm.CountsAgree` | src/kernel/mm/pmm_buddy.c:210-233 | the free total is the number of free pages, the weighted sum of the lists, and the zone size less the held pages |
| `BuddyPmm.SameFreeSameBlocks` | src/kernel/mm/pmm_buddy.c:253-306 | the block layout is a function of the free set alone |
| `BuddyPmm.TakeBlock` | src/kernel/mm/pmm_buddy.c:253-282 | for a client that holds blocks of any order, disjoint and together all that is not free: a request fails exactly when no aligned block of that size is wholly free, and otherwise the client holds one block more |
| `BuddyPmm.ReleaseBlock` | src/kernel/mm/pmm_buddy.c:292-306 | releasing any block held makes exactly its pages free and keeps that |
| `BuddyPmm.Run` | src/kernel/mm/pmm_buddy.c:253-306 | in every run of requests and releases the blocks held are disjoint and, with the free pages, make up the zone; each request moves one wholly free aligned block of its order to the blocks held, exactly if there is one, and each release makes its pages free again |
| `BuddyPmm.FreeAll` | src/kernel/mm/pmm_buddy.c:493-505 | releasing every held block, of whatever orders and in any order, restores exactly the blocks of a freshly carved zone |
| `BuddyPmm.FlagMissesInterior` | src/kernel/mm/pmm_buddy.c:338-342 | the flag that the double-free test and page_is_used rely on is wrong for a free page exactly when it is not the head of its block |
| `BuddyPmm.FreshZonePageOneLooksUsed` | src/kernel/mm/pmm_buddy.c:585-589 | a concrete free page that is reported as used |
| `BuddyInit.PickBest` | src/kernel/mm/pmm_buddy.c:396-421 | the first of the longest ranges whose bytes are all usable memory of one entry (kind 1, ending below 2^64) from 1 MiB up to 0xFFFFFFFF, or none if there is no such byte |
| `BuddyInit.ManageableExact` | src/kernel/mm/pmm_buddy.c:407-416 | the part taken of an entry is all its usable bytes, so its longest range |
| `BuddyInit.Place` | src/kernel/mm/pmm_buddy.c:423-470 | placed exactly when the range has 32 pages and 17 whole ones from an allowed page on, one past each reserved range that ends before the last whole page does; the records begin at the first allowed page, take 12 bytes a page rounded up, and with the zone fill the range up to its last whole page; they keep clear of the kernel image, or the boot information, if and only if this ends, rounded up to a page, inside the range or starts after the last whole page |
| `BuddyInit.Init` | src/kernel/mm/pmm_buddy.c:396-507 | the allocator over that zone of the first longest usable range, all of its pages free; none exactly when the range is too small |
| `BuddyInit.PartialPageManaged` | src/kernel/mm/pmm_buddy.c:437-451 | boot information in the last, partial page: the whole page where it begins is free to be handed out |
| `BitmapRegion.SetFree` | src/kernel/mm/pmm_bitmap.c:192-196 | setting a bit takes exactly that page out of the free set |
| `BitmapRegion.ClearFree` | src/kernel/mm/pmm_bitmap.c:198-202 | clearing a bit puts exactly that page into the free set |
| `BitmapRegion.InitAndFreeTail` | src/kernel/mm/pmm_bitmap.c:352-364 | afterwards exactly the pages after the bitmap are free and the count is exact |
| `BitmapRegion.Recount` | src/kernel/mm/pmm_bitmap.c:402-421 | recounting the bits gives the number of free pages |
| `BitmapRegion.FindFreeIndex` | src/kernel/mm/pmm_bitmap.c:423-450 | the lowest free page, or nothing exactly when none is free |
| `BitmapLayout.StorageBytes` | src/kernel/mm/pmm_bitmap.c:325-327 | the rounded bitmap size is a page for every 32768 pages begun, always fewer pages than the region has |
| `BitmapLayout.BitmapEndGrows` | src/kernel/mm/pmm_bitmap.c:332-338 | a later start never ends its bitmap earlier |
| `BitmapLayout.FirstTry` | src/kernel/mm/pmm_bitmap.c:302-346 | the first pass fails when no page suits, takes the first page that does, or moves the start past the boot information, before which none does |
| `BitmapLayout.SecondTry` | src/kernel/mm/pmm_bitmap.c:302-346 | from there the second pass settles the layout, so there is no third |
| `BitmapLayout.OverlapMeans` | src/kernel/mm/pmm_bitmap.c:303-338 | the overlap test finds a byte in both ranges exactly when there is one |
| `BitmapLayout.ChosenPlaced` | src/kernel/mm/pmm_bitmap.c:318-346 | the chosen region lies inside the usable range, off the kernel image, with a bit for each page and its bitmap off the boot information |
| `BitmapLayout.TryWraps` | src/kernel/mm/pmm_bitmap.c:302-346 | from a start in the last two pages the rounded start wraps to 0 or passes the end: exactly what is answered then |
| `BitmapLayout.WrapExample` | src/kernel/mm/pmm_bitmap.c:310-346 | a concrete usable range near the top of memory whose layout lies outside it |
| `BitmapLayout.ComputeLayout` | src/kernel/mm/pmm_bitmap.c:282-350 | for a usable range that starts at or below 0xFFFFE000 a layout is found if and only if some page suits (8 whole pages from it, the kernel image not met, the bitmap off the boot information), and goes from the first such page to the last whole one; for a range that starts above, also exactly when one is found, and it lies outside the range |
| `BitmapPmm.TurnReaches` | src/kernel/mm/pmm_bitmap.c:687-688 | going round from any start reaches every region |
| `BitmapPmm.Pmm.FindPage` | src/kernel/mm/pmm_bitmap.c:687-704 | with a page free somewhere the round-robin search finds one, the lowest of the first region in turn that has any |
| `BitmapPmm.Pmm.AllocPage` | src/kernel/mm/pmm_bitmap.c:673-708 | the page allocator's contract: NULL exactly when nothing is free, otherwise exactly that page leaves the free set; cached counts stay exact, and the next search starts from the region served |
| `BitmapPmm.Pmm.FindRegion` | src/kernel/mm/pmm_bitmap.c:723-734 | the region holding a page address, if any |
| `BitmapPmm.Pmm.FreePage` | src/kernel/mm/pmm_bitmap.c:710-748 | adds back exactly the named page if a region holds it; otherwise changes nothing |
| `BitmapPmm.StateTake` | src/kernel/mm/pmm_bitmap.c:693-701 | taking one page of one region keeps all regions, the address set and the totals consistent |
| `BitmapPmm.StateGive` | src/kernel/mm/pmm_bitmap.c:741-744 | the same for giving one back |
| `BitmapBuild.ClipExact` | src/kernel/mm/pmm_bitmap.c:618-651 | an entry is accepted, and clipped, to its usable bytes: kind 1, from 1 MiB up to 0xFFFFFFFF |
| `BitmapBuild.RegionCount` | src/kernel/mm/pmm_bitmap.c:556-558 | there are as many regions as entries with room for one, up to 32 |
| `BitmapBuild.MakeRegion` | src/kernel/mm/pmm_bitmap.c:560-574 | the region of an accepted entry exists exactly when some page suits; it starts at the first such page, ends with the last whole page, and all pages after its bitmap are free |
| `BitmapBuild.AddRegion` | src/kernel/mm/pmm_bitmap.c:548-577 | with fewer than 32 regions an accepted entry adds exactly one, that region, if some page of it suits, and none otherwise; the regions stay apart |
| `BitmapBuild.BuildRegions` | src/kernel/mm/pmm_bitmap.c:616-657 | the regions are those of the entries with room for one, in the order of the map, up to 32 |
| `BitmapBuild.ManagedExactly` | src/kernel/mm/pmm_bitmap.c:616-657 | a page is managed, or free at first, exactly when one of the first 32 such entries has a suiting page at or below it, or one whose bitmap ends at or below it, and the page lies below the entry's last whole page's end |
| `BitmapInit.RecomputeTotals` | src/kernel/mm/pmm_bitmap.c:539-546 | the sums of the regions' counts are the number of pages and the number of free page addresses |
| `BitmapInit.MarkUsedRange` | src/kernel/mm/pmm_bitmap.c:239-252 | reserves exactly the pages touching the range, and nothing at all when its end is above 0xFFFFF000; so the range is reserved if and only if its end is at or below 0xFFFFF000 or no free page touched it |
| `BitmapInit.TopRangeMissed` | src/kernel/mm/pmm_bitmap.c:239-252 | a concrete range near the top whose first page stays free |
| `BitmapInit.Init` | src/kernel/mm/pmm_bitmap.c:605-671 | in terms of the map, the kernel and the boot information alone: which pages are managed, and that the free pages are exactly those of them past their region's bitmap that touch neither kernel nor boot information; the search starts with the first region |
| `BitmapInit.FreeIsTail` | src/kernel/mm/pmm_bitmap.c:352-364 | in every valid state no page holding a bitmap is free, so none is handed out |
| `PmmEquivalence.BuddyAlloc` | src/kernel/mm/pmm_buddy.c:312-319 | a client's request succeeds exactly when a page is free, and gives it a page it did not hold |
| `PmmEquivalence.BuddyRelease` | src/kernel/mm/pmm_buddy.c:321-344 | releasing any held page makes exactly one more page free |
| `PmmEquivalence.BitmapAlloc` | src/kernel/mm/pmm_bitmap.c:673-708 | a client's request succeeds exactly when a page is free, and gives it a page it did not hold and that stores no bitmap |
| `PmmEquivalence.BitmapRelease` | src/kernel/mm/pmm_bitmap.c:710-748 | releasing any held page makes exactly one more page free |
| `PmmEquivalence.RunBoth` | src/kernel/mm/pmm_buddy.c:595-609 | from equally many free pages, every sequence of requests and releases gets the same answers from both backends and leaves equally many pages free |
| `PageTables.WriteEntry` | src/kernel/mm/vmm.c:247-247 | writing one table entry changes the flat map at that page only |
| `PageTables.AddTable` | src/kernel/mm/vmm.c:159-193 | a zeroed table in a free frame changes no translation and adds one frame to the tables |
| `PageTables.GrantUser` | src/kernel/mm/vmm.c:225-238 | adding the user bit to a directory entry changes no translation |
| `PageTables.DropTable` | src/kernel/mm/vmm.c:468-473 | clearing a directory entry unmaps exactly its 1024 pages |
| `PageTables.RightsAreThePages` | src/kernel/mm/vmm.c:225-247 | the rights the processor computes from both levels are those of the page's own entry |
| `Vmm.AddressSpace.EnsurePageTable` | src/kernel/mm/vmm.c:144-194 | succeeds exactly when the table exists or a frame is free; no translation changes; the frame taken is the new table |
| `Vmm.AddressSpace.MapPage` | src/kernel/mm/vmm.c:200-263 | on success the flat map changes at exactly this page, to the frame and rights asked for; on failure nothing changes; success exactly when both addresses are aligned and a table is there or can be made |
| `Vmm.AddressSpace.UnmapPage` | src/kernel/mm/vmm.c:265-294 | exactly this page becomes unmapped |
| `Vmm.AddressSpace.GetPhysical` | src/kernel/mm/vmm.c:515-540 | reads the flat map |
| `Vmm.AddressSpace.UnmapIdentity` | src/kernel/mm/vmm.c:444-480 | once paging is on, exactly the pages below the kernel half become unmapped; exactly the present directory entries below 768 are cleared |
| `Vmm.DroppedTables` | src/kernel/mm/vmm.c:459-472 | clearing them takes exactly the frames of their tables out of the tables |
| `VmmPages.MapBatch` | src/kernel/mm/vmm.c:594-611 | maps distinct frames taken from the allocator page by page, with every frame accounted for |
| `VmmPages.TabledNext` | src/kernel/mm/vmm.c:594-611 | the tables made so far are those the pages so far need, and the cost is exact |
| `VmmPages.NeedGrows` | src/kernel/mm/vmm.c:594-611 | a batch that stops early was short of the frames it needs in all |
| `VmmPages.Release` | src/kernel/mm/vmm.c:628-635 | clears exactly the range and returns exactly the frames mapped there; does nothing from an unaligned address |
| `VmmPages.ClearUndoesFill` | src/kernel/mm/vmm.c:628-635 | clearing a filled range clears it as it was before; that is the map before exactly when the range was unmapped |
| `VmmPages.GiveBack` | src/kernel/mm/vmm.c:628-635 | after a rollback every frame is free or a page table again, those of the pages not reached included; from an unmapped range the allocator lacks only frames that became page tables |
| `VmmPages.BoundsCheckExact` | src/kernel/mm/vmm.c:584-589 | the 32-bit bounds check agrees with the true bound exactly when the count is below 2^20 or the wrapped byte count is still too big |
| `VmmPages.WholeSpacePasses` | src/kernel/mm/vmm.c:586-589 | a request for 2^20 pages passes the check at every bump address although it does not fit |
| `VmmPages.AllocPages` | src/kernel/mm/vmm.c:578-637 | succeeds exactly when the request passes the checks and enough frames are free for the pages and their missing tables, and then maps distinct fresh frames; a failed call clears the range, and if that was unmapped changes no translation and takes only page tables |
| `VmmPages.FreePages` | src/kernel/mm/vmm.c:639-671 | unmaps the range and returns every frame mapped in it; an unaligned range is left alone |
| `VmmBoot.MapBoth` | src/kernel/mm/vmm.c:364-379 | one more page of the identity and kernel-half maps, at the cost of the tables it needs |
| `VmmBoot.Init` | src/kernel/mm/vmm.c:322-442 | the map ends where base plus page count, the kernel image, 16 MiB and 1 GiB say; succeeds exactly with enough frames for the tables, and every frame is then free or a table; the map is exactly identity plus kernel half, the bump pointer is the first multiple of 4 MiB at or above it, with everything above unmapped, or is 0 exactly when the direct map passes 0x3FC00000 bytes |
| `VmmCoverage.ManagedBase` | src/kernel/mm/pmm_bitmap.c:758-769 | the lowest base of all regions |
| `VmmCoverage.PmmEndExact` | src/kernel/mm/vmm.c:341-345 | base plus page count never passes the true end of managed memory, and meets it exactly when there are no gaps |
| `VmmCoverage.ReachesAllManaged` | src/kernel/mm/vmm.c:326-353 | the initial map reaches every managed page if and only if managed memory ends within 1 GiB and has no gaps or ends below 16 MiB or the kernel's end |
| `VmmCoverage.GapMissed` | src/kernel/mm/vmm.c:341-345 | two regions with a hole of one MiB between them: a free page lies almost one MiB past the end of the map |
| `VmmCoverage.ReachesWholeZone` | src/kernel/mm/pmm_buddy.c:568-578 | under the buddy backend, which has one zone, the map reaches every managed page if and only if the zone ends within 1 GiB |
| `VmmBoot.OnlyDirectMapLeft` | src/kernel/mm/vmm.c:444-480 | after the identity half is dropped exactly the kernel half's direct map is left |
| `VmmArea.AreaFilled` | src/kernel/mm/vmm.c:594-611 | mapping a batch keeps one page per frame, and keeps every frame accounted for if and only if its range was unmapped |
| `VmmArea.AreaUndone` | src/kernel/mm/vmm.c:628-635 | a batch that ran out of memory after k pages loses no frame if and only if those k were unmapped |
| `VmmArea.AreaReleased` | src/kernel/mm/vmm.c:659-670 | giving up a range loses nothing |
| `VmmArea.AreaGrown` | src/kernel/mm/heap_first_fit.c:134-155 | a heap page mapped loses no frame if and only if it lies above the direct map at an unmapped page |
| `VmmArea.Take` | src/kernel/mm/vmm.c:578-637 | in every state of a run a batch meets what allocation needs; one that succeeds loses no frame if and only if its range was unmapped, which it is below the heap's window |
| `VmmArea.Give` | src/kernel/mm/vmm.c:639-671 | releasing a range above the direct map, mapped or not, unmaps exactly it and frees its frames if it is aligned, and changes nothing otherwise; the run state and every frame are kept |
| `VmmArea.GrowPage` | src/kernel/mm/heap_slab.c:162-187 | one more heap page succeeds exactly with enough frames, and loses none while the bump pointer is below the window |
| `VmmArea.Drop` | src/kernel/mm/vmm.c:444-480 | dropping the identity half loses exactly the frames of the tables below directory entry 768: none if and only if no such entry is present; nothing else changes |
| `VmmRuns.Run` | src/kernel/mm/vmm.c:444-671 | over every sequence of batches, releases, heap growth and dropping of the identity half each step changes map, directory, free frames and bump pointer as its operation says and gives its answer; each frame belongs to one page; the frames lost are those of the tables dropped, if any, and no others as long as the bump pointer has not passed the start of the heap's window; the direct map stays as it was but for the heap's pages |
| `VmmRuns.ReachedExactly` | src/include/kernel/vmm.h:77-89 | a free frame or page table is reached through the direct map exactly if it lies below the map's end and not where the heap's pages are mapped over the direct map |
| `VmmRuns.BootAndRun` | src/kernel/mm/vmm.c:322-671 | for every run, traced step by step from the initial map on: free frames, tables and mapped frames are together the frames of the start less those lost, which are none before the identity half is dropped and afterwards as many as the map has tables for it; every free frame and table is reached as the row above says, so up to the map's end always if this is at most 512 MiB or the heap has not grown |
| `VmmRuns.IdentityTables` | src/kernel/mm/vmm.c:364-385 | after the initial map the tables of the identity half are as many as the map needs for it |
| `VmmRuns.DropLoses` | src/kernel/core/kmain.c:180-189 | every boot with at least 512 free frames that drops the identity half loses between 4 and 256 of them |
| `VmmRuns.StartsBelow` | src/include/kernel/vmm.h:93-104 | the bump pointer starts at or below the heap's window exactly when the direct map ends at 512 MiB or below; otherwise the direct map lies over the window |
| `VmmRuns.FirstBatchHitsHeap` | src/kernel/mm/vmm.c:578-611 | with the direct map up to 512 MiB the first batch is mapped over the heap's first page and its frame is lost |
| `FirstFit.AlignExact` | src/kernel/mm/heap_first_fit.c:83-83 | rounding up to 8 adds less than 8 and is at least the request exactly up to 2^32 - 8; above, it is 0 |
| `HeapBlocks.InOrder` | src/kernel/mm/heap_first_fit.c:115-122 | blocks of a tiling follow one another by address |
| `HeapBlocks.SplitRep` | src/kernel/mm/heap_first_fit.c:244-256 | the three header writes of a split represent the split tiling, with inverse next and prev links |
| `HeapBlocks.MergeRep` | src/kernel/mm/heap_first_fit.c:115-122 | the two header writes of a merge represent the merged tiling |
| `HeapBlocks.HeaderMissesPayloads` | src/kernel/mm/heap_first_fit.c:244-264 | writing a block's header touches no live payload |
| `HeapBlocks.InsideMissesPayloads` | src/kernel/mm/heap_first_fit.c:246-250 | writing the new header inside a free block touches no live payload |
| `FirstFit.AllocMeans` | src/kernel/mm/heap_first_fit.c:240-268 | allocation keeps the tiling coalesced and adds exactly one payload; a block that exceeds the rounded request by more than 24 is split, and a free block of the remainder less 16 follows it, otherwise it is handed out whole |
| `FirstFit.FreeMeans` | src/kernel/mm/heap_first_fit.c:325-343 | freeing removes exactly that payload and leaves no two free neighbours |
| `FirstFit.LiveDisjoint` | src/kernel/mm/heap_first_fit.c:235-273 | live payloads are aligned, inside the heap and pairwise disjoint with room for headers |
| `FirstFit.NothingLive` | src/kernel/mm/heap_first_fit.c:167-178 | with nothing live the heap is one free block of heap size less a header |
| `FirstFit.BytesConserved` | src/kernel/mm/heap_first_fit.c:351-369 | used bytes, free bytes and headers of free blocks add up to the heap size |
| `FirstFit.SumsOf` | src/kernel/mm/heap_first_fit.c:351-369 | the sums are the numbers and the bytes of the live payloads, with their headers, and of the free ones |
| `FirstFit.SameLiveSameBlocks` | src/kernel/mm/heap_first_fit.c:235-346 | the block layout is a function of the live payloads alone |
| `FirstFit.Heap.constructor` | src/kernel/mm/heap_first_fit.c:167-178 | one free block over the whole region |
| `FirstFit.Heap.MergeWithNext` | src/kernel/mm/heap_first_fit.c:115-122 | the tiling with blocks i and i+1 merged, represented in memory, live payloads untouched |
| `FirstFit.Heap.FindFit` | src/kernel/mm/heap_first_fit.c:240-241 | the first free block that is big enough |
| `FirstFit.Heap.Alloc` | src/kernel/mm/heap_first_fit.c:235-273 | first fit on the tiling: NULL exactly when no free block is big enough; the payload covers the request if and only if this is at most 2^32 - 8 bytes, and is then less than 32 bytes longer; a longer rest stays free behind it; live payloads keep their contents |
| `FirstFit.Heap.MergeForward` | src/kernel/mm/heap_first_fit.c:329-335 | the forward loop merges the next block exactly when it is free |
| `FirstFit.Heap.Free` | src/kernel/mm/heap_first_fit.c:309-346 | frees exactly the named live payload, with two-way coalescing; other live payloads keep their contents; NULL and pointers outside the heap change nothing |
| `FirstFit.Heap.Statistics` | src/kernel/mm/heap_first_fit.c:351-369 | the numbers and the bytes of the live and of the free payloads, 16 bytes of header with each live one; they balance against the heap size |
| `FirstFit.Heap.FreeEach` | src/kernel/mm/heap_first_fit.c:309-346 | freeing every live payload in any order leaves one free block of the whole heap |
| `SlabPage.CapacityFits` | src/kernel/mm/heap_slab.c:199-201 | the seven classes hold 126, 63, 31, 15, 7, 3 and 1 objects, as many as fit in the page after the header |
| `SlabPage.FindFirstSet` | src/kernel/mm/heap_slab.c:134-145 | the first free slot, or nothing exactly when none is free |
| `SlabPage.NewSlab` | src/kernel/mm/heap_slab.c:194-219 | all slots below the capacity are free and no others |
| `SlabPage.TakeSlot` | src/kernel/mm/heap_slab.c:287-289 | clearing the bit and decrementing keeps the count equal to the set bits |
| `SlabPage.GiveSlot` | src/kernel/mm/heap_slab.c:336-339 | setting the bit and incrementing keeps the count equal to the set bits |
| `SlabPage.ObjectPlace` | src/kernel/mm/heap_slab.c:291-295 | an object lies in its page past the header, and page and slot can be computed back from its address |
| `SlabLists.UnlinkChain` | src/kernel/mm/heap_slab.c:348-351 | unlinking the j-th slab leaves the list without it |
| `SlabLists.Unlink` | src/kernel/mm/heap_slab.c:348-351 | taking a slab off its list leaves all other slabs on the lists they belong on |
| `SlabLists.Push` | src/kernel/mm/heap_slab.c:353-355 | pushing a slab on the list it belongs on completes the lists |
| `SlabHeap.FindCache` | src/kernel/mm/heap_slab.c:229-234 | the smallest class that fits, or none above 2048 |
| `SlabHeap.Heap.GetPage` | src/kernel/mm/heap_slab.c:162-187 | the next page, unless the region is used up or a page beyond the committed part cannot be mapped |
| `SlabHeap.Heap.EnsurePartial` | src/kernel/mm/heap_slab.c:274-279 | a partial slab for the class, new if there is none; fails exactly when one is needed and no page is to be had; no object changes |
| `SlabHeap.Heap.TakeSlotOf` | src/kernel/mm/heap_slab.c:281-304 | the lowest free slot of the first partial slab becomes live, and no other; a slab that fills up changes lists |
| `SlabHeap.Heap.Alloc` | src/kernel/mm/heap_slab.c:262-305 | NULL exactly for size 0, size above 2048, or no slab and no page; otherwise exactly one new live object of the right class, in the lowest free slot of its slab; a slab, and a page, are added exactly when the class has no partial slab |
| `SlabHeap.Heap.Locate` | src/kernel/mm/heap_slab.c:319-334 | from the pointer alone, the slab and slot that allocation chose |
| `SlabHeap.Heap.RemoveFrom` | src/kernel/mm/heap_slab.c:348-351 | walking the full list finds the slab and takes it out |
| `SlabHeap.Heap.Free` | src/kernel/mm/heap_slab.c:316-357 | exactly this object stops being live; all list and count invariants are kept |
| `SlabHeap.LiveObjectsApart` | src/kernel/mm/heap_slab.c:291-295 | live objects do not overlap and lie inside their page past the header |
| `SlabHeap.OnExactlyOneList` | src/kernel/mm/heap_slab.c:297-302 | a slab is on its partial list exactly while it has a free slot and on its full list otherwise, once, and on no other |
| `SlabSlots.HeadShowsFree` | src/kernel/mm/heap_slab.c:274-279 | a class has a partial slab exactly while one of its slots is free |
| `SlabSlots.FreeTaken` | src/kernel/mm/heap_slab.c:281-289 | an allocation without a new page takes one slot out of the free slots of its class |
| `SlabSlots.FreeAdded` | src/kernel/mm/heap_slab.c:194-219 | a page added for a class brings it as many free slots as the class has room for in a page |
| `SlabSlots.ServeFree` | src/kernel/mm/heap_slab.c:262-305 | while a slot of the class is free, a request is served from one and no page is taken |
| `SlabSlots.FillPage` | src/kernel/mm/heap_slab.c:262-305 | with no slot of the class free, the page added for it serves 126, 63, 31, 15, 7, 3 or 1 requests, at 40 bytes into the page and then one object after the other, before another page is wanted |
| `SlabStats.SlotCount` | src/kernel/mm/heap_slab.c:371-371 | capacity less free count is the number of live slots of a slab |
| `SlabStats.CountsLive` | src/kernel/mm/heap_slab.c:369-381 | summed over distinct slabs, the counts are the numbers of live objects and of free slots on them |
| `SlabStats.LiveEverywhere` | src/kernel/mm/heap_slab.c:369-381 | the live objects on all slabs, each once, are all the live objects |
| `SlabStats.WalkPartial` | src/kernel/mm/heap_slab.c:370-376 | the sums over a partial list |
| `SlabStats.WalkFull` | src/kernel/mm/heap_slab.c:377-380 | the sums over a full list, all of whose slots are in use |
| `SlabStats.SumsFit` | src/kernel/mm/heap_slab.c:199-201 | used bytes, free bytes and a header for each slab fit into the pages used so far |
| `SlabStats.ListsOfClass` | src/kernel/mm/heap_slab.c:369-381 | the two lists of a class give the bytes of its live objects and of its free slots |
| `SlabStats.Statistics` | src/kernel/mm/heap_slab.c:362-382 | the numbers of live objects and of free slots; each counts 32, 64, 128, 256, 512, 1024 or 2048 bytes by its class; the heap size is the distance from the window's start to the next page, and the other sums with 40 bytes for each slab fit into it |
| `SlabSupply.Prepare` | src/kernel/mm/heap_slab.c:168-171 | a page is supplied exactly when the class has no free slot, no committed page is left, and frames are free for a page and a table it may need |
| `SlabSupply.Supply` | src/kernel/mm/heap_slab.c:170-182 | the page at the end of the committed part can be mapped exactly when frames are free for it and a table it may need |
| `SlabSupply.Alloc` | src/kernel/mm/heap_slab.c:262-305 | over the page tables: NULL exactly for size 0, size above 2048, or when the class has no free slot and the window is used up or frames are short; otherwise exactly one new live object |
| `SlabSupply.LiveMapped` | src/kernel/mm/heap_slab.c:162-187 | every live object lies on a mapped page |
| `KeyboardRing.RoomTest` | src/kernel/drivers/keyboard.c:39-43 | the producer's test recognises a full buffer exactly |
| `KeyboardRing.ProducerKeeps` | src/kernel/drivers/keyboard.c:37-47 | every load or store of the producer keeps the invariant |
| `KeyboardRing.ConsumerKeeps` | src/kernel/drivers/keyboard.c:49-62 | every load or store of the consumer keeps the invariant |
| `KeyboardRing.RunKeeps` | src/kernel/drivers/keyboard.c:37-62 | every interleaving keeps the invariant |
| `KeyboardRing.Fifo` | src/kernel/drivers/keyboard.c:37-62 | in every interleaving the characters read are in order a prefix of those accepted, at most 127 pending |
| `KeyboardRing.UnreadKept` | src/kernel/drivers/keyboard.c:45-46 | no step of the producer changes a slot that holds an unread character |
| `KeyboardRing.DropsAndMisses` | src/kernel/drivers/keyboard.c:40-57 | a character is dropped exactly when 127 are pending at its check, and a get is empty exactly when nothing is pending at its check |
| `KeyboardRing.RunAccepts` | src/kernel/drivers/keyboard.c:37-47 | what a run from any reachable state adds to the accepted characters: those put in it whose check does not find 127 pending |
| `KeyboardRing.KeysAccepted` | src/kernel/drivers/keyboard.c:37-47 | in every interleaving the accepted characters, and the one of a put past its check, are in order the keys put without those whose check found 127 pending |
| `KeyboardRing.Drains` | src/kernel/drivers/keyboard.c:49-62 | without further keys the main loop reads everything accepted, four steps a character |
| `KeyboardRing.Keyboard.HandlerStep` | src/kernel/drivers/keyboard.c:37-47 | one load or store on the shared fields: a put takes the key's character, drops it exactly at 127 pending, writes it into the next slot, and publishes it |
| `KeyboardRing.Keyboard.MainLoopStep` | src/kernel/drivers/keyboard.c:49-62 | one load or store on the shared fields: a get that finds something pending completes with the oldest unread character |

## Left out

- Red-black fix-up branches for the two sides are one branch with a direction flag `onLeft`; the names and strings of areas are the stored pointer values; the dump functions are not modelled.
- The exhausted-pool branch of adding to the red-black tree cannot be reached below capacity and has no counterpart.
- VmaEquivalence.RunMaple: excludes removals and overlapping ranges, for which the maple store does not promise a full result, and is about leaves with a pivot for every entry.
- Maple.Store.Add: excludes ranges whose overlap the leaf check misses (`MapleCascade.Unseen`); `Maple.Store.Answer` says that the code accepts them, which breaks disjointness.
- Maple.HiddenOverlap: takes leaves with a pivot for every entry, which the declared node does not have.
- Maple.AddAll: what a leaf does after a tenth entry has overwritten its count is not modelled; `overrun` only tells that this happens.
- Maple removal, which leaves stale separators and never frees nodes, is not modelled; all maple results are for runs of additions.
- Maple leaves have one pivot per slot, except in `MapleLimit`, where they are the words of the declared node. The entry arrays are sequences as long as the entry count, so the shifting loops are sequence insertions, and a leaf slot holds the area itself instead of a pointer into the area pool, which has as many records as the count check allows.
- BuddyPmm.Pmm.FreePage: requires that a page inside a free block is not freed again; the flag test does not see it.
- Buddy page records and their list links are two arrays; bit operations on page indices are given by their binary digits; a page record takes the 12 bytes its fields have on this machine, not the 16 its comment says; finding the memory map among the boot information is not modelled.
- BitmapPmm.Pmm.FreePage: requires that clients do not return the pages that hold a bitmap; the code would accept them.
- The table of bitmap regions is a sequence of records that is replaced when a region changes, and the bitmap bytes are part of the record, not of the managed memory; the counters' resynchronisation inside allocation is unreachable in every valid state.
- BitmapInit.Init: requires disjoint memory-map entries that start at or below 0xFFFFE000, and kernel and boot information ending at or below 0xFFFFE000; Multiboot2 tag parsing and the self-test are not modelled.
- TLB flushes, control registers and the enabling of paging are not modelled; a frame's contents are kept only while it is a page table.
- VmmPages.AllocPages: for a request that passes the checks it assumes fewer than 2^20 pages and that no page of the range is mapped to a free frame or a page table (which `VmmRuns` proves of every run); the registration of the range with the area store is left out, and the wrapped byte count for larger requests is shown by VmmPages.WholeSpacePasses.
- VmmPages.FreePages: requires a range that ends at or below 2^32 and of which no page is mapped to a page table's own frame.
- VmmRuns.Run: page tables are read and written by their physical address; a step that uses a table out of the kernel's reach (`VmmRuns.ReachedExactly`) would in fact read or write whatever is mapped in its place.
- VmmRuns.BootAndRun: other callers that map single pages in the same addresses (shell commands) take no part in it.
- The rollback loop and the release loop of the virtual page allocator share one method with a flag for the extra unmapping.
- The first-fit heap does not grow: no caller reaches that code. The region must end at least 16 bytes below 2^32.
- FirstFit.Heap.Free: requires a live pointer or one whose header lies outside the heap; the code does not detect other pointers.
- SlabHeap.Heap.Free: requires a live pointer, so the out-of-range slot branch is not reached; double frees are not detected by the code.
- Slab headers are records keyed by page, their 32-bit bitmap words are sequences of bits, and the heads of the partial and full lists are one array; whether a page can be mapped is an input of SlabHeap.Heap.Alloc, which SlabSupply.Alloc gets from the page tables just before instead of inside the call.
- SlabHeap.Heap.RemoveFrom: the slab's bits are set after the list walk instead of before it; the walk does not read them.
- The translation of scan codes to characters, with its shift and prefix state, is not modelled.
- Dispatch layers, shell, console, descriptor tables, interrupt controllers and self-tests are not modelled.
