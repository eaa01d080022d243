# ALMOS kernel core: a Dafny model

ALMOS is a kernel for many-core machines. This project models the parts of it that rest on an invariant no
single function checks, and proves what they are for: the physical page allocator, copy-on-write fork, the
index of memory regions with its red-black tree, the slab and heap allocators, the round-robin scheduler, the
event listeners, the radix tree, streaming MD5, and the small concurrent protocols (barrier, ticket lock,
read-write lock, single-producer ring).

Code that updates records in place is a class whose methods are proved against value-level specifications;
concurrent code is a state machine in which every shared read or write is one step, proved over every schedule.

| files | models | main results |
|---|---|---|
| buddy_math, buddy_tiling, buddy | kernel/mm/ppm.c | allocation fails iff no aligned run is free; blocks always tile the pages; free blocks are a function of the free pages |
| cow_pages, cow_fork | kernel/mm/vmm.c, kernel/mm/vm_region.c | any run of mmap, munmap, fork, exit, load and store reads what eager copying would, up to the first munmap of a region whose partial page was accessed, fork with one that is not zero, or access past a region, and no further; how many frames are lost on the way |
| rb_zipper, rb_erase, rbtree | kernel/libk/rbtree.c | insertion and deletion keep order, balance and parent links; next and previous follow the order |
| keysdb, regions | kernel/kern/keysdb.c, kernel/mm/vm_region.c, kernel/mm/vmm.c | tree, list and key table agree, and a fault refills the table; placement is sound and complete |
| bitmap, slab_pages, slab | kernel/mm/kcm.c, kernel/libk/bits.c | live blocks never overlap; allocation fails only without pages; when the page layout fits |
| heap | kernel/mm/heap_manager.c | headers always tile the heap; first fit; coalescing |
| scheduler | kernel/kern/rr-sched.c | every runnable thread is in exactly one queue; fairness over any run; who is set aside to migrate |
| event_queues, event_order, local_events, remote_events | kernel/kern/event.c | no event is lost or delivered twice, under any sends by handlers and any interleaving; whose turn it is at every delivery; every call ends with its event put or deferred |
| radix | kernel/kern/radix.c | the growing tree is a map over all 32-bit keys |
| md5 | kernel/libk/md5.c | the digest is that of the padded message, byte by byte, and does not depend on how the message is cut |
| barrier, ticket_lock, rwlock, kfifo | kernel/kern/mcs_sync.c, rwlock.c, kfifo.c | safety and progress over every schedule; every call is answered; no reader overtakes a queued writer |
| arithmetic, collections | | shared facts about division, finite sets and lists |

Where the code does something other than it promises, the model follows the code; the exact condition is proved, and an
input that fails is given:

- Region limits are bytes, but fork and unmapping count whole pages: what is stored on the last, partial page of a region
  is lost to a child and outlives the region (`CowFork.Kernel.Step` with `Clear`, `CowFork.TailLost`,
  `CowFork.FiveThousandBytes`); the byte at vm_limit is served too (`CowFork.LimitExample`). At exit only the frame of
  such a page is lost, and every later read agrees (`CowFork.Kernel.ExitTask`).
- A page table that is no multiple of the largest block (`BuddyMath.BuddiesInsideIff`, `BuddyMath.OnePageMore`).
- A failed allocation during copy-on-write (`CowFork.Kernel.DoCow`, `CowFork.StarvedExample`).
- A fixed region that runs into the next one (`RegionIndex.Vmm.AttachFixed`, `RegionIndex.FixedOverlap`), and a request
  larger than the user space (`RegionIndex.Vmm.AttachAnywhere`, `RegionIndex.LimitGuard`, `RegionIndex.OversizeAccepted`).
- Unmapping a region whose keys are not bound (`RegionIndex.Vmm.Munmap`, `RegionIndex.UnboundRefused`).
- Slab blocks of 32 bytes (`SlabPages.LayoutFits`, `SlabPages.SmallBlocksOverrun`), and watermarks that never ask for a
  page (`Slab.Kcm.Alloc`, `Slab.NeverAsks`).
- Heap requests that wrap around (`HeapManager.Heap.Malloc`, `HeapManager.EffectiveIff`, `HeapManager.HugeRequest`), and
  blocks before the hint (`HeapManager.MissesIff`, `HeapManager.MissedBlock`).
- A handler's event that is less urgent than the first one delivered can be passed over (`EventOrder.UrgentIff`,
  `EventOrder.LeftOver`, `LocalEvents.PassedExample`), and an urgent event can wait without an interrupt
  (`RemoteEvents.CallAlone`, `RemoteEvents.UrgentWaits`).
- A NULL item in the radix tree (`Radix.RadixTree.Insert`, `Radix.NullInsert`).

## Model

| member | source | states |
|---|---|---|
| `BuddyMath.BuddyHalf` | kernel/mm/ppm.c:362-381 | the exclusive-or with the block size gives the other half of the block of the next order |
| `BuddyMath.BuddiesInsideIff` | kernel/mm/ppm.c:362-368 | the buddy of every block inside the table is inside the table if and only if the table is a multiple of the largest block |
| `BuddyMath.LastBlock` | kernel/mm/ppm.c:362-368 | otherwise the block at the end of the table, of the size of the lowest bit set, has a buddy just past it |
| `BuddyMath.OnePageMore` | kernel/mm/ppm.c:362-368 | with 513 pages, page 512 has buddy 513 |
| `BuddyTiling.BuddyIsHead` | kernel/mm/ppm.c:362-381 | the buddy of a block heads a block of at most its order: it is never the interior of another block, whatever stale marks say |
| `BuddyTiling.FreeBlocksDetermined` | kernel/mm/ppm.c:349-434 | two states with the same free pages have the same free blocks, because coalescing is maximal |
| `BuddyTiling.BlocksPartition` | kernel/mm/ppm.c:314-347 | blocks are aligned, pairwise disjoint and cover all pages |
| `BuddyTiling.NoRunFree` | kernel/mm/ppm.c:397-408 | when every list from an order up is empty, no aligned run of that order is entirely free |
| `BuddyTiling.MergeSound` | kernel/mm/ppm.c:362-381 | joining a block with its free buddy keeps lists, marks and tiling consistent |
| `BuddyTiling.SplitSound` | kernel/mm/ppm.c:414-424 | giving back the upper half of a block keeps lists, marks and tiling consistent |
| `BuddyAllocator.Ppm.constructor` | kernel/mm/ppm.c:294-347 | after boot exactly the pages that are not reserved are free, and the invariant holds |
| `BuddyAllocator.Ppm.InitFinalize` | kernel/mm/ppm.c:314-347 | the boot loop releases every page that is not reserved |
| `BuddyAllocator.Ppm.FreePagesNoLock` | kernel/mm/ppm.c:349-382 | the block's pages, none of them free before, become free; no other block in use changes; counters follow; coalescing stays maximal |
| `BuddyAllocator.Ppm.ReleasePages` | kernel/mm/ppm.c:275-292 | one reference less; with the last one the block is free |
| `BuddyAllocator.Ppm.FindOrder` | kernel/mm/ppm.c:397-405 | the least order with a free block, or none |
| `BuddyAllocator.Ppm.SplitBlock` | kernel/mm/ppm.c:414-424 | splitting gives back exactly the pages beyond the order asked for |
| `BuddyAllocator.Ppm.AllocPages` | kernel/mm/ppm.c:384-434 | fails if and only if no aligned run of that order is entirely free; otherwise takes exactly such a run, from the front of the first list that is not empty |
| `BuddyAllocator.AllocThenRelease` | kernel/mm/ppm.c:349-434 | allocating and releasing restores the same block set |
| `CowPages.Share` | kernel/mm/vm_region.c:507-543 | a page shared by fork: one more reference, both entries copy-on-write, contents unchanged |
| `CowPages.CopyOut` | kernel/mm/vmm.c:1016-1061 | a private copy: counts stay exact, the entry is writable, contents unchanged |
| `CowPages.Claim` | kernel/mm/vmm.c:992-1010 | the last sharer may write in place |
| `CowPages.Unmap` | kernel/mm/vm_region.c:306-362 | dropping an entry drops its reference, and the frame with the last one |
| `CowFork.Kernel.constructor` | kernel/mm/vmm.c:37-54 | one process without memory, the first state of every run |
| `CowFork.Kernel.DoAod` | kernel/mm/vmm.c:1152-1211 | first touch maps a fresh zero page, or without memory nothing; no contents change |
| `CowFork.Kernel.DoCow` | kernel/mm/vmm.c:949-1071 | reference counts stay exact unless an allocation that is needed fails, and then they do not: the reference is dropped and the entry stays; a served copy-on-write entry is writable, no contents change and no frame is lost |
| `CowFork.Kernel.FindRegion` | kernel/mm/vm_region.c:123-140 | the first region that ends above the page |
| `CowFork.Kernel.Access` | kernel/mm/vmm.c:1213-1274 | an access is served exactly when it is in reach: in a region, at the byte of vm_limit, or on a last, partial page that is present; no contents change and no frame is lost |
| `CowFork.LimitExample` | kernel/mm/vmm.c:1393-1393 | byte 5000 of a region of 5000 bytes is served |
| `CowFork.ReachSplit` | kernel/mm/vmm.c:1393-1393 | what is in reach is covered by a region, byte for byte, or past its limit, never both |
| `CowFork.Kernel.DupPages` | kernel/mm/vm_region.c:502-545 | the child reads on the whole pages of the region what the parent reads; where the parent has an entry, both name its frame and are copy-on-write, and no other entry changes |
| `CowFork.Kernel.ForkTask` | kernel/mm/vmm.c:75-152 | the child has the parent's regions and contents, except that last, partial pages read as zero; exactly the whole pages present are shared, copy-on-write, and no frame is lost |
| `CowFork.Kernel.UnmapPages` | kernel/mm/vm_region.c:306-362 | every whole page of the region loses one reference, also when the entries are left in place; no frame is lost |
| `CowFork.Kernel.MunmapRegion` | kernel/mm/vm_region.c:306-426 | the whole pages of the region are gone, no other contents change and no frame is lost; the invariant survives exactly when its last, partial page is not present |
| `CowFork.Kernel.ExitTask` | kernel/mm/vmm.c:56-73 | all regions of a process are gone, every other process reads what it read, and the invariant survives; the frames that no entry names any more are exactly those of the last, partial pages of the process that were present |
| `CowFork.TailCount` | kernel/mm/vm_region.c:306-362 | every last, partial page present has a frame of its own, so as many frames are lost as there are such pages |
| `CowFork.Kernel.MmapRegion` | kernel/mm/vmm.c:260-372 | the region, of any length in bytes, is in the list, has no page yet, reads as zeroes, and no contents change |
| `CowFork.Kernel.Load` | kernel/mm/vmm.c:1213-1274 | a load in reach returns the content the process has; no frame is lost |
| `CowFork.Kernel.StoreWord` | kernel/mm/vmm.c:949-1071 | a store changes one word of one process and nothing of the others; no frame is lost |
| `CowFork.Kernel.Step` | kernel/mm/vmm.c:75-152 | one operation of the kernel is one operation of the machine that copies eagerly, if and only if it is clear |
| `CowFork.Kernel.Run` | kernel/mm/vmm.c:949-1274 | over any run of clear operations, exits always among them, all outcomes are those of the machine that copies eagerly on fork, and as many frames are lost as last, partial pages were present when their process ended |
| `CowFork.Kernel.RunOneMore` | kernel/mm/vmm.c:949-1274 | a run agrees with the eager machine one operation further if and only if that operation is clear |
| `CowFork.ForkAgrees` | kernel/mm/vm_region.c:502-545 | a fork gives what an eager copy gives if and only if the last, partial pages of the parent are zero |
| `CowFork.TailLost` | kernel/mm/vm_region.c:505-505 | in every state, a word stored on the last, partial page of a region reads as zero in a child forked then |
| `CowFork.TailKept` | kernel/mm/vm_region.c:505-505 | the eager machine gives the child that word |
| `CowFork.FiveThousandBytes` | kernel/mm/vm_region.c:505-505 | a run from the first state: 5000 bytes mapped, byte 4500 stored, fork, and the child reads zero |
| `CowFork.StarvedExample` | kernel/mm/vmm.c:1012-1026 | a run from the first state: mmap, store, fork, and a write fault whose allocation fails, after which two entries name a frame whose count is 1 |
| `RbTrees.RbTree.RotateLeft` | kernel/libk/rbtree.c:25-46 | the heap holds the rotated tree, parent links included |
| `RbTrees.RbTree.RotateRight` | kernel/libk/rbtree.c:48-69 | the heap holds the rotated tree, parent links included |
| `RbZipper.RotLInorder` | kernel/libk/rbtree.c:25-46 | a rotation keeps the order |
| `RbTrees.RbTree.Recolor` | kernel/libk/rbtree.c:79-91 | a red uncle: balance is kept and the red pair moves up |
| `RbTrees.RbTree.InsertRotateLeftSide` | kernel/libk/rbtree.c:93-104 | a black uncle, parent on the left: one or two rotations end the repair |
| `RbTrees.RbTree.InsertRotateRightSide` | kernel/libk/rbtree.c:118-129 | a black uncle, parent on the right: one or two rotations end the repair |
| `RbTrees.RbTree.InsertColor` | kernel/libk/rbtree.c:71-134 | the result is red-black with the same order |
| `RbTrees.RbTree.LinkNode` | kernel/libk/rbtree.h:151-160 | the node is a red leaf at the empty link |
| `RbTrees.RbTree.Insert` | kernel/libk/rbtree.c:71-134 | the order gains exactly the node, at the link; the tree is red-black |
| `RbErase.RedSiblingL` | kernel/libk/rbtree.c:145-152 | a red sibling is rotated away without changing what is missing |
| `RbErase.BothBlackL` | kernel/libk/rbtree.c:153-159 | two black nephews: the missing black moves up |
| `RbErase.NearRedL` | kernel/libk/rbtree.c:162-168 | a red near nephew is turned into a red far one |
| `RbErase.FarRedL` | kernel/libk/rbtree.c:169-174 | a red far nephew ends the repair |
| `RbErase.RedSiblingR` | kernel/libk/rbtree.c:179-186 | the mirror image of a red sibling |
| `RbErase.BothBlackR` | kernel/libk/rbtree.c:187-193 | the mirror image of two black nephews |
| `RbErase.NearRedR` | kernel/libk/rbtree.c:196-202 | the mirror image of a red near nephew |
| `RbErase.FarRedR` | kernel/libk/rbtree.c:203-208 | the mirror image of a red far nephew |
| `RbTrees.RbTree.EraseStepLeft` | kernel/libk/rbtree.c:143-176 | one round of the repair, node on the left |
| `RbTrees.RbTree.EraseStepRight` | kernel/libk/rbtree.c:177-210 | one round of the repair, node on the right |
| `RbTrees.RbTree.EraseColor` | kernel/libk/rbtree.c:136-214 | the repair ends with a red-black tree in the same order |
| `RbTrees.RbTree.SpliceOut` | kernel/libk/rbtree.c:263-276 | a node with at most one child is replaced by it |
| `RbTrees.RbTree.FindSuccessor` | kernel/libk/rbtree.c:229-231 | the leftmost node on the right |
| `RbTrees.RbTree.MoveAdjacent` | kernel/libk/rbtree.c:233-260 | the successor takes the place of its parent |
| `RbTrees.RbTree.MoveDistant` | kernel/libk/rbtree.c:233-260 | the successor takes the place of the node further up |
| `RbTrees.RbTree.Erase` | kernel/libk/rbtree.c:216-281 | the order loses exactly the node; the tree is red-black |
| `RbTrees.RbTree.Next` | kernel/libk/rbtree.c:310-336 | the next node in order, NULL exactly for the last |
| `RbTrees.RbTree.Prev` | kernel/libk/rbtree.c:338-360 | the previous node in order, NULL exactly for the first |
| `KeysDb.Db.Lookup` | kernel/kern/keysdb.c:282-295 | what the key was bound to last and not removed, NULL exactly when it is not bound |
| `KeysDb.Db.Insert` | kernel/kern/keysdb.c:177-227 | the map of bound keys gains one binding, or with an error none; EEXIST exactly when the key was bound, ENOMEM exactly when its record is missing and cannot be had |
| `KeysDb.Db.Remove` | kernel/kern/keysdb.c:262-280 | exactly this key is unbound, and its value returned |
| `KeysDb.Db.Bind` | kernel/kern/keysdb.c:229-249 | all the keys or none: ENOMEM exactly when the records missing before the first bound key are more than can be had, else EEXIST exactly when there is such a key |
| `KeysDb.Db.Unbind` | kernel/kern/keysdb.c:251-260 | exactly these keys are unbound |
| `RegionIndex.Vmm.FindList` | kernel/mm/vm_region.c:123-140 | the first region of the list that ends above the address |
| `RegionIndex.Vmm.Find` | kernel/mm/vm_region.c:189-216 | the search down the tree finds what the scan of the list finds |
| `RegionIndex.Vmm.FindPrepare` | kernel/mm/vm_region.c:143-178 | the same, with the empty link where a region at the address belongs |
| `RegionIndex.Vmm.LinkRegion` | kernel/mm/vm_region.c:181-187 | list order and tree order stay equal; regions stay disjoint exactly when the new one is not empty and does not run into the next |
| `RegionIndex.Vmm.AttachFixed` | kernel/mm/vm_region.c:264-303 | EEXIST exactly when the start is inside a region; otherwise the index stays valid exactly when the region does not wrap around or run into the next |
| `RegionIndex.Vmm.AttachAnywhere` | kernel/mm/vm_region.c:218-262 | the lowest address from the hint up that has room and a gap, ENOMEM exactly when there is none, for sizes up to the user space; for any size, a placed region lies in the user space and the index stays valid exactly when the size is one of these |
| `RegionIndex.Vmm.Solve` | kernel/mm/vm_region.c:226-240 | the search ends at a gap or past the limit, and has skipped no address that fits |
| `RegionIndex.LimitGuard` | kernel/mm/vm_region.c:226-231 | the limit test keeps regions in the user space exactly for sizes up to the user space |
| `RegionIndex.OversizeAccepted` | kernel/mm/vm_region.c:226-251 | a request of 2 gigabytes is placed at address 0, past the user space |
| `RegionIndex.FixedOverlap` | kernel/mm/vm_region.c:271-284 | a fixed region over another one is accepted, and the index is no longer valid |
| `RegionIndex.RoundedLength` | kernel/mm/vm_region.c:77-92 | a length is rounded to zero exactly when it is zero or within a granule of 2^32 |
| `RegionIndex.Blocked` | kernel/mm/vm_region.c:231-239 | a region in the way rules out every address up to its end |
| `RegionIndex.Vmm.Detach` | kernel/mm/vm_region.c:367-391 | tree and list lose exactly the region, and the key table, unless lazy, exactly its keys |
| `RegionIndex.Vmm.Munmap` | kernel/mm/vmm.c:176-214 | EINVAL exactly when the key of the address is unbound or the address is outside its region; a whole region goes, a part of one does not |
| `RegionIndex.UnboundRefused` | kernel/mm/vmm.c:194-207 | a region whose keys are not bound, as after a fork, cannot be unmapped |
| `RegionIndex.Vmm.BindRegion` | kernel/mm/vmm.c:1286-1295 | the keys of the region are bound to it exactly when none was bound and the records can be had; otherwise no key changes |
| `RegionIndex.KeyHit` | kernel/mm/vmm.c:1380-1393 | a hit in the key table is the region the list scan finds |
| `RegionIndex.Vmm.FaultLookup` | kernel/mm/vmm.c:1380-1433 | table, tree and list find the same region; after a miss that finds one all its keys are bound to it, unless the records cannot be had; otherwise no key changes |
| `RegionIndex.TouchUnmap` | kernel/mm/vmm.c:1381-1434 | a region without bound keys, touched anywhere, can be unmapped as a whole, and the keys are as they were; EINVAL exactly when the records cannot be had |
| `RegionIndex.AttachTouchUnmap` | kernel/mm/vmm.c:1381-1434 | the run attach, fault, munmap of a whole region succeeds from every state with room, and restores it |
| `Bitmap.FirstSet` | kernel/libk/bits.c:28-61 | the first bit set at or after the index, -1 exactly when there is none |
| `Bitmap.SetRange` | kernel/libk/bits.c:102-126 | exactly the bits of the range are added |
| `SlabPages.LayoutFits` | kernel/mm/kcm.c:115-120 | header and blocks fit in a page if and only if blocks are larger than 32 bytes |
| `SlabPages.SmallBlocksOverrun` | kernel/mm/kcm.c:115-120 | blocks of 32 bytes reach 32 bytes past their page |
| `Slab.LayoutIff` | kernel/mm/kcm.c:115-120 | a page holds a block, and all its blocks fit, exactly for the sizes named |
| `SlabPages.PtrRoundTrip` | kernel/mm/kcm.c:216-223 | a block pointer leads back to its page and index |
| `SlabPages.GetBlock` | kernel/mm/kcm.c:199-212 | the first free block, none exactly when the page is full |
| `SlabPages.PutBlock` | kernel/mm/kcm.c:216-225 | exactly this block is free again; the count and the cursor stay right |
| `SlabPages.FreshPage` | kernel/mm/kcm.c:254-286 | every block of a new page is free |
| `Slab.LiveApart` | kernel/mm/kcm.c:199-225 | live blocks overlap neither each other nor the header |
| `Slab.Kcm.constructor` | kernel/mm/kcm.c:92-131 | an empty cache, well formed exactly when its blocks fit in a page |
| `Slab.Kcm.Start` | kernel/mm/kcm.c:133-142 | the cache has an active page exactly when a page can be had |
| `Slab.NeverAsks` | kernel/mm/kcm.c:294-307 | with watermarks 0 and 1 the cache cannot be set up, though pages are to be had |
| `Slab.Kcm.FreelistPopulate` | kernel/mm/kcm.c:254-286 | one free page more, in front, exactly when the page allocator gives one |
| `Slab.Kcm.FreelistGet` | kernel/mm/kcm.c:289-313 | the first free page, none exactly when there is none and none can be had |
| `Slab.Kcm.Replenish` | kernel/mm/kcm.c:294-301 | at the low watermark the free list is filled up half way to the high one, as far as pages can be had, and at no other time |
| `Slab.Kcm.ComputeActivePage` | kernel/mm/kcm.c:344-375 | the full page becomes the first busy one and the next active page, or else a free one, takes its place, exactly when there is one; it has a free block |
| `Slab.Kcm.GetFrom` | kernel/mm/kcm.c:199-212 | the first free block of the active page, or none exactly when it is full |
| `Slab.Kcm.Alloc` | kernel/mm/kcm.c:146-166 | a block nobody had; NULL exactly when all pages are full and none can be had |
| `Slab.Kcm.Free` | kernel/mm/kcm.c:216-251 | exactly this block is free again; a busy page becomes the last active one, an active page without blocks in use the first free one, unless it is the current one |
| `Slab.Kcm.ReleaseFree` | kernel/mm/kcm.c:316-340 | free pages go back down to the low watermark, with no live block in them, and can be had again |
| `Slab.Kcm.Restock` | kernel/mm/kcm.c:379-404 | pages that others give back can be had; no block changes |
| `HeapManager.Covers` | kernel/mm/heap_manager.c:66-145 | every address of the heap is in exactly one block |
| `HeapManager.EffectiveIff` | kernel/mm/heap_manager.c:72-73 | the block is the least number of cache lines with room for the request exactly when the size does not wrap around, and what it is otherwise |
| `HeapManager.HugeRequest` | kernel/mm/heap_manager.c:72-73 | two sizes that do wrap around |
| `HeapManager.Heap.constructor` | kernel/mm/heap_manager.c:46-64 | one free block, the whole heap exactly when its size fits in 31 bits |
| `HeapManager.Heap.FirstFit` | kernel/mm/heap_manager.c:77-99 | the first usable block from the starting point, or none; the scan ends |
| `HeapManager.Heap.Malloc` | kernel/mm/heap_manager.c:66-117 | the first usable block from the starting point, large enough, is the only one handed out, whole or cut; NULL exactly when there is none; the heap stays tiled exactly unless the size wrapped to zero and the block is cut |
| `HeapManager.MissesIff` | kernel/mm/heap_manager.c:77-97 | the search misses every usable block exactly when they all lie before the hint and the search begins there |
| `HeapManager.MissedBlock` | kernel/mm/heap_manager.c:66-145 | a run of requests after which one fails, though a block would do |
| `HeapManager.Heap.Free` | kernel/mm/heap_manager.c:119-145 | exactly this block is free again and has swallowed all up to the next busy block or the limit; the hint stays a header, not past it |
| `RrScheduler.Fair` | kernel/kern/rr-sched.c:340-438 | a user thread at position p is served or set aside to migrate, or has moved up by one for every thread served and back by one for every yield by force |
| `RrScheduler.WaitBound` | kernel/kern/rr-sched.c:340-438 | so it waits for at most p others, and one more for each yield by force |
| `RrScheduler.RrSched.Run` | kernel/kern/rr-sched.c:89-438 | any operations in any order do what they say, keep the invariant and treat every queued thread fairly |
| `RrScheduler.RrSched.Step` | kernel/kern/rr-sched.c:89-438 | every operation has its own effect on threads and queues, and is one turn of the queue of user threads |
| `RrScheduler.RrSched.constructor` | kernel/kern/rr-sched.c:523-547 | empty queues, the idle thread running |
| `RrScheduler.RrSched.Sleep` | kernel/kern/rr-sched.c:263-267 | a waiting thread is in no queue |
| `RrScheduler.RrSched.Exit` | kernel/kern/rr-sched.c:252-261 | a dead thread is in no queue |
| `RrScheduler.RrSched.EnterKernel` | kernel/kern/do_interrupt.c:54-58 | the current thread is in the kernel |
| `RrScheduler.RrSched.Wakeup` | kernel/kern/rr-sched.c:269-303 | a waiting thread joins the end of its queue once; a kernel thread forces a yield |
| `RrScheduler.RrSched.AddCreated` | kernel/kern/rr-sched.c:305-338 | a new thread joins the end of its queue with its first priority |
| `RrScheduler.RrSched.PutBack` | kernel/kern/rr-sched.c:354-387 | a current thread that can go on is queued again, last, or first when forced to yield; unless forced, the rest of its quantum is added to its boosted priority, the quantum is renewed and a user thread is no longer to migrate; nothing else changes |
| `RrScheduler.RrSched.Schedule` | kernel/kern/rr-sched.c:340-438 | the first thread of the first queue in priority order runs; the idle thread exactly when no thread can; counters equal the queue lengths; the records of all threads, as `Requeued` says for the old one |
| `RrScheduler.Requeued` | kernel/kern/rr-sched.c:354-387 | state, boosted priority, quantum and migration flag of a thread that gives up the processor |
| `RrScheduler.RrSched.ScheduleThenBalance` | kernel/kern/rr-sched.c:89-438 | after a turn of the scheduler the balancer sets aside the best candidate by the values from before, the old current thread with the rest of its quantum added |
| `RrScheduler.Scan` | kernel/kern/rr-sched.c:103-143 | the best candidate to migrate, the first of those with the highest priority, each candidate visited once |
| `RrScheduler.RrSched.LoadBalance` | kernel/kern/rr-sched.c:89-168 | a queued thread is set aside exactly when it is a better candidate than the current one, and it is the first of the best; the boosted priorities of the current thread and of the candidates are halved, and exactly the one chosen is told to migrate |
| `LocalEvents.Listener.constructor` | kernel/kern/event.c:52-72 | no event, flag clear |
| `LocalEvents.Listener.SendLocal` | kernel/kern/event.c:90-103 | the event is queued at one end of its priority and will be looked for |
| `LocalEvents.Listener.DrainQueue` | kernel/kern/event.c:245-263 | the queue is emptied whatever the handlers send, and nothing is lost |
| `LocalEvents.Listener.Notify` | kernel/kern/event.c:219-283 | ends; every queue left non-empty is announced; each event delivered at most once, those queued at the call exactly once, in order for FIFO sends; each one in the turn of its priority, until it is nobody's turn |
| `EventOrder.UrgentIff` | kernel/kern/event.c:237-243 | no queue is begun while a more urgent event waits, if and only if no handler sends an event more urgent than its own unless the scan starts again after its queue |
| `EventOrder.NeverPassed` | kernel/kern/event.c:237-243 | an event at least as urgent as any priority the scans have started from is never passed over |
| `EventOrder.LeftOver` | kernel/kern/event.c:237-280 | what is left at the end is less urgent than any priority the scans have started from and more urgent than the queue drained last, unless that was the very last queue |
| `EventOrder.OneTurn` | kernel/kern/event.c:237-280 | it is never the turn of two priorities, so queues, hint and script determine the priorities delivered |
| `EventOrder.QuietSorted` | kernel/kern/event.c:237-280 | silent handlers get their events sorted by priority |
| `LocalEvents.PassedExample` | kernel/kern/event.c:239-243 | a run in which an event of priority 1 is passed over by one of priority 3 and left |
| `LocalEvents.Listener.NotifyAll` | kernel/kern/event.c:219-283 | with finitely many sends, repeated notification delivers every event exactly once |
| `LocalEvents.Listener.HandOver` | kernel/kern/event.c:306-310 | events handed over are in front of their queues, in reverse order |
| `LocalEvents.Listener.NotifyQuiet` | kernel/kern/event.c:219-283 | with handlers that send nothing every queue is delivered as it stands, sorted by priority |
| `EventQueues.ConservedDeliver` | kernel/kern/event.c:249-255 | delivering the first event of a queue keeps every priority's events conserved and in order |
| `RemoteEvents.StepInv` | kernel/kern/event.c:169-315 | every step keeps the hand-off invariant |
| `RemoteEvents.NoneForgotten` | kernel/kern/event.c:180-315 | over every interleaving an event in a fifo has the flag set, or its sender about to set it, or the pass still ahead; order per priority is kept |
| `RemoteEvents.RunLog` | kernel/kern/event.c:169-198 | the events put and those deferred, in order, are the ones the moves of the senders decide |
| `RemoteEvents.CallsInOrder` | kernel/kern/event.c:169-198 | every sender's calls are decided in the order in which they were made, all but the one under way |
| `RemoteEvents.CallsKept` | kernel/kern/event.c:169-198 | in every run each event has been called with as often as it was put, deferred or is about to be put |
| `RemoteEvents.CallAlone` | kernel/kern/event.c:169-198 | a call without interference puts its event, sets the flag, and sends an interrupt exactly for an urgent event on a clear flag |
| `RemoteEvents.UrgentWaits` | kernel/kern/event.c:188-197 | an urgent event behind one that is not waits without an interrupt |
| `RemoteEvents.AllArrive` | kernel/kern/event.c:286-315 | once the senders are done, the listener ends with every event that was called with handed over, but for those deferred; each sender's calls in order |
| `RemoteEvents.DeliverRemote` | kernel/kern/event.c:286-315 | from calls to handlers: the events called with, not deferred and not yet taken are delivered exactly once, sorted by priority, those of one priority in reverse order, before the local ones |
| `Radix.NextChildIsPath` | kernel/kern/radix.c:54-57 | the slot at every level is a digit of the key |
| `Radix.FitsIff` | kernel/kern/radix.c:56-57 | a key fits in a tree exactly when its path begins with zeros |
| `Radix.Grow` | kernel/kern/radix.c:87-120 | a new root keeps every item and every count |
| `Radix.Create` | kernel/kern/radix.c:158-178 | a new inner node keeps every item and every count |
| `Radix.Put` | kernel/kern/radix.c:384-392 | one item changes; counts stay right exactly when it is not NULL |
| `Radix.LevelsFit` | kernel/kern/radix.c:358-363 | the height after growing is the least that has the key |
| `Radix.CostGrow` | kernel/kern/radix.c:358-363 | a new root is one of the levels that were missing, and fills no gap further down |
| `Radix.CostBound` | kernel/kern/radix.c:358-381 | no insertion takes more than 11 allocations |
| `Radix.RadixTree.constructor` | kernel/kern/radix.c:266-271 | the empty map |
| `Radix.RadixTree.Expand` | kernel/kern/radix.c:87-120 | one level more and the same map, or no memory and no change |
| `Radix.RadixTree.CreateNode` | kernel/kern/radix.c:158-178 | one node more and the same map, or no memory and no change |
| `Radix.RadixTree.Lookup` | kernel/kern/radix.c:303-347 | the item the key maps to, for every 32-bit key |
| `Radix.RadixTree.Insert` | kernel/kern/radix.c:349-393 | exactly one binding more, or none: EEXIST exactly when the key is bound, ENOMEM exactly when the new levels and the missing nodes on its path are more than the allocations that would succeed; the counts stay right exactly when the item is not NULL |
| `Radix.NullInsert` | kernel/kern/radix.c:384-392 | a NULL item inserted into an empty tree makes a count wrong |
| `Md5.CountAdds` | kernel/libk/md5.c:192-195 | the two words with their carry count bits modulo 2^64 |
| `Md5.FinalBlock` | kernel/libk/md5.c:224-226 | the padding has the length section 3.1 of RFC 1321 asks for |
| `Md5.Bytes32` | kernel/libk/md5.c:231-240 | the four bytes of a word have it as their value, least significant byte first |
| `Md5.PaddedIs` | kernel/libk/md5.c:217-235 | the padded message is the only one with a bit set, as few zero bits as possible, and 8 bytes whose value is the length in bits modulo 2^64, sections 3.1 and 3.2 of RFC 1321 |
| `Md5.FirstState` | kernel/libk/md5.c:57-66 | the first state has the sixteen bytes that section 3.3 of RFC 1321 lists |
| `Md5.DigestIs` | kernel/libk/md5.c:237-241 | the digest is the only sequence of 16 bytes whose groups of four have the words of the state after the padded message as their values |
| `Md5.LengthField` | kernel/libk/md5.c:231-235 | the two words as 8 bytes have the length in bits modulo 2^64 as their value, least significant byte first |
| `Md5.AbsorbConcat` | kernel/libk/md5.c:79-176 | blocks can be absorbed in two parts |
| `Md5.Context.constructor` | kernel/libk/md5.c:57-66 | nothing absorbed |
| `Md5.Context.Transform` | kernel/libk/md5.c:79-176 | the blocks of the input, in order |
| `Md5.Context.Update` | kernel/libk/md5.c:183-212 | the message grows by the input; whole blocks absorbed, the rest buffered, the length counted |
| `Md5.Context.Final` | kernel/libk/md5.c:217-244 | the digest of the padded message, byte by byte, and nothing of it left in the context |
| `Md5.DigestOf` | kernel/libk/md5.c:183-244 | any cutting of a message into updates gives the digest of the whole, byte by byte |
| `Barrier.StepInv` | kernel/kern/mcs_sync.c:53-83 | every shared read or write keeps the barrier's invariant |
| `Barrier.BarrierSafe` | kernel/kern/mcs_sync.c:53-83 | nobody leaves a round before all have entered it, and threads are at most one round apart, for any number of threads and rounds |
| `Barrier.BarrierLive` | kernel/kern/mcs_sync.c:53-83 | with every thread inside, one can move |
| `Barrier.BlockedIff` | kernel/kern/mcs_sync.c:53-83 | a thread cannot move exactly when it has arrived in the current round and does not close it |
| `Barrier.StepAdvances` | kernel/kern/mcs_sync.c:53-83 | a step that does more than spin releases the round or leaves less work to do for it |
| `Barrier.BarrierProgress` | kernel/kern/mcs_sync.c:53-83 | over every schedule, every 7 steps for each thread that do more than spin release another round |
| `Barrier.BarrierWaits` | kernel/kern/mcs_sync.c:53-83 | when no thread inside can do more than spin, all have left every released round, and the current one waits for a thread that has not called |
| `TicketLock.StepInv` | kernel/kern/mcs_sync.c:98-130 | every step keeps the tickets out in a row from the one served |
| `TicketLock.TicketLockSafe` | kernel/kern/mcs_sync.c:98-130 | one holder at a time, in ticket order, across the wrap-around of the counters; a waiter never waits for nobody |
| `TicketLock.BlockedIff` | kernel/kern/mcs_sync.c:98-130 | a thread cannot move exactly when it waits and another one is served |
| `TicketLock.TicketProgress` | kernel/kern/mcs_sync.c:98-130 | over every schedule each passage takes four steps that do more than spin, so the lock is released once for every four of them |
| `RwLocks.RwLock.constructor` | kernel/kern/rwlock.c:36-46 | nobody holds or waits |
| `RwLocks.RwLock.WrLock` | kernel/kern/rwlock.c:48-68 | the lock when it is free, else the end of the queue |
| `RwLocks.RwLock.RdLock` | kernel/kern/rwlock.c:70-92 | a reader, whatever it holds, gets in exactly when no writer holds or waits |
| `RwLocks.RwLock.TryWrLock` | kernel/kern/rwlock.c:94-110 | EBUSY exactly when somebody holds the lock |
| `RwLocks.RwLock.TryRdLock` | kernel/kern/rwlock.c:112-128 | EBUSY exactly when a writer holds or waits |
| `RwLocks.RwLock.Unlock` | kernel/kern/rwlock.c:130-168 | by any thread: one hold less, and the last one hands over to the first writer, or else to all readers; EPERM exactly on a free lock |
| `RwLocks.RwLock.WakeUp` | kernel/kern/rwlock.c:151-161 | a lock without holder goes to the first writer, or else to all readers |
| `RwLocks.RwLock.Step` | kernel/kern/rwlock.c:48-168 | each call takes the lock if it can be had, and otherwise queues the caller or does nothing; while a writer waits, it lets in nobody or the first writer |
| `RwLocks.NoOvertaking` | kernel/kern/rwlock.c:48-168 | over any run a queued writer gets the lock before any reader and any later writer |
| `RwLocks.RwLock.Run` | kernel/kern/rwlock.c:48-168 | any calls by any threads are answered one after the other, keep the invariant and overtake no queued writer |
| `Kfifo.StepInv` | kernel/kern/kfifo.c:50-133 | every shared read or write keeps the ring's invariant |
| `Kfifo.RingRefinesQueue` | kernel/kern/kfifo.c:50-133 | the values got are a prefix of the values put, at most size - 1 are outstanding, none is overwritten |
| `Kfifo.RefusalsHonest` | kernel/kern/kfifo.c:50-133 | a put is refused only on a ring that was full, a get only on one that was empty |
| `Kfifo.PutsAnswered` | kernel/kern/kfifo.c:50-73 | over every interleaving each put is answered once, in order, and the values put are those of the calls answered with yes |
| `Kfifo.PutAlone` | kernel/kern/kfifo.c:50-73 | a put without interference takes the value, and is refused exactly on a full ring |
| `Kfifo.GetAlone` | kernel/kern/kfifo.c:111-133 | a get without interference returns the oldest value, and is refused exactly on an empty ring |

## Left out

- CowFork.Kernel.Run: runs up to the first operation that is not clear, which is a munmap, a fork or an access and never an exit; `RunOneMore` proves that the machines part there, and what the kernel does after that is not modelled.
- CowFork.Kernel.Access: allocations in a run succeed; `DoAod` and `DoCow` say what a failing one does. Regions start on a page, as system calls demand.
- CowFork.Kernel.MmapRegion: takes the place in the list as given; how it is found is the subject of the region index.
- CowFork.Kernel.MunmapRegion: the lookup of the region by its key, with its EINVAL, is `RegionIndex.Vmm.Munmap`.
- RegionIndex.Vmm.AttachAnywhere: for sizes above the user limit the sum with the address can wrap around, and the tree link of another region is overwritten; the outcome `Clobbered` stands for that, and what follows is not modelled.
- RegionIndex.Vmm.Munmap: what the stubs for parts of a region should do.
- BuddyAllocator.Ppm.constructor: the number of pages is a multiple of the largest block; for any other the merge loop reads past the table (`BuddyMath.BuddiesInsideIff`).
- BuddyAllocator.Ppm.AllocPages: the fall-back to other clusters and the waiting for pages around it (kernel/mm/ppm.c:142-272).
- Slab.Kcm.FreelistPopulate: a fresh page has a clear bitmap, and constructors and destructors of objects are not run; the assertion that a free page was found is taken as disabled.
- Slab.Kcm.constructor: the methods take caches whose blocks fit in a page.
- HeapManager.Heap.constructor: the heap has room for one header.
- Bitmap.FirstSet: machine words are sequences of 32 bits; `(1 << n) - 1` is the word with the lowest n bits set.
- RrScheduler.RrSched.Schedule: the total and user thread numbers, the request flag for rescheduling, accounting, and migration to another processor itself.
- RrScheduler.RrSched.LoadBalance: when it is called (usage, clock period and quantum, kernel/kern/rr-sched.c:170-220).
- LocalEvents.Listener.Notify: notifications of one listener do not overlap; what handlers do is given by a script of their sends.
- LocalEvents.Listener.NotifyAll: the event thread notifies once for each time it is woken, and sleeps in between (kernel/kern/event.c:335-375).
- RemoteEvents.NoneForgotten: fifos are atomic queues; the event of a sender that backs off goes to that sender's own local listener and is only recorded.
- RemoteEvents.AllArrive: whether the interrupt is sent in time; a sender that finds the flag set sends none.
- Radix.RadixTree.Insert: tags, summary bits and parent links of nodes, which neither lookup nor insertion reads.
- Md5.Context.Final: the block function is a parameter.
- TicketLock.TicketLockSafe: interrupt masking; more than 2^32 threads.
- RwLocks.RwLock.Unlock: each call is one step, under the ticket lock; a woken thread holds the lock from that step on. Which hold ends is given with the call, since the code only counts.
- Memory is sequentially consistent in the concurrent models; locks and interrupt masking inside the sequential allocators are left out, each operation being atomic.
- Radix deletion, shrinking, tags and gang lookups; the multi-producer and multi-consumer ring; growing the heap region (`vmm_sbrk`); split and resize of regions (stubs).
- Page migration, shared and file-backed pages, invalidation on other processors, and everything behind `pmm_*`; the page table is a map.
- `barrier.c`, `spinlock.c`, `rr-sched_locked.c` and the scheduler without balancing; load placement across clusters.
- System calls, VFS, block I/O, ELF loading, signals, printing, boot beyond the page table.
