# Kernel data structures, allocators, scheduler and IPC of anos

This project models the hand-written core of the anos microkernel and proves what it is for. Each
component has to agree with something simple: the hash table and the capability map with a finite
map, the region tree with a set of disjoint ranges, a channel with a FIFO of messages, the two
allocators with a set of disjoint blocks, the scheduler with one queue per class and lane, the mutex
with a single owner, the reference counts with plain counting, and the two layouts (initial process
stack, RAM file system) with what their readers must find. Nothing was executed; every
statement below is a Dafny proof about the model.

The files follow the components. Code that works in place is modelled in place: slot arrays, tree
nodes, range lists, intrusive task queues, bitmaps, counter chains and page buffers are heap objects,
and every such method is proved to do to the value it represents what a specification function says;
the laws are then proved about those values, over every input and every run.

| component | source | files |
|---|---|---|
| open-addressing hash table | `kernel/structs/hash.c` | `HashTable.dfy` |
| AVL region tree and its system calls | `kernel/structs/region_tree.c`, `kernel/syscalls.c` | `RegionTree.dfy`, `RegionContents.dfy`, `RegionSyscalls.dfy`, `RegionHeap.dfy` |
| synchronous IPC | `kernel/ipc/channel.c` | `IpcChannel.dfy`, `IpcRuns.dfy` |
| fixed-block allocator | `kernel/fba/alloc.c` | `Bits.dfy`, `FixedBlocks.dfy` |
| virtual range allocator | `kernel/vmm/vmalloc_linkedlist.c` | `VirtualRanges.dfy`, `RangeLists.dfy`, `VirtualRuns.dfy` |
| scheduler, task queue, mutex | `kernel/sched/prr.c`, `kernel/structs/pq.c`, `kernel/sched/mutex.c` | `TaskQueues.dfy`, `Scheduler.dfy`, `SchedulerHeap.dfy`, `Mutexes.dfy`, `MutexHeap.dfy` |
| capability map | `kernel/capabilities/map.c` | `CapabilityMap.dfy`, `CapabilityHash.dfy` |
| reference counts | `kernel/structs/ref_count_map.c` | `RefCounts.dfy`, `RefCountHeap.dfy` |
| initial process stack | `system/process.c` | `ByteOrder.dfy`, `StackImage.dfy` |
| RAM file system | `tools/mkramfs/main.c`, `system/ramfs.c` | `ByteOrder.dfy`, `RamFs.dfy` |

`Machine.dfy` holds word sizes and the arithmetic of rings of slots.

## Where the code does less than its documentation says

Each has a proof of exactly when the property holds and an input on which it does not.

- `create_region` looks for an adjacent region before it looks for an overlap. The tree stays sound
  exactly on the requests described by `SafeRequest` (`RegionSyscalls.CreateSoundExact`), and
  `RegionSyscalls.CreateCanOverlap` is a request that leaves two overlapping regions.
- An allocation of 2^52 pages or more wraps the 64-bit byte count: `RangeLists.ReservesExactly`,
  `RangeLists.WrapReservesNothing`.
- `vmm_free_block` returns with its lock held exactly when the node pool is empty
  (`RangeLists.RangeAllocator.FreeBlock`); `RangeLists.EmptyPoolKeepsLock` gets there in three calls.
  It takes a block that is free already, or that wraps past 2^64: the list stays sound exactly when
  `VirtualRanges.KeepsNeat` holds (`VirtualRanges.MergeNeatExactly`), and the free bytes add up exactly
  when no size overflows (`VirtualRanges.MergeTotal`). `RangeLists.DoubleFree` and
  `VirtualRanges.OverflowLosesBytes` are calls after which they do not.
- Aligned blocks are aligned relative to the start of the managed area, so their addresses are
  aligned exactly when that start is: `FixedBlocks.AddressAlignment`, `FixedBlocks.MisalignedBlock`.
- A task that blocks keeps the processor exactly when nothing is queued (`Scheduler.SleepSoundExactly`);
  once woken it has the processor and is in a run queue as well (`Scheduler.LoneTaskRunsQueued`), which
  `Scheduler.LoneTaskFromBoot` reaches in four steps. With an idle task neither happens.
- The mutex is called reentrant, but nesting is not counted: an unlock keeps exclusion exactly when the
  lock is not nested (`Mutexes.ReleaseSoundExactly`). `Mutexes.NestedLockIsLost` has two tasks holding
  it, and `Mutexes.NestedLockReached` gets there from a new processor and mutex.
- The load test of the capability map does not count tombstones, so a walk may have no vacant slot to
  stop at: `CapabilityMaps.WalkStopsExactly`. `CapabilityHash.NewMapWearsOut` gets there with the
  map's own hash.
- A reference count of 2^32 - 1 wraps to an entry that counts 0: `RefCountHeap.RefCountMap.Increment`,
  `RefCountHeap.CountPastLimit`.
- A delivery that cannot be entered in the in-flight table is not reported. A reply to a delivered
  message is accepted exactly when its delivery was entered (`IpcRuns.AnswerableExactly`,
  `IpcRuns.FirstReplyExactly`); otherwise its sender never returns (`IpcRuns.UntrackedForever`), as in
  the run of `IpcRuns.UntrackedReachable`.
- The stack image ends at word 0 exactly when absent tables and null arguments balance
  (`StackImage.LandsExactly`, `StackImage.NullArgumentsUnderflow`), and the size test admits images
  larger than the one mapped page (`StackImage.PageExactly`, `StackImage.OverflowAccepted`).
- `ramfs_size` returns an int, which is right exactly below 2^31: `RamFs.SizeReadsExactly`,
  `RamFs.LargeImageMisreads`.

## Model

| member | source | states |
|---|---|---|
| `HashTables.ContentsMeaning` | kernel/structs/hash.c:179-204 | a pair is in the represented map exactly when some slot holds it, and key 0 never is |
| `HashTables.LoadLeavesHole` | kernel/structs/hash.c:137-143 | a table has an empty slot exactly when it holds fewer keys than slots |
| `HashTables.AbsentAtHole` | kernel/structs/hash.c:179-204 | a walk that reaches an empty slot before the key proves the key absent |
| `HashTables.ProbeAnswers` | kernel/structs/hash.c:179-204 | the walk for a key stops at that key exactly when the map has it, and finds its value there |
| `HashTables.PlaceKeepsProbed` | kernel/structs/hash.c:155-173 | filling the first empty slot of a new key's walk adds exactly that key and keeps every stored key reachable |
| `HashTables.RehashBegins` | kernel/structs/hash.c:225-235 | clearing the slot of a removed key leaves the cluster in the state the rehash starts from |
| `HashTables.RehashStaysBehind` | kernel/structs/hash.c:234-257 | an entry taken out at the scan index is never put back past it |
| `HashTables.RehashAdvances` | kernel/structs/hash.c:234-257 | one turn of the cluster rehash, with wrap-around, keeps the broken-and-repaired probe invariant one slot further on |
| `HashTables.RehashEnds` | kernel/structs/hash.c:234-257 | when the scan meets the end of the cluster every remaining key is reachable from its home slot again |
| `HashTables.MoveContents` | kernel/structs/hash.c:237-254 | moving an entry during the rehash does not change the map |
| `HashTables.RunKeepsLoaded` | kernel/structs/hash.c:137-177 | over every run, key 0 is never stored and the size is at most 3/4 of a whole number of pages of slots |
| `HashTables.MustGrowExactly` | kernel/structs/hash.c:137-143 | memory is needed exactly when the new size would exceed 3/4 of the slots |
| `HashTables.RunAnswers` | kernel/structs/hash.c:137-265 | read off the calls and answers alone: a lookup or removal answers the value of the last accepted insertion of its key with no removal after it, else 0; an insertion succeeds exactly for a key that is not 0 and not present, with room or memory |
| `HashTables.RunLeaves` | kernel/structs/hash.c:137-265 | a run leaves exactly the pairs that its calls and answers say, in as many slots as its doublings say |
| `HashTables.FindHole` | kernel/structs/hash.c:244-254 | the search for a free slot finds the first one on the walk and ends because one exists |
| `HashTables.Probe` | kernel/structs/hash.c:179-204 | the probe loop finds the first slot that holds the key or is empty |
| `HashTables.CopyAll` | kernel/structs/hash.c:73-91 | the copy loop of a resize yields a sound table with the same pairs |
| `HashTables.Create` | kernel/structs/hash.c:104-135 | gives an empty table of 256 slots a page, or null exactly when an allocation fails |
| `HashTables.HashTable.constructor` | kernel/structs/hash.c:118-132 | a new table is empty and has 256 slots a page |
| `HashTables.HashTable.Lookup` | kernel/structs/hash.c:179-204 | answers the stored value, or 0 for a key that is not there |
| `HashTables.HashTable.Grow` | kernel/structs/hash.c:53-102 | a doubling leaves map and size alone |
| `HashTables.HashTable.Insert` | kernel/structs/hash.c:137-177 | succeeds exactly for a key that is neither 0 nor stored, if 3/4 of the slots suffice or there is memory; then adds that pair and no more; doubles the slots exactly when needed and possible |
| `HashTables.HashTable.Put` | kernel/structs/hash.c:150-177 | the probe part of an insertion adds the pair exactly when the key is new and nonzero |
| `HashTables.HashTable.Remove` | kernel/structs/hash.c:206-265 | afterwards the key is gone and every other pair is as before; answers the old value, or 0 |
| `HashTables.HashTable.RemoveAt` | kernel/structs/hash.c:225-260 | clearing a slot and re-inserting the rest of its cluster removes that key and restores the probe invariant; the loop ends |
| `HashTables.HashTable.RehashOne` | kernel/structs/hash.c:236-257 | one turn of the rehash loop keeps the map and writes no slot past the scan index |
| `HashTables.HashTable.Run` | kernel/structs/hash.c:137-265 | any run of insertions, lookups and removals, with any failures of memory, is answered as the finite map answers it and as its own history demands, and leaves what that history says |
| `RegionTrees.SingleRight` | kernel/structs/region_tree.c:33-44 | a single right rotation of a left-heavy node gives an AVL tree with exact stored heights |
| `RegionTrees.SingleLeft` | kernel/structs/region_tree.c:46-57 | the mirror image |
| `RegionTrees.DoubleRight` | kernel/structs/region_tree.c:90-93 | a left-right double rotation gives an AVL tree |
| `RegionTrees.DoubleLeft` | kernel/structs/region_tree.c:96-99 | a right-left double rotation gives an AVL tree |
| `RegionTrees.Insert` | kernel/structs/region_tree.c:68-102 | insertion of a region that passed the tests keeps balance and exact heights, and the height grows by at most one, with the shape the caller's rotation needs |
| `RegionTrees.Remove` | kernel/structs/region_tree.c:139-181 | removal keeps balance and exact heights and lowers the height by at most one |
| `RegionTrees.AvlIsBushy` | kernel/structs/region_tree.c:29-59 | a balanced tree has at least the Fibonacci-like minimum of nodes for its height |
| `RegionTrees.HeightIsLogarithmic` | kernel/structs/region_tree.c:29-59 | the height of every balanced tree is at most logarithmic in its number of regions |
| `RegionContents.InsertBag` | kernel/structs/region_tree.c:61-102 | insertion adds exactly one region |
| `RegionContents.InsertOrderExact` | kernel/structs/region_tree.c:61-102 | insertion keeps strict start order if and only if no stored region has that start |
| `RegionContents.InsertKeepsTiled` | kernel/structs/region_tree.c:61-102 | inserting a range that meets no region keeps all regions disjoint and in order |
| `RegionContents.InsertCovers` | kernel/structs/region_tree.c:61-102 | insertion adds exactly the new range to the addresses covered with given flags |
| `RegionContents.RemoveBag` | kernel/structs/region_tree.c:139-181 | removal takes out exactly the region with that start, also when it is replaced by its successor |
| `RegionContents.SuccessorBag` | kernel/structs/region_tree.c:152-158 | copying the successor over a node and deleting the successor loses no other region |
| `RegionContents.RemoveKeepsOrder` | kernel/structs/region_tree.c:139-181 | removal keeps strict start order |
| `RegionContents.RemoveKeepsTiled` | kernel/structs/region_tree.c:139-181 | removal keeps the regions disjoint |
| `RegionContents.CoversMeaning` | kernel/structs/region_tree.c:104-115 | an address is covered with flags exactly when some stored region says so |
| `RegionContents.LookupIsScan` | kernel/structs/region_tree.c:104-115 | on disjoint regions, lookup finds a region exactly when a linear scan would, and the same one |
| `RegionContents.OverlapsIsScan` | kernel/syscalls.c:579-591 | on disjoint regions, the overlap test agrees with a linear scan |
| `RegionContents.TiledIsOrdered` | kernel/structs/region_tree.c:104-115 | disjoint nonempty regions have distinct, ordered starts |
| `RegionSyscalls.AdjacentComplete` | kernel/syscalls.c:559-577 | for a range that meets nothing, the search finds a touching region with equal flags exactly when there is one |
| `RegionSyscalls.CoalesceKeepsShape` | kernel/syscalls.c:614-622 | growing a region in place keeps the tree balanced |
| `RegionSyscalls.CoalesceKeepsTiled` | kernel/syscalls.c:614-622 | growing a region over a range that meets nothing keeps the regions disjoint |
| `RegionSyscalls.CoalesceCovers` | kernel/syscalls.c:614-622 | and covers exactly that range in addition |
| `RegionSyscalls.CoalesceBreaksTiled` | kernel/syscalls.c:614-622 | growing a region into a range that meets another one leaves them overlapping |
| `RegionSyscalls.CreateAddsRange` | kernel/syscalls.c:593-651 | a call that succeeds on a range overlapping nothing yields the old address-to-flags map plus that range, on both paths |
| `RegionSyscalls.CreateUnchanged` | kernel/syscalls.c:605-634 | a rejected, failed or merely overlapping call changes nothing |
| `RegionSyscalls.CreateOkExactly` | kernel/syscalls.c:605-651 | bad arguments are refused exactly as tested; otherwise the call succeeds if and only if there is memory, or the range meets a region, or a region with the same flags touches it |
| `RegionSyscalls.CreateStores` | kernel/syscalls.c:611-651 | on a free range the stored regions are those before and the new one, or one touching region has grown over the range |
| `RegionSyscalls.CoalesceBag` | kernel/syscalls.c:614-622 | extending a neighbour replaces that one region and no other |
| `RegionSyscalls.CreateSoundExact` | kernel/syscalls.c:593-651 | the call keeps the tree ordered, disjoint and balanced if and only if the request is safe |
| `RegionSyscalls.CreateCanOverlap` | kernel/syscalls.c:611-622 | a concrete call after which two regions overlap |
| `RegionSyscalls.DestroyUncovers` | kernel/syscalls.c:653-663 | destroying a region uncovers exactly its addresses |
| `RegionSyscalls.DestroyExactly` | kernel/syscalls.c:653-663 | refused exactly on bad arguments, and then nothing changes; otherwise just the region with that start is gone |
| `RegionSyscalls.CreateThenDestroy` | kernel/syscalls.c:593-663 | create then destroy of a separate region restores the region set |
| `RegionSyscalls.RunKeepsSound` | kernel/syscalls.c:593-663 | over every run of safe calls the tree stays ordered, disjoint and balanced |
| `RegionHeap.RotateRightAt` | kernel/structs/region_tree.c:33-44 | the pointer updates do to the represented tree what the value rotation does |
| `RegionHeap.RotateLeftAt` | kernel/structs/region_tree.c:46-57 | the mirror image |
| `RegionHeap.FixAfterInsert` | kernel/structs/region_tree.c:77-101 | the four rebalancing cases on heap nodes |
| `RegionHeap.InsertNode` | kernel/structs/region_tree.c:61-102 | recursive insertion on heap nodes yields the value insertion and uses exactly the old nodes and the new one |
| `RegionHeap.FixAfterRemove` | kernel/structs/region_tree.c:161-180 | the rebalancing after a removal on heap nodes |
| `RegionHeap.MinNode` | kernel/structs/region_tree.c:132-137 | finds the leftmost node |
| `RegionHeap.RemoveNode` | kernel/structs/region_tree.c:139-181 | recursive removal on heap nodes yields the value removal and uses only old nodes |
| `RegionHeap.ReplaceBySuccessor` | kernel/structs/region_tree.c:152-158 | the successor copy and the second removal on heap nodes |
| `RegionHeap.LookupNode` | kernel/structs/region_tree.c:104-115 | the pointer loop returns the node of the value lookup |
| `RegionHeap.OverlapsNode` | kernel/syscalls.c:579-591 | the pointer loop answers the value overlap test |
| `RegionHeap.FindAdjacentNode` | kernel/syscalls.c:559-577 | the pointer loop finds the node of the value search |
| `RegionHeap.Process.CreateRegion` | kernel/syscalls.c:593-651 | the system call on the process's tree, with its error results |
| `RegionHeap.Process.DestroyRegion` | kernel/syscalls.c:653-663 | the system call on the process's tree, with its error results |
| `IpcChannels.StepKeepsInv` | kernel/ipc/channel.c:170-410 | every step of send, receive and reply keeps the invariant on queues, senders, receivers and wake-ups, also a reply that comes before the sender has blocked and a delivery that fails to enter the in-flight table |
| `IpcChannels.EnqueueWake` | kernel/ipc/channel.c:334-342 | enqueueing keeps the wake-up count because the sender still owes a notification |
| `IpcChannels.NotifyWake` | kernel/ipc/channel.c:344-360 | notifying trades the owed notification for a woken receiver |
| `IpcChannels.RegisterWake` | kernel/ipc/channel.c:215-233 | a receiver that saw an empty queue under the lock may block |
| `IpcRuns.InitInv` | kernel/ipc/channel.c:48-100 | the invariant holds at the start |
| `IpcRuns.ReachableInv` | kernel/ipc/channel.c:170-410 | the invariant holds in every reachable state |
| `IpcRuns.NoLostWakeup` | kernel/ipc/channel.c:179-283 | while a receiver is blocked or about to block, queued messages are at most the woken receivers plus the senders yet to notify |
| `IpcRuns.Fifo` | kernel/ipc/channel.c:191-212 | per channel, what was sent is what was received, in order, plus the queue |
| `IpcRuns.RankMonotone` | kernel/ipc/channel.c:252-279 | a message only moves from queued to in flight to replied |
| `IpcRuns.ReceivedOnce` | kernel/ipc/channel.c:191-212 | no message is received twice in any run |
| `IpcRuns.SecondReply` | kernel/ipc/channel.c:393-410 | after an accepted reply every later reply to that cookie returns 0 and changes nothing |
| `IpcRuns.ReplyAnswers` | kernel/ipc/channel.c:393-410 | a reply returns its cookie if it is accepted and 0 if not |
| `IpcRuns.BlockedUntilReply` | kernel/ipc/channel.c:358-362 | a blocked sender stays blocked until a reply to its own message is accepted |
| `IpcRuns.BlocksUnlessReplied` | kernel/ipc/channel.c:344-362 | a sender that has notified blocks exactly when no reply to its message has been accepted yet |
| `IpcRuns.UntrackedForever` | kernel/ipc/channel.c:191-212 | a message delivered without an entry in the in-flight table is never replied to, and its sender never returns |
| `IpcRuns.UntrackedReply` | kernel/ipc/channel.c:393-398 | every reply to such a message returns 0 and changes nothing |
| `IpcRuns.AnswerableExactly` | kernel/ipc/channel.c:191-212 | a reply to a delivered message that has none yet is accepted if and only if the delivery was entered in the in-flight table |
| `IpcRuns.FirstReplyExactly` | kernel/ipc/channel.c:393-410 | so the first reply after a delivery is accepted if and only if the delivery was entered |
| `IpcRuns.UntrackedReachable` | kernel/ipc/channel.c:191-212 | three steps after which a message is delivered and not in the table |
| `IpcRuns.ReplyOrigin` | kernel/ipc/channel.c:393-410 | a stored reply value comes from an accepted reply |
| `IpcRuns.SendReturnsReply` | kernel/ipc/channel.c:360-390 | a send returns exactly the value of the reply accepted for its message |
| `IpcRuns.MessageOrigin` | kernel/ipc/channel.c:289-342 | a live message has the sender, channel, tag and size it was sent with |
| `IpcRuns.DeliveredAsSent` | kernel/ipc/channel.c:191-283 | a receive delivers cookie, tag and size of one earlier send on that channel |
| `IpcRuns.DeliveredFitsPage` | kernel/ipc/channel.c:314-319 | what is delivered is no larger than a page: larger sends are refused |
| `IpcRuns.ReceiveDelivers` | kernel/ipc/channel.c:191-283 | a receive delivers the head of a nonempty queue and takes just that off; only a woken receiver can find the queue empty, and returns 0 |
| `IpcRuns.CanProceed` | kernel/ipc/channel.c:170-410 | in every reachable state, every task that is neither blocked nor kept waiting by a lock can take its next step, and a task outside can call any operation |
| `IpcRuns.LockIsReleased` | kernel/ipc/channel.c:179-227 | a receivers lock held across steps is given up by one step of its holder, which is always possible |
| `IpcRuns.ReturnsExactly` | kernel/ipc/channel.c:235-383 | a blocked or waiting operation ends exactly with the return of the send or the resumption of the receiver |
| `IpcRuns.ReceiversFifo` | kernel/ipc/channel.c:215-360 | per channel, receivers are woken in the order in which they joined the list |
| `Bits.FirstSetBitIsLowest` | kernel/fba/alloc.c:288-303 | the De Bruijn table form finds the lowest set bit of every nonzero word |
| `Bits.UpdateBit` | kernel/fba/alloc.c:98-100 | setting or clearing a bit changes that bit and no other |
| `FixedBlocks.ScanWord` | kernel/fba/alloc.c:163-184 | one word bit by bit: either the least aligned run is found or the scan state moves on by 64 |
| `FixedBlocks.FreeStretch` | kernel/fba/alloc.c:143-159 | skipping an all-zero word is the bitwise scan over 64 free bits |
| `FixedBlocks.UsedStretch` | kernel/fba/alloc.c:160-161 | skipping an all-one word is the bitwise scan over 64 used bits |
| `FixedBlocks.FindUnsetRun` | kernel/fba/alloc.c:128-232 | returns the least aligned start of n clear bits, or the bit count exactly when there is none |
| `FixedBlocks.FirstRunUnique` | kernel/fba/alloc.c:128-232 | that answer is unique |
| `FixedBlocks.ValidAlignExactly` | kernel/fba/alloc.c:244-247 | the accepted alignments are the powers of two up to 64 |
| `FixedBlocks.FreeRunIsApart` | kernel/fba/alloc.c:236-286 | a free run overlaps no live allocation and none of the bitmap's own blocks |
| `FixedBlocks.GrantKeepsSound` | kernel/fba/alloc.c:236-286 | granting a free run keeps live allocations pairwise disjoint and marked |
| `FixedBlocks.MarkKeepsSound` | kernel/fba/alloc.c:263-282 | blocks marked by a partly failed allocation harm no live one |
| `FixedBlocks.FreeKeepsSound` | kernel/fba/alloc.c:332-373 | freeing a live allocation keeps the others marked and disjoint |
| `FixedBlocks.AddressAlignment` | kernel/fba/alloc.c:261-265 | a block address is aligned as asked if and only if the start of the area is |
| `FixedBlocks.MisalignedBlock` | kernel/fba/alloc.c:236-265 | in an area that begins at 0x1000, a block asked for with alignment 64 lies at page 65 |
| `FixedBlocks.LowestClearIsFirst` | kernel/fba/alloc.c:305-330 | the single-block path picks the block that the run search picks for n = 1 |
| `FixedBlocks.NewBitmap` | kernel/fba/alloc.c:89-100 | the new bitmap marks exactly its own blocks |
| `FixedBlocks.Init` | kernel/fba/alloc.c:50-108 | refuses a misaligned start or block count, accepts an empty area, fails without pages; else nothing is live and exactly the bitmap's blocks are marked |
| `FixedBlocks.Allocator.constructor` | kernel/fba/alloc.c:83-107 | nothing is live at first and the bitmap's blocks are reserved |
| `FixedBlocks.Allocator.AllocBlocksAligned` | kernel/fba/alloc.c:236-286 | allocates the first aligned run, or fails leaving live allocations alone |
| `FixedBlocks.Allocator.AllocBlock` | kernel/fba/alloc.c:305-330 | allocates the first free block, or fails |
| `FixedBlocks.Allocator.FreeBits` | kernel/fba/alloc.c:332-373 | clears the bit of an address inside the area; ignores null and others |
| `FixedBlocks.Allocator.Free` | kernel/fba/alloc.c:332-373 | frees a live single block and nothing else |
| `FixedBlocks.Allocator.FreeBlocks` | kernel/fba/alloc.c:375-379 | frees a live run and nothing else |
| `FixedBlocks.GrantedExactly` | kernel/fba/alloc.c:236-330 | a request is granted if and only if there is an aligned free run of that length and pages for all its blocks |
| `FixedBlocks.Perform` | kernel/fba/alloc.c:236-379 | a request to the allocator takes the first aligned run and answers its address, or marks what a failed one leaves, or unmarks exactly a held run |
| `FixedBlocks.Run` | kernel/fba/alloc.c:236-379 | in any run of allocations, with any page failures, and of frees, every request is served so, and after each what the callers hold is pairwise disjoint, aligned, marked and clear of the bitmap |
| `VirtualRanges.FailsExactly` | kernel/vmm/vmalloc_linkedlist.c:117-159 | allocation fails exactly when no contiguous free run of that size exists |
| `VirtualRanges.BestIsSmallest` | kernel/vmm/vmalloc_linkedlist.c:117-134 | the range that is cut is the lowest of the smallest sufficient ones |
| `VirtualRanges.CutRemoves` | kernel/vmm/vmalloc_linkedlist.c:136-156 | an allocation takes exactly its addresses out of the free set and keeps the list sorted, disjoint and coalesced |
| `VirtualRanges.MergeNeat` | kernel/vmm/vmalloc_linkedlist.c:191-214 | freeing keeps the list sorted, disjoint and maximally coalesced |
| `VirtualRanges.MergeNeatExactly` | kernel/vmm/vmalloc_linkedlist.c:191-214 | freeing any 64-bit number of whole pages keeps the list neat if and only if the block is above 0, ends below 2^64, meets no free range and is not left without a byte, or the range it joins overflows and keeps a part |
| `VirtualRanges.MergeOverflow` | kernel/vmm/vmalloc_linkedlist.c:200-206 | a free whose size overflows the range before it leaves that range shorter and touches no other |
| `VirtualRanges.MergeAdds` | kernel/vmm/vmalloc_linkedlist.c:191-214 | freeing adds exactly the block's addresses to the free set |
| `VirtualRanges.CutThenMerge` | kernel/vmm/vmalloc_linkedlist.c:106-218 | allocating and freeing the same block restores the same list |
| `VirtualRanges.CutTotal` | kernel/vmm/vmalloc_linkedlist.c:136-156 | allocation lowers the number of free bytes by the size |
| `VirtualRanges.MergeTotal` | kernel/vmm/vmalloc_linkedlist.c:191-214 | freeing raises it by the size if and only if no size overflows |
| `VirtualRanges.OverflowLosesBytes` | kernel/vmm/vmalloc_linkedlist.c:200-206 | 2^52 - 1 pages freed behind a free page leave a range of 0 bytes |
| `RangeLists.FindBestFit` | kernel/vmm/vmalloc_linkedlist.c:113-134 | the loop finds the first of the smallest sufficient ranges |
| `RangeLists.FindInsertion` | kernel/vmm/vmalloc_linkedlist.c:181-189 | the loop finds the insertion point in address order |
| `RangeLists.ReservesExactly` | kernel/vmm/vmalloc_linkedlist.c:113-156 | a successful allocation reserves its pages exactly if and only if the 64-bit size does not wrap |
| `RangeLists.WrapReservesNothing` | kernel/vmm/vmalloc_linkedlist.c:113-156 | 2^52 pages are granted and nothing is reserved |
| `RangeLists.RangeAllocator.TakeNode` | kernel/vmm/vmalloc_linkedlist.c:40-47 | takes the first pool node, or none |
| `RangeLists.RangeAllocator.GiveNode` | kernel/vmm/vmalloc_linkedlist.c:50-53 | returns a node to the pool |
| `RangeLists.RangeAllocator.AllocBlock` | kernel/vmm/vmalloc_linkedlist.c:106-160 | cuts the lowest of the smallest sufficient ranges on linked nodes; pool and list nodes are conserved |
| `RangeLists.RangeAllocator.FreeBlock` | kernel/vmm/vmalloc_linkedlist.c:163-218 | for every address and number of pages, merges the block into the linked list in 64-bit arithmetic; the list stays neat exactly as that theorem says; refuses bad parameters; without a node it fails and keeps the lock |
| `RangeLists.DoubleFree` | kernel/vmm/vmalloc_linkedlist.c:163-218 | a page that is free already is taken back with success, and the list is not neat |
| `RangeLists.EmptyPoolKeepsLock` | kernel/vmm/vmalloc_linkedlist.c:163-178 | with one metadata node, freeing the block just allocated fails and leaves the lock held |
| `RangeLists.RangeAllocator.InsertRange` | kernel/vmm/vmalloc_linkedlist.c:191-214 | links a node in and coalesces on both sides |
| `RangeLists.BuildPool` | kernel/vmm/vmalloc_linkedlist.c:80-91 | threads the metadata area into a pool |
| `RangeLists.AlignUpLeast` | kernel/vmm/vmalloc_linkedlist.c:56 | the least page address not below, except in the last page, where it wraps to 0 |
| `RangeLists.AlignDownGreatest` | kernel/vmm/vmalloc_linkedlist.c:59 | the greatest page address not above |
| `RangeLists.ManagedExactly` | kernel/vmm/vmalloc_linkedlist.c:71-76 | an area that does not wrap is managed from its first whole page to the end of its last |
| `RangeLists.Init` | kernel/vmm/vmalloc_linkedlist.c:62-103 | one free range for the page-aligned managed area, and the pool; sound exactly when the aligned start, which may wrap, is above 0 |
| `VirtualRuns.RunKeepsPartition` | kernel/vmm/vmalloc_linkedlist.c:106-218 | over every run, free ranges and live blocks partition the managed area; nodes taken and given one by one are never lost |
| `VirtualRuns.ServeKeepsPartition` | kernel/vmm/vmalloc_linkedlist.c:106-218 | one request keeps that partition and the number of nodes |
| `VirtualRuns.Perform` | kernel/vmm/vmalloc_linkedlist.c:106-218 | a request to the linked allocator is a step of the ledger: free list, pool size and lock |
| `VirtualRuns.Run` | kernel/vmm/vmalloc_linkedlist.c:106-218 | every request of any run to the linked allocator is answered as the ledger says, up to a lock that is never released; at any time free and live blocks partition the area and no node is lost |
| `VirtualRuns.RefusedExactly` | kernel/vmm/vmalloc_linkedlist.c:106-160 | in a run, a request is refused exactly when every stretch of that length meets a live block |
| `TaskQueues.PushSorted` | kernel/structs/pq.c:75-98 | a push keeps priority order |
| `TaskQueues.PushLane` | kernel/structs/pq.c:75-98 | a push appends to the lane of its priority and changes no other lane |
| `TaskQueues.HeadLane` | kernel/structs/pq.c:101-115 | the head is first in the lowest nonempty lane |
| `TaskQueues.LanesDetermine` | kernel/structs/pq.c:75-117 | the lanes determine the queue |
| `TaskQueues.TaskQueue.Add` | kernel/structs/pq.c:75-98 | the insertion loop on linked tasks is that push; null is ignored |
| `TaskQueues.TaskQueue.Take` | kernel/structs/pq.c:101-115 | pops the head and detaches it, or answers null |
| `Scheduler.EnqueueFiles` | kernel/sched/prr.c:100-128 | enqueueing files a thread in the queue of its class and counts it |
| `Scheduler.EnqueueLast` | kernel/sched/prr.c:100-128 | a thread goes behind all that wait with its class and priority, and no other line changes |
| `Scheduler.ScheduleSound` | kernel/sched/prr.c:239-333 | a scheduling call keeps ready tasks in exactly the queue of their class, the others in none, and the total right; a blocked task loses the processor if any is ready |
| `Scheduler.SwitchExactly` | kernel/sched/prr.c:266-315 | the running task is replaced exactly when some task is ready and it is blocked, out of time, or of a lower class than a ready one |
| `Scheduler.SwitchPicksFirst` | kernel/sched/prr.c:250-330 | a switch picks the first of the lowest priority value in the highest class that has a ready task, and gives it ten ticks |
| `Scheduler.SwitchLines` | kernel/sched/prr.c:250-330 | a switch takes the next task off the front of its line and puts the old one, if it still runs, behind its own |
| `Scheduler.SwitchStates` | kernel/sched/prr.c:281-330 | and changes states and slices of these two only |
| `Scheduler.ChargedExactly` | kernel/sched/prr.c:266-300 | a task that stays on loses one tick, unless nobody is ready, and nothing else changes |
| `Scheduler.KeepsAtMostSlice` | kernel/sched/prr.c:239-428 | over every run of any events, no task but the idle one keeps the processor for as many scheduling calls as it had ticks |
| `Scheduler.SleepSoundExactly` | kernel/sched/prr.c:239-333 | blocking the running task keeps the scheduler sound exactly when something is queued |
| `Scheduler.LoneTaskRunsQueued` | kernel/sched/prr.c:266-271 | with nothing queued, a task that blocks and is then woken has the processor and is in a run queue |
| `Scheduler.LoneTaskFromBoot` | kernel/sched/prr.c:239-428 | admit, schedule, block and wake lead there from an empty processor |
| `Scheduler.ScheduleKeepsAwake` | kernel/sched/prr.c:239-333 | scheduling blocks nobody and wakes nobody |
| `Scheduler.UnblockSound` | kernel/sched/prr.c:410-425 | unblocking a blocked task keeps the scheduler sound |
| `Scheduler.UnblockLast` | kernel/sched/prr.c:410-425 | a woken task goes behind all that wait with its class and priority |
| `Scheduler.RunKeepsSound` | kernel/sched/prr.c:239-428 | with an idle task that never blocks, every reachable state is sound: no blocked task keeps the processor |
| `Scheduler.BootSound` | kernel/sched/prr.c:87-98 | the empty processor, and one with its idle task, are sound |
| `Scheduler.PeersTick` | kernel/sched/prr.c:281-332 | among peers of one class and priority, a call takes a tick or turns the ring |
| `Scheduler.RoundRobin` | kernel/sched/prr.c:281-332 | any number of calls among peers is that many turns of the ring |
| `Scheduler.DispatchedOnTime` | kernel/sched/prr.c:281-332 | the peer at queue index i gets the processor at call r + 10 i and at no earlier one |
| `Scheduler.CycleRepeats` | kernel/sched/prr.c:281-332 | after a full cycle the same peers wait in the same order |
| `SchedulerHeap.Processor.constructor` | kernel/sched/prr.c:87-98 | four empty queues |
| `SchedulerHeap.Processor.EnqueueOn` | kernel/sched/prr.c:100-128 | puts a thread into the queue of its class, or refuses an invalid class |
| `SchedulerHeap.Processor.Admit` | kernel/sched/prr.c:100-128 | a new task becomes known and is queued in its class; an invalid class changes nothing |
| `SchedulerHeap.Processor.Reschedule` | kernel/sched/prr.c:239-333 | the scheduling call on linked tasks is the value step |
| `SchedulerHeap.Processor.Suspend` | kernel/sched/prr.c:428 | blocks a task |
| `SchedulerHeap.Processor.Resume` | kernel/sched/prr.c:410-425 | readies and enqueues a task |
| `SchedulerHeap.Processor.Step` | kernel/sched/prr.c:239-428 | every event on linked tasks of a sound processor, from the first admission on, is the value step |
| `Mutexes.CallSound` | kernel/sched/mutex.c:117-144 | a pass of the lock loop keeps the whole world sound |
| `Mutexes.ReleaseSoundExactly` | kernel/sched/mutex.c:150-178 | an unlock keeps exclusion exactly when the owner's lock is not nested |
| `Mutexes.UnlockPreempts` | kernel/sched/mutex.c:150-178 | an unlock that wakes a waiter costs the owner the processor exactly when its slice is used up or a ready task, the woken one included, has a higher class |
| `Mutexes.NestedLockIsFree` | kernel/sched/mutex.c:120-168 | an owner that locks again and unlocks once leaves the mutex free while it still counts on it |
| `Mutexes.NestedLockIsLost` | kernel/sched/mutex.c:120-168 | lock, unlock, sleep: by these steps the next task that runs obtains a mutex that its first owner still counts on |
| `Mutexes.NestedLockReached` | kernel/sched/mutex.c:82-178 | admissions, a switch and a lock lead to such a state from a new processor and mutex |
| `Mutexes.OtherSound` | kernel/sched/prr.c:239-428 | scheduling, sleeping and waking for other reasons keep the mutex world sound |
| `Mutexes.WorldStaysSound` | kernel/sched/mutex.c:106-178 | the invariant over every run without nested unlocks |
| `Mutexes.MutualExclusion` | kernel/sched/mutex.c:106-178 | in every run at most one task has returned from lock without unlocking, and it is the owner of a locked mutex |
| `Mutexes.NoBarging` | kernel/sched/mutex.c:120-176 | ownership passes only by the owner's unlock, to the first waiter, and not before that one has returned |
| `Mutexes.EnteringIsServed` | kernel/sched/mutex.c:117-144 | a task inside lock is a blocked waiter or the owner about to return |
| `Mutexes.StepAdvances` | kernel/sched/mutex.c:137-176 | a waiter moves up exactly with an owner's unlock, if nobody of better priority arrives |
| `Mutexes.WaiterServed` | kernel/sched/mutex.c:137-176 | the waiter at position i owns the mutex right after owner unlock number i + 1 |
| `Mutexes.FreshIsSound` | kernel/sched/mutex.c:82-104 | an initialised mutex starts sound |
| `MutexHeap.Mutex.constructor` | kernel/sched/mutex.c:82-104 | unlocked, without owner, and the wait queue emptied |
| `MutexHeap.Mutex.Enter` | kernel/sched/mutex.c:106-145 | obtains the mutex exactly when it is unlocked or its own, else waits; on linked tasks it is the value step; fails without a current task |
| `MutexHeap.Mutex.Leave` | kernel/sched/mutex.c:150-178 | succeeds exactly for the owner; the first waiter owns it next, or it is free; on linked tasks it is the value step; wait queue and run queues never share a task |
| `CapabilityMaps.StopAnswers` | kernel/capabilities/map.c:136-157 | the walk ends at the key exactly when the map has it |
| `CapabilityMaps.WalkStopsExactly` | kernel/capabilities/map.c:145-153 | a walk ends if and only if some slot is vacant or the key is there |
| `CapabilityMaps.EndsExactly` | kernel/capabilities/map.c:96-191 | a call ends if and only if its walk does, or it is an insertion above 3/4 load, or a clean-up |
| `CapabilityMaps.FillKeepsProbed` | kernel/capabilities/map.c:106-130 | a new key may go into a tombstone or vacant slot of its walk, and adds exactly that key |
| `CapabilityMaps.RetireKeepsProbed` | kernel/capabilities/map.c:168-178 | a tombstone removes exactly its key and keeps every other key reachable |
| `CapabilityMaps.UpdateKeepsProbed` | kernel/capabilities/map.c:111-116 | an existing key gets the new value |
| `CapabilityMaps.VacanciesComplement` | kernel/capabilities/map.c:32-61 | without tombstones, vacant slots and live entries make up the table |
| `CapabilityMaps.Walk` | kernel/capabilities/map.c:142-153 | the probe loop finds the first stop |
| `CapabilityMaps.WalkToInsert` | kernel/capabilities/map.c:106-125 | and, for insertion, the first tombstone of the walk or else the vacant slot that ends it |
| `CapabilityMaps.Rebuild` | kernel/capabilities/map.c:32-53 | the copy loop yields the same map without tombstones, and always ends |
| `CapabilityMaps.Init` | kernel/capabilities/map.c:63-94 | an empty map of 64 vacant slots, or nothing exactly when the lock or the blocks are not to be had |
| `CapabilityMaps.CapabilityMap.constructor` | kernel/capabilities/map.c:87-93 | 64 vacant slots |
| `CapabilityMaps.CapabilityMap.Resize` | kernel/capabilities/map.c:32-61 | same map, no tombstones, or nothing changed |
| `CapabilityMaps.CapabilityMap.Insert` | kernel/capabilities/map.c:96-134 | inserts or updates as the finite map; memory is needed, and the slots are doubled, exactly when the new size would exceed 3/4 of them; uses up at most one vacant slot |
| `CapabilityMaps.CapabilityMap.Lookup` | kernel/capabilities/map.c:136-157 | answers as the finite map |
| `CapabilityMaps.CapabilityMap.Delete` | kernel/capabilities/map.c:159-182 | deletes exactly the key and leaves the vacant slots alone |
| `CapabilityMaps.CapabilityMap.Cleanup` | kernel/capabilities/map.c:185-191 | leaves the map unchanged without tombstones, even when no slot is vacant |
| `CapabilityMaps.Run` | kernel/capabilities/map.c:96-191 | any run, up to the first call whose walk would not end, is answered exactly as the finite map answers it |
| `CapabilityMaps.ReckonedRun` | kernel/capabilities/map.c:96-191 | a run that a caller can reckon from keys alone to keep a vacant slot ends and is answered in full |
| `CapabilityMaps.FewInsertsAreSafe` | kernel/capabilities/map.c:96-191 | every run with fewer insertions than vacant slots at its start is such a run |
| `CapabilityMaps.WearOut` | kernel/capabilities/map.c:96-182 | as many insert-and-delete pairs as there are slots, of keys with different home slots, leave an empty map without a vacant slot |
| `CapabilityHash.FoldTwice` | kernel/capabilities/map.c:24-28 | folding a word by its upper 31 bits is its own inverse |
| `CapabilityHash.FoldBits` | kernel/capabilities/map.c:24-28 | every bit is flipped by the one 33 places up |
| `CapabilityHash.HashOneToOne` | kernel/capabilities/map.c:22-30 | every 64-bit word is the hash of exactly one key |
| `CapabilityHash.KeysSpread` | kernel/capabilities/map.c:22-30 | so every slot of a table of any size is the home slot of a key |
| `CapabilityHash.NewMapWearsOut` | kernel/capabilities/map.c:63-182 | a new map under its own hash: 64 insertions and deletions after which it is empty and no lookup would end |
| `RefCounts.EntryExactly` | kernel/structs/ref_count_map.c:192-284 | an address has an entry exactly when its count is positive |
| `RefCounts.PushInto` | kernel/structs/ref_count_map.c:226-238 | a new entry gives its address that count and changes no other |
| `RefCounts.Recount` | kernel/structs/ref_count_map.c:206-212 | a changed count changes no other; the table stays sound exactly when it is positive |
| `RefCounts.Forget` | kernel/structs/ref_count_map.c:258-272 | unlinking the last reference removes exactly that entry |
| `RefCounts.MoveOne` | kernel/structs/ref_count_map.c:158-173 | relinking one entry: every count is either in the new table or still pending, and no entry is lost |
| `RefCounts.MoveEnds` | kernel/structs/ref_count_map.c:158-173 | a finished rebuild has the same counts and as many entries |
| `RefCountHeap.SamePlace` | kernel/structs/ref_count_map.c:95-109 | bucket index to block and offset is one to one |
| `RefCountHeap.AllocateBuckets` | kernel/structs/ref_count_map.c:53-93 | a list of empty blocks, newest first, or null |
| `RefCountHeap.Buckets.Locate` | kernel/structs/ref_count_map.c:95-109 | the walk over the block list reaches the bucket's block and offset |
| `RefCountHeap.Buckets.Read` | kernel/structs/ref_count_map.c:95-109 | reads the chain head of a bucket |
| `RefCountHeap.Buckets.Write` | kernel/structs/ref_count_map.c:95-109 | storing a chain head changes that bucket only |
| `RefCountHeap.Buckets.Lookup` | kernel/structs/ref_count_map.c:192-212 | the pointer walk along a chain finds the entry of the address and the one before it, or none |
| `RefCountHeap.Buckets.Unlink` | kernel/structs/ref_count_map.c:258-272 | unlinking through the entry before it, or through the bucket, drops exactly that entry from its chain |
| `RefCountHeap.Buckets.AdoptEntry` | kernel/structs/ref_count_map.c:163-171 | relinking one entry: its next field is overwritten, the rest of the old chain is still walked, and every count is in the new buckets or still pending |
| `RefCountHeap.Buckets.AdoptChain` | kernel/structs/ref_count_map.c:160-172 | a whole chain is moved entry by entry while it is being walked |
| `RefCountHeap.Buckets.AdoptAll` | kernel/structs/ref_count_map.c:158-173 | the rehash loop moves every entry node of every old chain |
| `RefCountHeap.RefCountMap.Resize` | kernel/structs/ref_count_map.c:141-190 | a rebuild on twice the blocks, out of the same entry nodes, changes no count, and a failed one nothing |
| `RefCountHeap.RefCountMap.Increment` | kernel/structs/ref_count_map.c:192-242 | answers the new count; sound exactly below 2^32 - 1; a new entry is refused exactly without memory, and the buckets are doubled for it exactly when 3/4 of them are in use and there are blocks |
| `RefCountHeap.RefCountMap.Decrement` | kernel/structs/ref_count_map.c:244-284 | answers the previous count, or 0, and lowers it; the entry goes at 0 |
| `RefCountHeap.Init` | kernel/structs/ref_count_map.c:111-139 | 1024 empty buckets, or null without the memory |
| `RefCountHeap.CountPastLimit` | kernel/structs/ref_count_map.c:206-212 | 2^32 increments of one address from a new map: the last answers 0 and leaves an entry that counts 0 |
| `RefCountHeap.Run` | kernel/structs/ref_count_map.c:192-284 | any run from an empty map, up to the first increment of a count of 2^32 - 1: each count is successful increments less successful decrements, whatever resizes happen, and every answer is right |
| `StackImage.LandsExactly` | system/process.c:131-180 | for every call, the downward writes end at the words missing for an absent table less the extra words of null arguments |
| `StackImage.NullTableMisses` | system/process.c:156-165 | with any arguments, an absent capability table with a count leaves that many pairs unwritten |
| `StackImage.NullArgumentsUnderflow` | system/process.c:133-146 | eight null arguments end one word too low |
| `StackImage.EffectsCancel` | system/process.c:131-180 | sixteen null arguments and an absent table of one capability cancel out |
| `StackImage.AdmittedCounts` | system/process.c:76-114 | a call is admitted exactly with at most 512 arguments and 1022 words |
| `StackImage.PageExactly` | system/process.c:109-180 | every written byte is inside the mapped page if and only if the call needs at most 512 words and ends no lower than word 0 |
| `StackImage.OverflowAccepted` | system/process.c:109-119 | an admitted call whose words exceed the mapped page |
| `StackImage.CountStrings` | system/process.c:66-73 | the first pass counts the string bytes |
| `StackImage.PushStrings` | system/process.c:131-146 | the string loop stores all strings and their addresses |
| `StackImage.PushCaps` | system/process.c:156-161 | the capability loop |
| `StackImage.PushPointers` | system/process.c:168-170 | the argument pointer loop |
| `StackImage.Build` | system/process.c:50-188 | for every admitted call the bytes from the end word to the value count become the image (fixed words, pointers, pairs, strings) and no other byte of memory changes; or the call is refused |
| `StackImage.WholeLength` | system/process.c:76-180 | the image of every call ends at the value count; it starts at word 0 when arguments and table are present |
| `StackImage.FixedReads` | system/process.c:163-180 | in every image, words 0 to 3 read as capability count and pointer, argument count and pointer |
| `StackImage.CapabilityReads` | system/process.c:156-165 | in every image, the capability pointer leads to the (id, cookie) pairs in order |
| `StackImage.KeptExactly` | system/process.c:135-141 | what is kept of an argument is its first 255 characters, or all of fewer |
| `StackImage.ArgumentReads` | system/process.c:131-172 | in every image, the pointer of an argument leads to its characters one by one, up to 255, and a 0 right after |
| `StackImage.NullReads` | system/process.c:131-172 | the pointer of a null argument is what the table held before |
| `ByteOrder.DecodeEncode` | tools/mkramfs/main.c:100-108 | a little-endian field reads back as written |
| `ByteOrder.EncodeDecode` | tools/mkramfs/main.c:100-108 | and bytes read as a field are written back the same |
| `ByteOrder.LittleEndian` | tools/mkramfs/main.c:100-108 | byte i of a field counts 256 to the power of i |
| `RamFs.WriteFilesystem` | tools/mkramfs/main.c:36-112 | place-holders, padded data and patches give the image |
| `RamFs.HeadReads` | system/ramfs.c:18-48 | the header of the written image validates and holds its size at byte 8 and the number of files at byte 16 |
| `RamFs.ValidExactly` | system/ramfs.c:18-34 | an image is valid if and only if its first eight bytes are the magic number and version 10 |
| `RamFs.InvalidRefused` | system/ramfs.c:36-67 | anything else is refused by every reader |
| `RamFs.SizeReadsExactly` | system/ramfs.c:36-48 | the int that is returned for size or number of files is right exactly below 2^31 |
| `RamFs.LargeImageMisreads` | system/ramfs.c:36-41 | the size returned for an image of one 2 GiB file is wrong |
| `RamFs.HeaderReads` | tools/mkramfs/main.c:78-80 | the fields of a file header read back |
| `RamFs.FieldMatches` | system/ramfs.c:60-64 | comparing up to 24 bytes, past the 16-byte field into what follows, matches a stored name exactly with the same name |
| `RamFs.ImageReads` | tools/mkramfs/main.c:36-112 | what is written reads as the files it was written from: header, names, lengths, offsets and data |
| `RamFs.FindFile` | system/ramfs.c:50-67 | the scan finds the first matching header, or none |
| `RamFs.FindReads` | system/ramfs.c:50-67 | in a written image a name is found exactly when a file has it, and then the first such file |
| `RamFs.OpenReads` | system/ramfs.c:69-79 | opening a found file gives exactly its bytes; an empty one does not open |
| `RamFs.ReadBack` | system/ramfs.c:50-80 | find, open and read: the bytes of the first file so called, if it has any |
| `RamFs.Layout` | tools/mkramfs/main.c:55-98 | every data area is page-aligned, behind the headers, inside a whole number of pages |
| `RamFs.DataApart` | tools/mkramfs/main.c:55-98 | the data areas of two files do not meet |
| `RamFs.WriteThenRead` | tools/mkramfs/main.c:36-112 | writing and reading a name back gives that file's bytes |

## Left out

Whole parts of the repository:

- Channel creation and destruction, and the copying of message buffers between address spaces: teardown depends on reading a task's link after it has been handed to a run queue.
- The slab and physical page allocators, page tables, address spaces, copy-on-write and translation shoot-down; memory from a lower layer is a success or failure chosen by the environment.
- Killing and exiting of tasks, placement on several processors, and the assembly task switch: the scheduler is modelled for one processor.
- Kernel log, sleep queue, shift array, device registry, path parsing, drivers and servers: they would only add easy members.
- Spin locks and interrupt flags: code under one lock is one step. Freeing of old storage after a resize.

Modelling decisions that a reader should know:

- IpcChannels.StepKeepsInv: the steps are over values, not linked lists; a task's wait for a wake-up that has already come ends at once, because unblocking puts it on a run queue whatever its state. What a reply does to the run queues when it meets a sender that was preempted before blocking, and so is queued already, is not part of this model.
- IpcRuns.BlockedUntilReply: speaks of senders that have blocked; the order in which a reply and the blocking happen is free, and `IpcRuns.BlocksUnlessReplied` covers the other order. Cookies are unique and nonzero.
- Mutex: entering the wait queue and blocking is one step under the scheduler lock; mutex_lock is modelled pass by pass, since a call spans context switches. A null mutex pointer is not modelled.
- RangeLists.Init: a metadata area smaller than one node of 24 bytes is not modelled, because vmm_init then writes in front of that area.
- The insertion point of a freed block is searched before the node is taken, which commutes.
- The two word loops of `find_unset_run`, for runs of up to 64 blocks and for longer ones, have the same body and are one loop here.
- The capability map is proved for every hash function; its own hash is one of them. Masking with a power of two less one is taken as the remainder; a map without storage is not modelled.
- RefCountHeap.AllocateBuckets: bucket arrays are a whole number of blocks, the only sizes the map asks for.
- The stack builder is given the memory it writes; an argument vector that is null with a positive count, and addresses that wrap, are not modelled. Little-endian words are assumed, as on both supported architectures.
- RAM file system: reading input files and command-line handling are left out; a null name is not modelled, an empty sequence stands for a null image, and bytes past its end read as 0.
- `all_queue_total` is an unbounded number; it counts tasks of 4 KiB each and cannot reach 2^64.
- Calls on a component that has not been initialised, which answer 0, null or an error at once, are not modelled.
