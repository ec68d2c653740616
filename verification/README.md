# SLOS, modelled in Dafny

SLOS is a small SMP kernel. This project models its hardest data structures and protocols and proves
what they keep. Each source file that changes things in place is modelled by classes and loops that
change things in place; what they compute is then stated on values, and the general results are
lemmas about those values.

| files | what they model |
|---|---|
| `rb_model`, `rb_links`, `rb_insert`, `rb_turn`, `rb_erase_color`, `rb_erase`, `rb_walk`, `rb_depth` | the intrusive red-black tree with parent pointers: node objects, and a functional tree with a focus (a subtree and the path above it) that the pointers are proved to stand for; and its depth |
| `leftmost_tree` | the tree with its cached leftmost node, as the run queue and the timer tree use it |
| `sched_task`, `run_queue`, `sched`, `cfs` | tasks, the CFS run queue, the scheduler tick; and the tick on values, with fairness and starvation over whole runs |
| `timer_tree`, `edf`, `edf_runs`, `timer_irq` | the timer tree, its keys over an interrupt and over runs, and the interrupt handler over both trees |
| `frame_pool`, `page_table`, `paging`, `heap_regions`, `vm_pool` | the frame bitmap, the fault handler, the state machine of heap faults and frees, and the lazy heap |
| `ramdisk`, `slfs_disk`, `slfs_files`, `slfs`, `slfs_crash`, `slfs_data_page`, `slfs_mount` | the flash, SLFS's layout on it, files as block chains, the file operations, the crash behaviour of the metadata page and of data pages, and what a mount makes of files |
| `mailbox`, `work_ring`, `strchr` | the two-CPU mailbox, the per-CPU work ring and the word-at-a-time string search |
| `arith`, `seq_ops` | facts about division and about sequences with one element put in or taken out |

How the C code is represented:

- A pointer to a node, task or timer is an object reference. `container_of` is a constant map from embedded
  nodes to the objects that embed them. The word that packs parent and colour is two fields.
- Region descriptors in the heap's first page are numbered by their place in it.
- Per-CPU variables are the fields of one CPU's objects. Spinlocks are atomic; a context switch is the update
  of `current`. The timer's load register is a field.
- Page-table words, 32-bit subtraction of timer keys, and seek offsets wrap as 32-bit words do. Runtimes, jiffies,
  priority sums and file positions are natural numbers.
- The flash keeps, for the specification, the sequence of operations made on it. A power cut stops such a sequence,
  so the crash results speak of the operations of the code and not only of what they leave.
- The calls that only move a task between wait lists are not modelled; their effect on the task's state is.

Where the code departs from what one would expect, the departure is a result here:

- `update_vruntime_runq` can put keys out of tree order (`Cfs.NormalisedSortedIff` says exactly when), so the
  run-queue invariant does not mention key order and key order is claimed for runs of ticks.
- A timer added between interrupts does not reprogram the hardware, and its key can then wrap
  (`Edf.AdditionKeepsIff` says when).
- A oneshot timer leaves the tree after its new key has been programmed, so the timer behind it can fire before
  its time (`EdfRuns.FiresOnTime` says exactly when, `EdfRuns.FiresEarly` is a case).
- `release_frame` takes the bit from the frame number and the byte from its distance to the base
  (`FramePools.ClearedIsReleased`).
- A release out of last-in-first-out order can make the next region overlap a live one
  (`HeapRegions.NextIsClear` says when, `HeapRegions.OverlapsLast` is a case).
- Recovery does not erase the swap page, so a file that is written after a recovery is lost at the next mount
  (`SlfsMount.WriteLostIff`, and `SlfsMount.LostAfterRecovery` for a case).
- The allocator hands out the blocks of the swap page, and the next metadata update erases them
  (`SlfsCrash.SurvivesIff` says which files survive, `SlfsMount.SwapHandedOut` is a case). A file that ends in
  the last block marks the swap page as a metadata page, and the next mount takes it for one
  (`SlfsMount.ArmsIff`, `SlfsMount.MountAfterWrites`).
- The record of a data page's update outlives the update, whose last step erases the swap page: the next mount
  still goes on to recover the page (`SlfsDataPage.NextMount`). While the swap page is complete, a data page whose
  last word is 0 is taken for a metadata page (`SlfsDataPage.TakenForMetadata`).
- `push_mail` spins while it holds the lock that the reader needs, so it ends only if its box was read when it
  took the lock (`Mailbox.PushEndsIff`); a second push in a row may not (`Mailbox.SecondPushStuck`).
- A write that runs out of blocks leaves its inode taken and all free blocks but one linked
  (`SlfsFiles.RanOutLeaves`).
- With 32 outstanding items the work ring looks empty (`WorkRing.SeenAll`).

## Model

| member | source | states |
|---|---|---|
| RbModel.PlugOk | kernel/core/rbtree.c:28-46 | the rules of a whole tree, split at any node: what the subtree and the tree around it must each meet |
| RbDepth.DepthBound | kernel/core/rbtree.c:38-46 | no path from the root is longer than twice the number of black nodes on it |
| RbDepth.LogDepth | kernel/core/rbtree.c:42-46 | in a valid tree of n nodes, two to the number of nodes above any place is at most (n + 1) squared: the O(log n) guarantee |
| RbModel.Rotated | kernel/core/rbtree.c:64-71 | a rotation in the heap, stated on pointers for either side, is a rotation of the tree, keeps its in-order sequence and its nodes, and leaves every parent pointer right |
| RbLinks.RotateSetParents | kernel/core/rbtree.c:64-71 | exchanges the parents and the colours of the two rotated nodes and hangs the new one below the old one's parent |
| RbLinks.ChangeChild | kernel/inc/rbtree_augmented.h:103-113 | the parent's link to the old node, or the root, is the only one redirected |
| RbLinks.RbLinkNode | kernel/inc/rbtree.h:84-91 | the node becomes a red leaf in exactly the hole it is linked to |
| RbInsert.RedPair | kernel/core/rbtree.c:73-196 | the loop invariant of insertion: a red node below a red parent is the only violation, and the grandparent is black |
| RbInsert.ParentIsLeft | kernel/core/rbtree.c:95-159 | the three cases for a left parent: either the tree is whole, or the same single violation stands two levels further up, with nodes and order kept |
| RbInsert.ParentIsRight | kernel/core/rbtree.c:160-194 | the mirrored cases |
| RbInsert.RbInsertColor | kernel/core/rbtree.c:73-196 | from a red node linked into any hole of a valid tree, the loop ends in a valid red-black tree with right parent pointers, all nodes, and the node between its old neighbours |
| RbRecolor.Deficit | kernel/core/rbtree.c:209-215 | the loop invariant of recolouring: next to a subtree one black node short there is a sibling, and what its colours allow |
| RbRecolor.NephewColors | kernel/core/rbtree.c:267-309 | the subtree that case 4 leaves is valid again, with and without case 3 before it |
| RbRecolor.SiblingFlip | kernel/core/rbtree.c:236-266 | case 2: the deficit is gone or stands one level further up |
| RbRecolor.NodeIsLeft | kernel/core/rbtree.c:216-309 | one turn of the loop for a left child: the tree is whole, or the deficit has moved towards the root |
| RbRecolor.NodeIsRight | kernel/core/rbtree.c:310-360 | the mirrored turn |
| RbRecolor.RbEraseColor | kernel/core/rbtree.c:202-362 | from an empty subtree one black node short, the loop ends in a valid red-black tree with the same nodes in the same order |
| RbRemove.EraseOneChild | kernel/inc/rbtree_augmented.h:125-148 | a node with at most one child is unlinked; only a black leaf below the root asks for recolouring |
| RbRemove.FindSuccessor | kernel/inc/rbtree_augmented.h:180-184 | the do-while loop ends at the leftmost node of the right subtree, and its parent |
| RbRemove.EraseTwoChildren | kernel/inc/rbtree_augmented.h:149-208 | the successor takes the node's place, its colour and both its subtrees; only the removed node is gone from the order |
| RbRemove.RbEraseAugmented | kernel/inc/rbtree_augmented.h:118-212 | removal of any node: a valid tree, or one with a deficit exactly at the returned node; the order is the old one without the node |
| RbRemove.RbErase | kernel/core/rbtree.c:391-397 | for every valid tree and every node in it: terminates in a valid tree, with right parent pointers, whose in-order sequence and node set are the old ones without the node |
| RbWalk.RbFirst | kernel/core/rbtree.c:415-425 | the first node in order, or null exactly for the empty tree |
| RbWalk.RbNext | kernel/core/rbtree.c:439-468 | for every node of a valid tree, the next one in order, or null for the last |
| LeftmostTree.CachedTree.LinkAt | kernel/core/runq.c:51-58 | linking at the end of a descent keeps the cached leftmost node equal to the first node in order, and inserts the node at the place of the descent |
| LeftmostTree.CachedTree.Delete | kernel/core/runq.c:86-103 | deletion keeps the cached leftmost node, and takes exactly the node out of the order |
| SchedTask.PriorityShift | kernel/core/sched.c:155-168 | a CFS priority is accepted exactly when it is 1, 2, 4, 8 or 16, and the shift is its logarithm |
| RunQueue.CfsRq.FindPlace | kernel/core/runq.c:37-50 | whatever the keys are, the descent ends between an entity with a smaller key and one whose key is not smaller, and knows whether it is leftmost |
| RunQueue.CfsRq.EnqueueSe | kernel/core/runq.c:25-59 | the entity is inserted into the order at such a place, the tree stays valid and the leftmost cache right, for keys in any order |
| RunQueue.CfsRq.DequeueSe | kernel/core/runq.c:86-103 | exactly this entity leaves the order, for keys in any order |
| RunQueue.CfsRq.UpdateVruntime | kernel/core/runq.c:105-140 | every queued entity is visited once and gets the largest multiple of its own priority not above the leftmost's old vruntime, itself rounded down to the leftmost's priority; an entity that is not queued is rounded from the old vruntime itself |
| RunQueue.CfsRq.RoundTo | kernel/core/runq.c:122-131 | shift and multiply round down to a multiple of the priority; a multiple of it is kept |
| RunQueue.CfsRq.EnqueueSeToRunq | kernel/core/runq.c:142-164 | keeps the run-queue invariant: valid links and cache, the queued tasks are exactly the running ones, the priority sum, vruntime = consumed * priority; on values the queue becomes the normalised one with the task, rounded as well, between a smaller key and one that is not smaller |
| RunQueue.CfsRq.DequeueSeToWq | kernel/core/waitq.c:161-187 | keeps the same invariant while the task waits; the queue is the model's normalised queue without it |
| RunQueue.CfsRq.WfQueue | kernel/core/sched.c:312-315 | a valid run queue meets what the fairness, starvation and normalisation results ask of a queue |
| RunQueue.CfsRq.RoundedLevel | kernel/core/runq.c:122-131 | what normalisation leaves meets the condition of the settling results: no vruntime above L, each above it after one more tick |
| RunQueue.CfsRq.InitRq | kernel/core/runq.c:61-84 | establishes the run-queue invariant with the idle task alone in the tree, though the cache names its node before the node is linked; its vruntime stays as it was |
| RunQueue.CfsRq.UpdateSe | kernel/core/runq.c:166-186 | the leftmost entity goes behind those with a smaller key, and nothing else moves |
| Sched.Cpu.UpdateCurrent | kernel/core/sched.c:297-319 | a CFS task is charged one jiffy, its ticks and its new vruntime, a real-time task its ticks alone, a oneshot task nothing |
| Sched.Cpu.Schedule | kernel/core/sched.c:98-136 | the leftmost task becomes the current one |
| Sched.Cpu.CfsScheduler | kernel/core/ktimer.c:40-44 | update_se then schedule: the current task is the leftmost of the reordered queue |
| Sched.Cpu.SchedTick | kernel/core/timer.c:161-174 | keeps the run-queue invariant and charges the interrupted task before the leftmost one is requeued; from a queue sorted but for its leftmost current task it performs the model's tick, after which the same holds again |
| Sched.Cpu.SchedTicks | kernel/core/timer.c:161-174 | n scheduler interrupts over a fixed queue are the model's run of n ticks, with the same tasks and the same condition at the end; jiffies grow by n, and each task's ticks by those of the interrupts that found it leftmost |
| Sched.Cpu.FairTicks | kernel/core/timer.c:161-174 | after such a run from a sorted, fair queue, such as one of equal vruntimes, the weighted consumptions of any two queued tasks differ by at most the larger priority |
| Sched.Cpu.StarvingTicks | kernel/core/timer.c:161-174 | from a sorted, fair queue, a queued task whose consumption a run of n interrupts leaves unchanged has n <= the sum over the others of p / p_j + 1; the queue ends sorted and fair again |
| Sched.Cpu.SettlingTicks | kernel/core/timer.c:161-174 | from the rounded queue that an enqueue or a dequeue leaves, in key order or not, as many interrupts as there are tasks advance each task exactly once, in the order that they stood in, and leave the queue sorted and fair |
| Sched.Cpu.FairAfterSettling | kernel/core/timer.c:161-174 | from then on, over any run, weighted consumptions differ by at most the larger priority |
| Sched.Cpu.CurrentIsMinimal | kernel/core/sched.c:98-136 | in a sorted queue the current task has minimal vruntime |
| Cfs.PositionOnly | kernel/core/runq.c:40-50 | in a sorted queue there is one place where enqueue_se can put a key |
| Cfs.TickRefined | kernel/core/runq.c:166-186 | any place that the code may choose for the advanced leftmost entity gives the model's tick |
| Cfs.TickSorted | kernel/core/runq.c:178-185 | a tick leaves the whole queue sorted when all but its leftmost was, and keeps the tasks |
| Cfs.TickFair | kernel/core/runq.c:178-185 | a tick keeps v_i <= v_j + p_i for all queued tasks |
| Cfs.RunFair | kernel/core/timer.c:161-174 | over any number of ticks the queue stays sorted, fair and the same in its tasks |
| Cfs.EqualIsFair | kernel/core/sched.c:312-315 | a queue of equal vruntimes is sorted and fair, so the results on runs of ticks start from it |
| Cfs.WeightedFairness | kernel/core/sched.c:312-315 | over every run of ticks from a sorted, fair queue, such as one of equal vruntimes, weighted consumptions differ by at most the larger priority |
| Cfs.TickPays | kernel/core/runq.c:166-186 | a tick that advances another task takes exactly one from the sum of the debts to a waiting task |
| Cfs.WaitsPays | kernel/core/runq.c:166-186 | over n ticks without it a task's entity does not change and the debts to it fall by n |
| Cfs.NoStarvation | kernel/core/runq.c:166-186 | in a sorted fair queue a task is passed over for at most the sum over the others of p / p_j + 1 ticks |
| Cfs.RunTurns | kernel/core/sched.c:312-315 | over a run each task's consumption grows by exactly the ticks that found it leftmost, and nothing else of it changes |
| Cfs.NormalisedV | kernel/core/runq.c:125-131 | normalisation gives each entity the largest multiple of its priority in (L - p, L] |
| Cfs.NormalisedTwice | kernel/core/runq.c:105-140 | the leftmost keeps its vruntime when it is a multiple of its priority, and a second normalisation changes nothing |
| Cfs.NormalisedGap | kernel/core/runq.c:105-140 | after normalisation no task is ahead of another by the other's priority |
| Cfs.NormalisedSortedIff | kernel/core/runq.c:105-140 | normalisation leaves the tree in key order exactly when every queued priority divides the leftmost vruntime |
| Cfs.NormalisedDisorders | kernel/core/runq.c:105-140 | a sorted, fair queue that normalisation puts out of key order |
| Cfs.RoundSettles | kernel/core/runq.c:166-186 | from any rounded queue and whatever places the descents find, one tick for each task advances each task exactly once and leaves the queue sorted and fair |
| Edf.Sub32Down | kernel/core/ktimer.c:155-156 | subtracting the elapsed ticks lowers a 32-bit key exactly when that many ticks were left |
| Edf.RewrittenTail | kernel/core/ktimer.c:138-163 | the rewriting keeps all but the leftmost timer sorted when elapsed is at most each of their keys |
| Edf.InsertedSorted | kernel/core/ktimer.c:52-80 | insertion behind the keys that are not larger keeps the keys sorted |
| Edf.InterruptKeeps | kernel/core/timer.c:151-159 | if the keys are sorted and elapsed is at most each but the leftmost, one interrupt leaves them sorted and programs the least one, so the next interrupt meets the same condition |
| Edf.RemovalKeeps | kernel/core/ktimer.c:285-300 | so does the removal of a timer |
| Edf.RewrittenTailIff | kernel/core/ktimer.c:138-163 | the rewriting keeps all but the leftmost timer sorted exactly when none or all of them are overdue |
| Edf.AdditionKeepsIff | kernel/core/ktimer.c:175-253 | adding a timer between interrupts keeps the condition exactly when the timers that it leaves behind the leftmost place have the programmed interval left |
| Edf.ShortTimerWraps | kernel/core/ktimer.c:222-253 | keys for which a timer added between interrupts breaks the condition, and its key wraps round |
| EdfRuns.FiresWithin | kernel/core/timer.c:143-159 | over every run of interrupts without additions, a waiting timer fires no later than its key plus the least interval for each interrupt, and earlier by no more than its key is above the programmed interval |
| EdfRuns.FiresOnTime | kernel/core/timer.c:143-196 | its interrupt comes before its key is used up exactly when the interrupt before was that of a oneshot timer requeued leftmost with a smaller key; otherwise it is not early |
| EdfRuns.FiresEarly | kernel/core/timer.c:143-196 | a run in which a oneshot timer makes the next timer fire 194 ticks before its time |
| TimerTree.TimerRoot.InsertTimer | kernel/core/ktimer.c:52-80 | inserted behind the timers whose key is not larger; valid tree and leftmost cache, for keys in any order |
| TimerTree.TimerRoot.DelTimer | kernel/core/ktimer.c:285-300 | exactly this timer leaves the order |
| TimerTree.TimerRoot.RewriteKeys | kernel/core/ktimer.c:136-163 | each key is rewritten exactly once, by the rule for its place |
| TimerTree.TimerRoot.UpdateTimerTree | kernel/core/ktimer.c:124-173 | the rewritten keys with the old leftmost timer moved to its place; the same timers, valid tree and leftmost cache |
| TimerIrq.Core.Reprogram | kernel/core/timer.c:151-159 | keeps the keys sorted and all but the leftmost at least as long as the programmed interval, and programs the least key in the tree |
| TimerIrq.Core.SchedulerFired | kernel/core/timer.c:161-174 | the scheduler timer's dispatch: a real-time task is charged but not preempted; any other is charged, the leftmost task is requeued and the new leftmost runs, and the timer remembers the interrupted task |
| TimerIrq.Core.SwitchTo | kernel/core/timer.c:176-192 | the timer's task becomes current and yields to the interrupted one; an interrupted real-time task is marked preempted |
| TimerIrq.Core.Preempt | kernel/core/timer.c:161-192 | a oneshot or real-time timer first charges the interrupted task like any other interrupt, then switches to its own task |
| TimerIrq.Core.OneshotFired | kernel/core/timer.c:161-208 | the interrupted task is charged; the timer's task becomes current and, if it was waiting, is enqueued into the charged queue; exactly this timer leaves the tree |
| TimerIrq.Core.RealtimeFired | kernel/core/timer.c:161-208 | the interrupted task is charged and the queue has its entity advanced; the timer's task becomes current; a deadline is counted as missed exactly when the interrupted task is neither done nor preempted |
| TimerIrq.Core.Dispatch | kernel/core/timer.c:163-208 | the three branches together |
| TimerIrq.Core.Irq | kernel/core/timer.c:127-218 | one interrupt keeps the run-queue invariant and the timer invariant together; what it charges to the interrupted task whichever timer fired, then what that timer's part makes of the run queue, the tasks and the timers; on the keys it is a step of the runs of EdfRuns |
| FramePools.FramePool.constructor | kernel/core/frame_pool.c:26-79 | exactly the preallocated frames of the kernel's pool are taken, for any number of them |
| FramePools.FramePool.GetFrame | kernel/core/frame_pool.c:81-119 | the first free frame is taken and no other; -1 exactly when all frames are taken |
| FramePools.FramePool.ReleaseFrame | kernel/core/frame_pool.c:146-172 | refused exactly for frames outside the pool or in the inaccessible range; frees the given frame when the base is a multiple of 8 |
| FramePools.ClearedIsReleased | kernel/core/frame_pool.c:152-169 | the cleared bit is the given frame's exactly when the base is a multiple of 8 |
| Paging.FramesMatchPages | kernel/core/page_table.c:66-133 | there is one allocated heap frame for each mapped heap page |
| Paging.NeverDry | kernel/inc/mem_layout.h:111-116 | pigeonhole: while a heap page is unmapped a heap frame is free, so get_frame does not fail in the fault handler |
| Paging.StepKeeps | kernel/core/page_table.c:66-133 | mapped heap pages hold distinct heap frames and those are exactly the allocated ones, after every fault and free |
| Paging.RunNeverDry | kernel/core/page_table.c:66-133 | the same over every run from boot, with a free frame for the next fault |
| PageTables.PageTable.Booted | kernel/core/mm.c:218-221 | the state after boot meets the invariant |
| PageTables.EntryAttrs | kernel/core/page_table.c:80-96 | the fields of the two entries that a fault writes: full access, TEX 001 without C and B, shareable, executable, domain 15, reserved bits clear; for every frame |
| PageTables.PageTable.HandleFault | kernel/core/page_table.c:66-97 | both table words that a fault writes, and the frame it takes, for every fault address; the address then translates to that frame as normal memory with full access, shared, not cached and executable, unless the directory entry was another's |
| PageTables.PageTable.HeapFault | kernel/core/page_table.c:66-97 | a fault on an unmapped heap page keeps the invariant, and the address then translates to a heap frame that no other page had, with those attributes |
| PageTables.PageTable.FreePage | kernel/core/page_table.c:99-133 | the entry is cleared and its frame released exactly when it is a heap frame, for every address |
| PageTables.PageTable.Free | kernel/core/page_table.c:99-133 | on a heap page it keeps the invariant and the page faults again; on any other page the invariant survives exactly when the entry does not hold a mapped heap page's frame |
| PageTables.PageTable.Isolated | kernel/core/page_table.c:66-97 | two heap addresses reach the same frame exactly when they are in the same page, and only heap frames are reached |
| VmPools.VmPool.constructor | kernel/core/vm_pool.c:30-55 | the first region is the descriptors' page, faulted in |
| VmPools.VmPool.Allocate | kernel/core/vm_pool.c:58-83 | one region is appended, where the live sizes end |
| VmPools.VmPool.Release | kernel/core/vm_pool.c:85-122 | exactly the first region with that start leaves the list, its pages and no others are unmapped, and the total shrinks by its pages; an unknown address changes nothing |
| VmPools.VmPool.ReleaseLast | kernel/core/vm_pool.c:85-122 | a release of the last region takes exactly it and its pages, and keeps the tiling and that no page behind the live regions is mapped |
| VmPools.VmPool.AllocateTouchRelease | kernel/core/vm_pool.c:58-122 | allocating, faulting in any of the region's pages in any order, and releasing restores the list, the total, every second-level entry and the set of allocated frames; the descriptor and the directory entries of the touched pages are what is left |
| VmPools.VmPool.Push | kernel/core/vm_pool.c:58-83 | an allocation of a size that is not 0 puts its region on top of the tiling |
| VmPools.VmPool.Use | kernel/core/page_table.c:66-111 | accesses to any live region map exactly the pages they touch, keep the frame of every page that was mapped, and keep the tiling |
| VmPools.VmPool.Nested | kernel/core/vm_pool.c:58-122 | over every run of allocations, accesses to the run's own regions and last-in-first-out releases: the earlier regions and all entries below the new ones stay as they were, and the mapped pages are exactly those from before and the touched ones of regions not yet released; with all its regions released, the total, every second-level entry and the set of allocated frames are restored |
| HeapRegions.TiledApart | kernel/core/vm_pool.c:72-80 | regions that tile the heap do not overlap and end by the total |
| HeapRegions.TiledSteps | kernel/core/vm_pool.c:72-109 | allocation and release of the last region keep the tiling |
| HeapRegions.NextIsClear | kernel/core/vm_pool.c:75-109 | after a release the next region is clear of all live ones exactly when the released one was last, or the regions behind it and the new one fit in its place together |
| HeapRegions.OverlapsLast | kernel/core/vm_pool.c:75-109 | three one-page regions of which the middle one is released: the next region lies on the last one |
| RamdiskIo.Ramdisk.Read | kernel/drivers/ramdisk/ramdisk_io.c:65-77 | returns exactly the addressed bytes, or fails exactly when they leave the disk |
| RamdiskIo.Ramdisk.Write | kernel/drivers/ramdisk/ramdisk_io.c:51-63 | writes exactly the addressed bytes as one more flash operation, or fails and changes nothing |
| RamdiskIo.Ramdisk.ErasePage | kernel/drivers/ramdisk/ramdisk_io.c:41-49 | exactly the bytes of the page become 0xFF, as one more flash operation |
| SlfsDisk.TailWritten | kernel/fs/slfs/slfs.c:400-419 | a block's link words are written and no other block, inode or metadata changes |
| SlfsDisk.RecordWritten | kernel/fs/slfs/slfs.c:1008-1021 | an inode record is written and nothing else changes |
| Slfs.SlfsFile.Seek | kernel/fs/slfs/slfs.c:889-926 | the position stays inside the file or does not change; when each mode succeeds and where it lands, with 32-bit wrap-around |
| Slfs.FileSystem.UpdateFp | kernel/fs/slfs/slfs.c:274-312 | the first inode whose size is unwritten, or an error exactly when there is none |
| Slfs.FileSystem.AllocDatablk | kernel/fs/slfs/slfs.c:314-432 | succeeds exactly when there are ceil(size / 504) free blocks; the chain is the first ones in address order, linked both ways from the inode to 0, and nothing else changes; without enough blocks the inode is open and the free blocks are a chain without an end |
| Slfs.FileSystem.WriteData | kernel/fs/slfs/slfs.c:1028-1064 | each block of the chain gets its 504 bytes of the data, the last one the rest, and nothing else changes |
| Slfs.FileSystem.Write | kernel/fs/slfs/slfs.c:928-1064 | a first write succeeds exactly when an inode and enough blocks are free, and then is the model's step: a new file with the data, all other inodes and blocks untouched; what it leaves on the disk and in the handle when it fails |
| Slfs.FileSystem.GetDatablkAddr | kernel/fs/slfs/slfs.c:457-486 | the address of the chain's block with that index |
| Slfs.FileSystem.Read | kernel/fs/slfs/slfs.c:1164-1224 | the file's bytes from the position on, as many as are asked for and there, at block boundaries too |
| Slfs.FileSystem.RoundTrip | kernel/fs/slfs/slfs.c:889-1224 | a first write of D, which is the model's step, a seek to p <= |D| and a read of n bytes return D[p .. min(p + n, |D|)] |
| SlfsFiles.NewFileOk | kernel/fs/slfs/slfs.c:314-432 | the new file's chain has ceil(size / 504) blocks, increasing addresses and matching links, starts at its inode, and reads back as written |
| SlfsFiles.WriteIsolated | kernel/fs/slfs/slfs.c:928-1064 | a first write keeps every earlier file's inode, chain and data, and shares neither blocks nor inode with it |
| SlfsFiles.RunIsolated | kernel/fs/slfs/slfs.c:928-1064 | from any disk of well-formed files and over any run of first writes, each new file reads back what was written to it, the earlier files keep their data, and all chains are disjoint |
| SlfsFiles.RanOutKeeps | kernel/fs/slfs/slfs.c:354-432 | when the blocks run out, every file keeps its data |
| SlfsFiles.RanOutLeaves | kernel/fs/slfs/slfs.c:354-432 | and if there was a free block at all, the inode is taken and only the last free block stays free |
| SlfsCrash.CopyFlashToFlash | kernel/fs/slfs/slfs.c:163-191 | performs exactly the sequence of block writes that the crash lemmas cut, in its order |
| SlfsCrash.WriteMetadata | kernel/fs/slfs/slfs.c:193-272 | rw_page(0, true) performs exactly the sequence of flash operations that the crash lemmas cut, in its order; the metadata page becomes the buffer but for its last word, which is 0, the data pages stay and the swap page ends erased |
| SlfsCrash.Mount | kernel/fs/slfs/slfs.c:709-767 | the recovery is exactly the modelled sequence of operations; the page it copies, the data page that it goes on to recover, read off the two words that decide it, and whether it formats |
| SlfsCrash.CutInSwap | kernel/fs/slfs/slfs.c:210-227 | a cut before the swap page is complete leaves it unarmed, whatever it was before, and the metadata page old |
| SlfsCrash.CutAfterSwap | kernel/fs/slfs/slfs.c:256-269 | a later cut leaves the new image in an armed swap page |
| SlfsCrash.MetadataAtomic | kernel/fs/slfs/slfs.c:193-272 | a power cut in or between any operations of the metadata update, then any number of cut mounts: the next whole mount leaves the old page or the new one, as the swap page was complete or not, no data page changes, no mount goes on to recover a data page, and the flash, whose swap page a recovery leaves armed, is again what the next update asks for |
| SlfsCrash.RunAtomic | kernel/fs/slfs/slfs.c:193-272 | over every run of metadata updates, each cut anywhere and followed by any number of cut mounts and a whole one, the metadata page is the last image whose swap page was complete |
| SlfsCrash.RunFormatted | kernel/fs/slfs/slfs.c:193-272 | when all buffers have the magic string, the flash has it after every such recovery, so no mount formats it |
| SlfsCrash.FileSurvives | kernel/fs/slfs/slfs.c:193-272 | a file whose inode record is in the last complete image of such a run, and none of whose blocks is in the swap page, reads back the same after it |
| SlfsCrash.SurvivesIff | kernel/fs/slfs/slfs.c:354-366 | a whole metadata update keeps a file whose inode it keeps exactly when the allocator gave it no block of the swap page |
| SlfsCrash.MountUndoes | kernel/fs/slfs/slfs.c:546-561 | recovery leaves the swap page armed: a mount leaves the metadata page alone exactly when the swap page is not armed or holds the same page |
| SlfsDataPage.WriteDataPage | kernel/fs/slfs/slfs.c:193-272 | rw_page of a data page performs exactly the modelled sequence of flash operations; the page becomes the buffer, and its address stays in the garbage table if the one entry was free |
| SlfsDataPage.WritePage | kernel/fs/slfs/slfs.c:193-272 | for every page number: an error past the flash, the metadata update for page 0, the data update for the others |
| SlfsDataPage.NextMount | kernel/fs/slfs/slfs.c:723-746 | power cut anywhere in a data page's update, or after it: the next mount goes on to recover exactly this page once it is recorded, no page before that, and no page of the flash when the record was cut short |
| SlfsDataPage.TakenForMetadata | kernel/fs/slfs/slfs.c:709-722 | while the swap page is complete, the next mount copies the data page over the metadata page exactly when its last word is 0 |
| SlfsMount.WriteLostIff | kernel/fs/slfs/slfs.c:928-1064 | a first write outside the swap page, on a flash that a mount has settled, survives the next mount exactly when the swap page is not armed; after a recovery the mount takes its inode back and keeps the files from before |
| SlfsMount.LostAfterRecovery | kernel/fs/slfs/slfs.c:546-561 | a formatted flash after a recovery and a first write to it that the next mount undoes |
| SlfsMount.ArmsIff | kernel/fs/slfs/slfs.c:400-419 | a first write arms the swap page exactly when it gets the last data block, whose end word is the swap page's mark |
| SlfsMount.MountKeepsIff | kernel/fs/slfs/slfs.c:546-561 | a mount keeps a file exactly when the swap page is not armed or has the file's size and first block too |
| SlfsMount.MountAfterWrites | kernel/fs/slfs/slfs.c:709-722 | after any run of first writes from a flash that is not armed, a mount keeps every file exactly when none of them has the last block or the swap page names all of them; it goes on to no data page if the garbage table named none |
| SlfsMount.BelowSwapIff | kernel/fs/slfs/slfs.c:354-366 | a first write stays below the swap page exactly when there are enough free blocks there |
| SlfsMount.SwapHandedOut | kernel/fs/slfs/slfs.c:354-366 | a formatted flash and a first write that gets a block of the swap page, and whose file the next metadata update destroys though its inode is in the new image |
| Mailbox.StepKeeps | kernel/core/mailbox.c:40-91 | every single access of either CPU keeps the lock, letter and history invariant, and overwrites no unread letter |
| Mailbox.RunSafe | kernel/core/mailbox.c:40-91 | over every two-CPU interleaving: at most one critical section, no lost letter, and each box's pushed sequence is its pulled sequence and the pending letter |
| Mailbox.StuckForever | kernel/core/mailbox.c:57-65 | a push that takes the lock while its box is unread never ends, in any continuation |
| Mailbox.SecondPushStuck | kernel/core/mailbox.c:40-66 | a CPU that pushes twice before the other pulls gets into that state: a run of eight accesses |
| Mailbox.Delivery | kernel/core/mailbox.c:57-65 | a push that takes the lock when its box is read delivers its letter and returns with its fourth access, whatever the other CPU does between |
| Mailbox.PushEndsIff | kernel/core/mailbox.c:57-65 | given four accesses after the lock, a push has returned, the lock is free and its letter is the next one sent, exactly when the box was read as the lock was taken; otherwise it still holds the lock |
| Mailbox.StaysRead | kernel/core/mailbox.c:48-65 | a box that is read when push_mail is called is read when it takes the lock |
| Mailbox.CallDelivers | kernel/core/mailbox.c:40-66 | so a call that finds its box read delivers, four accesses after it has taken the lock |
| Mailbox.PullStages | kernel/core/mailbox.c:80-91 | after a pull has taken the lock, where each of its own accesses leaves it, whatever the other CPU does between |
| Mailbox.PullReturns | kernel/core/mailbox.c:80-91 | a pull ends with its second or fourth access after the lock: it returns the letter of the box as the lock was taken, then the last one pulled, or EMPTY if the box was read, and the lock is free |
| Mailbox.LetterArrives | kernel/core/mailbox.c:40-91 | a letter pushed into a box that was read at the lock is what the next pull of the box returns, over every interleaving and whenever that pull comes |
| Mailbox.Exchange | kernel/core/mailbox.c:40-91 | a run of twelve accesses in which one CPU pushes and the other pulls a letter |
| WorkRing.EnqueueKeeps | kernel/core/task.c:433-451 | each store of enqueue_workq keeps the ring invariant, at any point of the worker's loop |
| WorkRing.WorkerKeeps | kernel/core/task.c:296-316 | so does each step of the worker |
| WorkRing.RunFifo | kernel/core/task.c:296-316 | over every interleaving with at most 31 items behind deq_idx, the items that ran are a prefix of those enqueued, each once and in order |
| WorkRing.DrainEnds | kernel/core/task.c:312-316 | at the end of a drain exactly the snapshot has run and later items are still in their slots |
| WorkRing.SeenAll | kernel/core/task.c:302-307 | the worker sees all outstanding items exactly when there are fewer than 32 |
| WorkRing.Ring.EnqueueWorkq | kernel/core/task.c:433-451 | its stores are the steps of the interleavings, in their order, and the item joins the queue's end |
| WorkRing.Ring.Drain | kernel/core/task.c:296-316 | one wake-up calls exactly the items that were there at its start, in their order, and keeps what arrived during it |
| StrChr.FilterWord | kernel/libs/lib.c:224-273 | the magic-bits test fires exactly on words with a zero byte and on those whose top byte is 0x80 |
| StrChr.FilterExact | kernel/libs/lib.c:257-277 | the masked test fires exactly on words with a byte c and on those whose top byte is c with its top bit flipped |
| StrChr.FirstOccurrence | kernel/libs/lib.c:176-176 | the byte search that serves as specification is the first occurrence of section 7.24.5.2 of ISO/IEC 9899:2011 |
| StrChr.Strchr | kernel/libs/lib.c:177-322 | for every alignment and every terminated string, the result of the byte search |

## Left out

- RunQueue.CfsRq.EnqueueSeToRunq: requires that the task is not queued already, which wakeup_workq_worker does not check.
- RunQueue.CfsRq.UpdateSe: requires two queued entities, as the code reads the second one without a check.
- Sched.Cpu.SettlingTicks: requires that the current task is leftmost; after a woken task has gone leftmost, the next tick still charges the task that was current.
- TimerIrq.Core.Irq: requires that a oneshot timer is not the only one in the tree, since the next interrupt reads the leftmost timer without a check.
- PageTables.PageTable.HeapFault: is about faults on unmapped heap pages; a fault elsewhere also takes a heap frame (HandleFault states what it does).
- VmPools.VmPool.Allocate: requires a free descriptor and enough heap, neither of which the code checks, and does not model its branch for a null last region, which no operation leaves.
- VmPools.VmPool.Release: requires an address other than the first region's, for which the code follows a null predecessor.
- VmPools.VmPool.AllocateTouchRelease: first-level entries that a fault has filled stay filled.
- RamdiskIo.Ramdisk.Read: requires that address and length add up below 2^32; past it the bounds test passes and the access leaves the disk.
- RamdiskIo.Ramdisk.Write: the same.
- Slfs.FileSystem.Read: requires that position and length add up below 2^32; past it the length is not cut to the file's end.
- Slfs.FileSystem.RoundTrip: the same.
- Slfs.FileSystem.Write: stops where the code would collect garbage, and models writes on handles without data only.
- SlfsCrash.MetadataAtomic: requires that the garbage tables of the old and the new image name no data page, since data-page recovery is left out.
- SlfsCrash.Mount: stops where the code would recover a data page, format the flash or load the superblock, whose success test is inverted.
- SlfsDataPage.NextMount: is about data pages other than the swap page itself, and about a free garbage table entry.
- WorkRing.RunFifo: enqueue_workq calls do not interleave with each other.
- StrChr.Strchr: memory ends with a whole word, so that the last word can be read.
- cfs_task_num, which only the shell's commands read.
- dequeue_se_to_exit, yieldyi, real-time task start-up and the task lists.
- The wait-queue list, whose links add_to_wq leaves stale.
- Augmentation callbacks (dummies here), rb_last, rb_prev, rb_replace_node and postorder traversal.
- SLFS overwrite, append, delete, garbage collection and data-page recovery, which pass addresses for page numbers or read raw pointers.
- Crash behaviour of whole-file writes: the inode is written from an uninitialised local first.
- mark_prealloc_frame, which nothing calls; init_pgt's constant table fill; TLB and cache maintenance.
- Overflow of vruntime, jiffies, ticks and priority sums in their C types.
- The other routines of lib.c, the shell, the drivers and boot code.
