# HanOS core, modelled and proved in Dafny

HanOS is a small x86-64 kernel. This project models the parts of it that are state machines and
algorithms, in the form the C code has (classes with fields and arrays updated in place, loops as
loops), and proves what those parts are for.

| files | what they model |
|---|---|
| `Common.dfy` | optional results, the 64-bit word, the page |
| `Pmm.dfy` | the frame allocator: byte bitmap, running free size, first fit |
| `PageMap.dfy`, `PageSteps.dfy`, `AddrSpaces.dfy` | 4-level page tables: the radix tree on values, runs of calls, the methods |
| `HeapSteps.dfy`, `HeapRuns.dfy`, `Heap.dfy`, `Vector.dfy` | the page heap with header pages on the frame allocator: on values, runs of calls, the methods; and the growing array on that heap |
| `KernelMemory.dfy` | page tables and heap on one frame allocator |
| `SchedSteps.dfy`, `SchedProgress.dfy`, `Sched.dfy` | the multi-CPU scheduler: steps and runs on values, what every task that can run is owed, the methods |
| `SpinLock.dfy`, `SpinProgress.dfy` | the spinlock as instructions of N CPUs with interrupts: safety, progress |
| `FatChain.dfy`, `FatDisk.dfy`, `FatLinks.dfy`, `FileData.dfy`, `FileWrite.dfy`, `Fat32.dfy`, `FileRuns.dfy` | FAT32: cluster chains, the FAT on disk, sequences of links in both, file contents, the write loop, the methods, runs of writes over many files |
| `LongName.dfy` | long names stored backwards in directory entries |
| `Calendar.dfy` | dates to seconds and back |
| `VfsTree.dfy`, `Vfs.dfy`, `VfsRuns.dfy` | the path tree: on values, the method, runs of calls |

`dafny verify dfyconfig.toml` checks everything.

How the pieces fit together:

- A method that changes state is tied by its `ensures` to a function or predicate on values
  (`View()`, `St()`, `Switched`, `Step`, `Answer`, ...), and the theorems are lemmas about those.
  Snapshots of the state are datatypes; runs are sequences of them.
- A result `None`, `Panic` or `ok == false` stands for the kernel panic of `pmm_get`, for an access past
  the end of a buffer or table that the C code does not check, or for a loop that does not end; `Fault`
  stands for going on with memory that was not allocated. The contract says exactly when it happens.
- Physical memory ends below 2^52, the widest physical address of the architecture.
- Hardware inputs are parameters: clock readings (one for each visit of the scheduler's loop), the
  interrupted stack pointer, the words of a directory entry. The disk is an array of 512-byte FAT
  sectors and an array of clusters.
- In `SpinLock`, code in the critical section may change any flag but the interrupt flag, and
  interrupts strike wherever the interrupt flag is set, nested to any depth; the handlers may take the
  same lock.
- `Fat32.Volume.Valid` and `FatChain.IsChain` are the hypotheses about a volume: the FAT fills whole
  sectors and its first two entries are reserved, there are fewer than 0x0FFFFFFF clusters, and chains end
  in exactly 0x0FFFFFFF, the marker the code writes. A file always has a first cluster. That the request
  is at least as long as the chain, is a whole number of clusters and finds enough free entries is not
  assumed: `Fat32.Volume.Write` succeeds exactly then.

Where code and intent differ, the code is modelled and the difference is proved:

- The FAT sector written after a link (kernel/fs/fat32.c:195) is the one before the right one when the
  cluster number is a multiple of 128. `FatLinks.Agreement`, `FileWrite.WriteAgreement` and
  `FileRuns.RunAgreement` give the exact condition for memory and disk to agree after any links, after a
  call and after a run, `FatLinks.MountReads` and `FileRuns.RunMounted` what a mount reads in every case,
  `FatLinks.BoundaryExample` a file that breaks it.
- `fat32_get_next_cluster` knows one of the eight end marks of the FAT32 specification
  (kernel/fs/fat32.h:156-163). `FatChain.EndMarks` says exactly where a walk stops.
- `vfs_path_to_node` passes over a component that does not exist (kernel/fs/filebase.c:99-109).
  `VfsTree.LookupExact` and `VfsRuns.CreatedWhere` say exactly when it finds and creates what the path
  says, `VfsTree.MissingIgnored` and `VfsTree.MissingFolderExample` what happens otherwise.
- The loops over runs of frames compute their bound in 64 bits (kernel/core/mm.c:44). `Pmm.VisitsAll`,
  `Pmm.GetExactly` and `HeapSteps.TooLargeExactly` give the exact conditions under which frames are missed.
- `vec_erase` copies seven bytes too many (kernel/lib/vector.h:52). `Vector.PagesHold` shows that they
  are inside the block's pages whatever the vector's history.
- `map_page` and `unmap_page` use different masks (kernel/core/mm.c:189 and 229).
  `PageMap.TableEntry` shows that they agree on table entries.
- `NUM_PAGES` wraps around for sizes near 2^64. `HeapSteps.NumPagesSuffice` gives the exact condition,
  `HeapSteps.CopyOverrunsExactly` what it means for `kmrealloc`.
- `fat32_get_datetime` does not end for month 0 and normalises other fields that are no date.
  `Calendar.MonthLoopEnds` and `Calendar.GetDateTime` give the exact conditions.

## Model

| member | source | states |
|---|---|---|
| Pmm.ClearBit | kernel/core/mm.c:45 | clearing one bit of the bitmap byte changes that bit only |
| Pmm.RaiseBit | kernel/core/mm.c:67 | setting one bit changes that bit only |
| Pmm.PhysMem.constructor | kernel/core/mm.c:117-132 | the cleared bitmap, its size rounded down as in the source, has no free frame |
| Pmm.PhysMem.AddressFree | kernel/core/mm.c:54 | the byte and bit arithmetic tests membership of the frame in the free set |
| Pmm.VisitsBound | kernel/core/mm.c:44 | the 64-bit bound of the loops: the addresses they visit are those of the first `Visits` frames |
| Pmm.VisitsAll | kernel/core/mm.c:44 | those are all the frames asked for exactly when the run ends below 2^64 |
| Pmm.PhysMem.IsFree | kernel/core/mm.c:49-59 | true exactly when all frames the loop visits are free |
| Pmm.PhysMem.MarkUsed | kernel/core/mm.c:42-47 | removes exactly the visited run from the free set |
| Pmm.PhysMem.PmmFree | kernel/core/mm.c:61-69 | adds exactly the visited run, and the free size stays 4096 times the number of free frames, however many of them were free already |
| Pmm.PhysMem.PmmAlloc | kernel/core/mm.c:71-79 | takes the whole visited run or changes nothing, and says which; the free size stays exact exactly when the 64-bit bound does not wrap |
| Pmm.PhysMem.PmmGet | kernel/core/mm.c:81-90 | returns the least probed address that pmm_alloc accepts; panics exactly when it accepts none |
| Pmm.FirstFit | kernel/core/mm.c:81-90 | exact first fit: whenever a probed address begins a run of free frames, the least such address is returned and its frames are taken |
| Pmm.GetExactly | kernel/core/mm.c:81-90 | for every page count: the product wraps, so count modulo 2^52 frames are looked for; if that many are free at some probed address, the least one is returned; otherwise it panics, exactly unless the bound overruns 2^64 at a probed address, and then an address is returned and nothing taken |
| PageMap.BitOrDisjoint | kernel/core/mm.c:175 | where the low bits of the address are clear, `or` is addition |
| PageMap.TableEntry | kernel/core/mm.c:189-193 | an entry made for a table is present, and both masks give back the table's frame |
| PageMap.MasksAgree | kernel/core/mm.c:229 | the two masks agree exactly when bits 9 to 11 of the entry are clear |
| PageMap.WalkIsLookup | kernel/core/mm.c:177-209 | walking the tables from the PML4 finds what the directory of tables says |
| PageMap.AddTableKeepsWf | kernel/core/mm.c:189-194 | linking a fresh zeroed table keeps the tree well formed: distinct frames, linked exactly where the tree says |
| PageMap.AddTableKeepsLookup | kernel/core/mm.c:189-194 | linking a table changes what is found for no page |
| PageMap.WriteLeafLookup | kernel/core/mm.c:210 | writing a leaf changes what is found for one page only |
| PageMap.DropTableKeepsWf | kernel/core/mm.c:249-265 | unlinking an empty table keeps the tree well formed |
| PageMap.DropTableKeepsLookup | kernel/core/mm.c:249-265 | unlinking an empty table changes what is found for no page |
| PageMap.DropTableNoEmpty | kernel/core/mm.c:249-265 | after unlinking, only the table above may be empty |
| PageMap.TablesAreNeeded | kernel/core/mm.c:249-265 | when no table but the PML4 is empty, every table lies on the way to a page with a non-zero entry |
| PageMap.SameMapSameTables | kernel/core/mm.c:177-269 | two such trees with the same mappings have tables at the same places |
| PageSteps.PageOfNumber | kernel/core/mm.c:179-182 | the four indices are the digits of the 36-bit page number |
| PageSteps.WordZero | kernel/core/mm.c:210 | a leaf entry is zero exactly when the frame address is below 4096 and the flags are 0 |
| PageSteps.PresentWordNotZero | kernel/core/mm.c:210 | an entry made with the present flag is present |
| PageSteps.WordWidth | kernel/core/mm.c:175 | entries fit 64 bits |
| PageMap.BitOrBits | kernel/core/mm.c:175 | bit by bit, `BitOr` is or |
| PageMap.PageBaseBits | kernel/core/mm.c:175 | the mask clears bits 0 to 11 and keeps the others |
| PageSteps.WordMaps | kernel/core/mm.c:210 | the entry written has bit i exactly when the flags have it, or i is at least 12 and the physical address has it; with flags below 4096 it is that frame with these flags |
| PageSteps.MapsOnce | kernel/core/mm.c:210 | that determines the entry |
| PageSteps.RunRefinesFlatMap | kernel/core/mm.c:177-281 | over every run of map and unmap calls the tables refine a flat map, table frames stay distinct and in use, and free frames plus table frames are constant |
| PageSteps.RunStaysTidy | kernel/core/mm.c:249-265 | over every run that maps with the present flag no table but the PML4 is ever left empty |
| PageSteps.RunRestoresFree | kernel/core/mm.c:218-269 | a run that ends with the mappings it began with has given back every frame it took |
| PageSteps.FramesConserved | kernel/core/mm.c:189-265 | the number of free frames plus the number of tables is constant |
| PageSteps.PageAtNumber | kernel/core/mm.c:271-281 | the pages of a range have consecutive numbers modulo 2^36, whatever wraps around |
| PageSteps.RangeDistinct | kernel/core/mm.c:271-281 | up to 2^36 pages of a range are different pages |
| PageSteps.RoundsAll | kernel/core/mm.c:273 | the 64-bit loop bound covers all pages asked for exactly when the product does not wrap |
| PageSteps.AfterMapRange | kernel/core/mm.c:277-281 | after mapping a range page k is found with the frame of the k-th physical address and these flags, bit by bit, and other pages are as before; beyond 2^36 pages the last round for a page counts |
| PageSteps.AfterUnmapRange | kernel/core/mm.c:271-275 | unmapping a range removes exactly the present pages of it |
| AddrSpaces.AddrSpace.constructor | kernel/core/mm.c:283-288 | a zeroed PML4 maps nothing |
| AddrSpaces.AddrSpace.FindIsLookup | kernel/core/mm.c:177-209 | what the processor finds is what the directory of tables says |
| AddrSpaces.AddrSpace.EnsureTable | kernel/core/mm.c:189-194 | one level of the descent: the child table, built if missing; no page and no frame is lost |
| AddrSpaces.AddrSpace.MapPage | kernel/core/mm.c:177-216 | the page is found with the frame of the physical address and the flags, bit by bit, every other page as before, no frame is lost; tables stay non-empty exactly when the entry is not zero or the leaf table holds something else |
| AddrSpaces.AddrSpace.Reclaim | kernel/core/mm.c:249-265 | one level of reclaiming: the table goes exactly when all its entries are zero |
| AddrSpaces.AddrSpace.UnmapPage | kernel/core/mm.c:218-269 | the page has no mapping, every other page is found as before, no frame is lost, no table but the PML4 is left empty |
| AddrSpaces.AddrSpace.VmmMap | kernel/core/mm.c:277-281 | page k of the range is found with the k-th frame and the flags, every other page as before, as the single calls do it, and the invariants hold |
| AddrSpaces.AddrSpace.VmmUnmap | kernel/core/mm.c:271-275 | exactly the present pages of the range are gone, as the single calls do it, and the invariants hold |
| HeapSteps.NumPagesSuffice | kernel/core/mm.h:35 | the pages hold the bytes exactly when the 64-bit rounding does not wrap |
| HeapSteps.NumPagesLeast | kernel/core/mm.h:35 | then they are the least number of pages that do, and otherwise there are none |
| HeapSteps.BlockTakesLeast | kernel/lib/kmalloc.c:28 | a block of that many pages takes the least number of frames that hold the bytes and the header, and the bytes are in them |
| HeapSteps.AddBlock | kernel/lib/kmalloc.c:26-32 | a block on frames of no other block keeps all blocks apart |
| HeapSteps.DropBlock | kernel/lib/kmalloc.c:34-38 | removing a block removes exactly its frames |
| HeapSteps.BlockFrames | kernel/lib/kmalloc.c:28 | a block accounts for its pages and one header page |
| HeapSteps.TooLargeExactly | kernel/lib/kmalloc.c:28 | the sizes for which the loops of the allocator overrun, in numbers |
| HeapSteps.TooLargeExample | kernel/lib/kmalloc.c:28 | the size 2^64 - 4096 is one, for every memory |
| HeapSteps.CopyOverrunsExactly | kernel/lib/kmalloc.c:52-56 | the copy leaves the blocks exactly when the rounding of one of the sizes wrapped and there is something to copy |
| HeapRuns.SumIsFrames | kernel/lib/kmalloc.c:26-60 | the sum of numpages + 1 over the live blocks is the number of their frames |
| HeapRuns.StepKeeps | kernel/lib/kmalloc.c:26-60 | every call keeps the blocks apart and free size plus 4096 times that sum |
| HeapRuns.RunKeeps | kernel/lib/kmalloc.c:26-60 | over every run of kmalloc, kmfree and kmrealloc live blocks stay apart from each other and from the free frames, the free size stays exact, and free size plus 4096 times the sum of numpages + 1 is constant |
| HeapRuns.StepTotal | kernel/lib/kmalloc.c:26-60 | every call keeps the set of frames that are free or in a block |
| HeapRuns.BytesSurvive | kernel/lib/kmalloc.c:40-60 | over every run a block that is not freed keeps its first bytes, as many as its smallest size so far, through all its moves and whatever happens to other blocks |
| Heap.KHeap.KMalloc | kernel/lib/kmalloc.c:26-32 | a new block on the least number of frames that hold it and its header, all free before; every other block stays; no frame is lost; panics only when no run of that least length is free; faults exactly for the sizes that are too large |
| Heap.KHeap.KmFree | kernel/lib/kmalloc.c:34-38 | the header found below the address gives back exactly the frames of the block |
| Heap.KHeap.StInv | kernel/lib/kmalloc.c:26-60 | the invariant of the methods gives the one from which the theorems on runs start |
| Heap.KHeap.BytesApart | kernel/lib/kmalloc.c:26-32 | the bytes of two live blocks do not overlap |
| Heap.KHeap.HeadersApart | kernel/lib/kmalloc.c:26-38 | the header of a block is in the page before its address, and in the bytes of no block |
| Heap.KHeap.MemCpy | kernel/lib/memutils.c:17-28 | the ascending byte copy, also onto lower overlapping addresses |
| Heap.KHeap.KmRealloc | kernel/lib/kmalloc.c:40-60 | every byte below both sizes arrives, other blocks keep their bytes, no frame is lost; the block stays exactly when the page counts are equal; and exactly when it goes on with memory it does not own |
| KernelMemory.StepKeeps | kernel/core/mm.c:177-269 | beside each other, every call of map_page, unmap_page and the heap keeps tables, blocks and free frames apart, and the set of all their frames |
| KernelMemory.ApartInv | kernel/lib/kmalloc.c:26-60 | what the calls keep is the invariant from which these runs start |
| KernelMemory.RunKeeps | kernel/lib/kmalloc.c:26-60 | over every run of such calls in any order no frame is in a table and in a block or in use and free, and free frames plus tables plus the sum of numpages + 1 over the blocks are constant |
| KernelMemory.MapPage | kernel/core/mm.c:177-216 | it is such a step; also when it fails half way it takes no frame from the heap |
| KernelMemory.UnmapPage | kernel/core/mm.c:218-269 | it is such a step |
| KernelMemory.KMalloc | kernel/lib/kmalloc.c:26-32 | it is such a step, unless it faults; tables and blocks stay apart also when it panics |
| KernelMemory.KmFree | kernel/lib/kmalloc.c:34-38 | it is such a step |
| KernelMemory.KmRealloc | kernel/lib/kmalloc.c:40-60 | it is such a step, unless it faults; tables and blocks stay apart also when it panics |
| Vector.CapacityPattern | kernel/lib/vector.h:38-40 | a vector grows only when full, and its capacity is always 32 modulo 128 |
| Vector.PagesHold | kernel/lib/vector.h:51-52 | so a block holds 96 bytes more than the capacity, enough for the extra bytes vec_erase reads |
| Vector.ElementsPush | kernel/lib/vector.h:43 | appended bytes are one appended element |
| Vector.ElementsTail | kernel/lib/vector.h:51-53 | eight dropped bytes are the dropped first element |
| Vector.Vec.PushBack | kernel/lib/vector.h:35-44 | vec_push_back is sequence append, across moves of the block, and leaves all other blocks alone |
| Vector.Vec.EraseFirst | kernel/lib/vector.h:49-54 | vec_erase at index 0 is the tail of the sequence, and leaves all other blocks alone |
| SchedSteps.FirstRunnable | kernel/proc/sched.c:86-108 | the least position whose task is ready, or asleep with its time reached at the reading of that visit |
| SchedSteps.RequeueInv | kernel/proc/sched.c:74-84 | putting back the interrupted task keeps every task in one place |
| SchedSteps.DispatchInv | kernel/proc/sched.c:86-118 | taking the next task keeps every task in one place |
| SchedSteps.StepInv | kernel/proc/sched.c:71-118 | no step of any CPU loses, duplicates or misplaces a task |
| SchedSteps.RunInv | kernel/proc/sched.c:60-200 | over every run each task is once in the queue or on exactly one CPU, idle tasks are never queued, status RUNNING means on a CPU, and there are as many tasks as were added |
| SchedSteps.WaitStep | kernel/proc/sched.c:86-118 | a runnable task is dispatched by a switch or moves strictly forward; other steps leave its place |
| SchedSteps.BoundedWaiting | kernel/proc/sched.c:86-118 | a runnable task at position k is dispatched within k + 1 switches counted over all CPUs, in every interleaving |
| SchedSteps.NeverEarly | kernel/proc/sched.c:95-100 | a sleeping task leaves its sleep only by a dispatch at a reading not below its wake-up time |
| SchedSteps.SleepHonoured | kernel/proc/sched.c:127-147 | over a whole run with readings below the wake-up time the task stays asleep and is on no CPU anew |
| SchedSteps.SleepLasts | kernel/proc/sched.c:137-142 | sched_sleep for some milliseconds keeps the task from being dispatched that long |
| SchedSteps.DeadStays | kernel/proc/sched.c:95-101 | a dead task is never dispatched |
| SchedSteps.StackKept | kernel/proc/sched.c:74-76 | a task is resumed on the stack it was switched out with, and remembers the tick |
| SchedSteps.TicksCount | kernel/proc/sched.c:118 | the tick counter counts the switches of its CPU modulo 2^64 |
| SchedProgress.ReadyRuns | kernel/proc/sched.c:86-108 | a READY task at position k gets a CPU within k + 1 switches, whatever the clock reads |
| SchedProgress.SleeperRuns | kernel/proc/sched.c:95-100 | so does a SLEEPING one when the readings are at least its wake-up time |
| SchedProgress.Preempted | kernel/proc/sched.c:74-118 | a RUNNING task that is switched out runs again at once, or is READY at a position below the number of tasks that waited |
| SchedProgress.PutToSleep | kernel/proc/sched.c:74-118 | a SLEEPING one runs again at once, or sleeps on with its wake-up time at most at the end of the queue |
| SchedProgress.PreemptedRuns | kernel/proc/sched.c:60-125 | over every run a preempted task gets a CPU again before as many more switches are over as tasks waited |
| SchedProgress.AddedRuns | kernel/proc/sched.c:193-200 | over every run an added task is READY at the end of the queue and gets a CPU, on the stack it was made with, within one more switch than tasks waited |
| SchedProgress.StaysOn | kernel/proc/sched.c:60-125 | other CPUs do not touch the task on a CPU |
| SchedProgress.SwitchedOutWakes | kernel/proc/sched.c:95-100 | over every run a sleeping task that is switched out gets a CPU again when the clock reads its wake-up time or more |
| SchedProgress.SleepSets | kernel/proc/sched.c:137-142 | sched_sleep stores now plus 1,000,000 times the milliseconds, modulo 2^64, and the status SLEEPING |
| SchedProgress.SleepEnds | kernel/proc/sched.c:127-147 | over every run sched_sleep ends: once the clock reads that time, the task gets a CPU within one more switch than tasks waited when it was switched out |
| SchedProgress.RunBusy | kernel/proc/sched.c:110-142 | over every run a task on a CPU is RUNNING, or SLEEPING and not switched out yet |
| Sched.Scheduler.constructor | kernel/proc/sched.c:171-191 | with one idle task a CPU the invariant holds |
| Sched.Scheduler.Switch | kernel/proc/sched.c:60-125 | the new state is the specified step, and the stack returned is the chosen task's |
| Sched.Scheduler.Select | kernel/proc/sched.c:86-108 | ends after at most one visit a task; takes the first runnable task and rotates the queue, or leaves the queue exactly as it was |
| Sched.Scheduler.Sleep | kernel/proc/sched.c:127-147 | the new state is the specified step |
| Sched.Scheduler.Add | kernel/proc/sched.c:193-200 | the new task is ready at the end of the queue |
| SpinLock.OwnershipStep | kernel/lib/lock.h:31-49 | ownership is taken exactly by a bts that finds the bit clear and given up exactly by btr |
| SpinLock.SavedFlagsStep | kernel/lib/lock.h:40 | the flags saved in the lock are changed by nobody but the owner |
| SpinLock.StepInv | kernel/lib/lock.h:26-54 | every step of every CPU keeps the invariant |
| SpinLock.RunInv | kernel/lib/lock.h:26-54 | it holds over every interleaving, with interrupts |
| SpinLock.MutualExclusion | kernel/lib/lock.h:26-54 | at most one CPU owns the lock, the bit is set exactly when one does, and the owner has interrupts off |
| SpinLock.ReleaseRestores | kernel/lib/lock.h:46-54 | the popfq of release restores the flags recorded on entry to lock_lock |
| SpinLock.PairRestores | kernel/lib/lock.h:26-54 | over every run, from the pushfq of a flow to its popfq, all flags end as they began, whatever other CPUs and nested interrupts do in between |
| SpinLock.EntryFlags | kernel/lib/lock.h:29-40 | the entry flags belong to their flow of control across interrupts; an owner is never interrupted |
| SpinLock.WaitsForAnother | kernel/lib/lock.h:33-38 | a CPU never spins for itself or for a flow it has interrupted |
| SpinLock.StepRefines | kernel/lib/lock.h:26-54 | every step refines the abstract lock with one owner |
| SpinProgress.NextOwn | kernel/lib/lock.h:26-54 | until a CPU inside of lock or release takes its next step, which is its next instruction, nobody changes it |
| SpinProgress.OwnerEnters | kernel/lib/lock.h:31-41 | over every run an owner that is not in the critical section yet is there after at most two more of its own steps |
| SpinProgress.ReleaseCompletes | kernel/lib/lock.h:46-54 | over every run a release has given up the bit and is out, with all flags of its entry, after three of its CPU's own steps |
| SpinProgress.StepAhead | kernel/lib/lock.h:29-41 | an own instruction that finds the bit clear is one less to go; no other step changes how many there are |
| SpinProgress.EntersWhenClear | kernel/lib/lock.h:29-41 | over every run a flow inside of lock_lock, at any depth of interrupts, that finds the bit clear whenever it tests it is in the critical section after exactly the stated number of its own instructions, at most seven |
| FatChain.WalkFollows | kernel/fs/fat32.h:156-163 | the walk visits exactly the clusters of the chain and then ends |
| FatChain.EndMarks | kernel/fs/fat32.h:156-163 | of the end marks of the FAT32 specification the walk stops at 0x0FFFFFFF only, and at entries of 0 or from 0xFFFFFFF8 on |
| FatChain.ChainAcyclic | kernel/fs/fat32.h:156-163 | a chain that ends visits no cluster twice |
| FatChain.LinkExtends | kernel/fs/fat32.c:192-193 | the two stores make the chain one cluster longer and use one free entry |
| FatChain.GrownStep | kernel/fs/fat32.c:186-193 | repeated links extend one chain only, by first-free clusters in ascending order |
| FatChain.GrowthKeepsVolume | kernel/fs/fat32.c:174-216 | growing one chain keeps all chains of the volume well formed, acyclic and disjoint |
| FatChain.GrowthUsesFree | kernel/fs/fat32.c:189-193 | the free entries drop by exactly the clusters added |
| FatDisk.SectorChanges | kernel/fs/fat32.c:197-200 | a FAT sector on disk differs exactly when one of its 128 entries does |
| FatDisk.SectorRead | kernel/fs/fat32.c:197-200 | a sector written from memory reads back, four bytes an entry, least significant first, as the entries in memory |
| FatDisk.AgreeIsMounted | kernel/fs/fat32.c:197-200 | memory and disk agree exactly when a mount reads every entry as it is in memory |
| FatDisk.WrittenSector | kernel/fs/fat32.c:195-198 | the sector written holds the entry exactly when 128 does not divide the cluster number |
| FatDisk.CleanCovers | kernel/fs/fat32.c:195-210 | both changed sectors are written exactly when the link is clean |
| FatDisk.LinkAgreement | kernel/fs/fat32.c:191-210 | from agreement, one link leads to agreement of memory and disk exactly when it is clean |
| FatLinks.SectorSince | kernel/fs/fat32.c:192-193 | a FAT sector in memory is as it was some links ago exactly when none of them touched it |
| FatLinks.DiskSince | kernel/fs/fat32.c:195-210 | a FAT sector on disk is what it was in memory at the last link that refreshed it |
| FatLinks.Agreement | kernel/fs/fat32.c:186-212 | from agreement, memory and disk agree after any links exactly when every sector a link touches is refreshed by that link or a later one |
| FatLinks.MountReads | kernel/fs/fat32.c:195-210 | after any links a mount reads each entry as it was at the last link that refreshed its sector |
| FatLinks.MountAgreement | kernel/fs/fat32.c:186-212 | it reads the table in memory exactly when every sector a link touches is refreshed by that link or a later one |
| FatLinks.CleanLinksCover | kernel/fs/fat32.c:191-210 | so they do when no link involves a multiple of 128 across sectors |
| FatLinks.BoundaryExample | kernel/fs/fat32.c:195 | a file on cluster 127 that grows by one cluster leaves memory and disk in disagreement: a mount reads that 127 is followed by 128 and that 128 is free |
| FatLinks.HealedExample | kernel/fs/fat32.c:195-210 | when it grows by two at once they agree |
| FatChain.FirstFreeIs | kernel/fs/fat32.h:165-171 | ascending free entries without a gap are the least free entries |
| FileData.ReadAfterWrite | kernel/fs/fat32.c:125-228 | a read of the range of a write that succeeded succeeds and returns what was written |
| FileData.ContentsAt | kernel/fs/fat32.c:137-147 | byte m of the j-th cluster of the chain is that byte of the file |
| FileData.WriteIsOverlay | kernel/fs/fat32.c:166 | without growth, a write is exactly the byte overlay |
| FileData.OverlayOk | kernel/fs/fat32.c:162-166 | read, copy over: the buffer holds what a write promises |
| FileData.FitsNot | kernel/fs/fat32.c:183-184 | a size that is not a whole number of clusters, or too large, does not fit |
| FileWrite.WritingCluster | kernel/fs/fat32.c:174-183 | writing a cluster keeps the loop invariant and moves it on |
| FileWrite.WritingLink | kernel/fs/fat32.c:187-212 | appending a cluster keeps the loop invariant |
| FileWrite.WritingDone | kernel/fs/fat32.c:184 | when the loop ends, the chain holds the whole buffer |
| FileWrite.GrowthFirstFree | kernel/fs/fat32.c:186-193 | the clusters appended by a call are the least free entries of the old FAT |
| FileWrite.WriteMounted | kernel/fs/fat32.c:156-228 | after a call a mount reads each entry as it was at the last link of the call that refreshed its sector |
| FileWrite.WriteAgreement | kernel/fs/fat32.c:156-228 | after a call a mount reads what is in memory, and with it the chain grown up to its end mark, if it did before, exactly when the links from the end of the chain through the n least free entries, n being what the request needs beyond the chain, refresh what they touch |
| Fat32.Volume.ReadChain | kernel/fs/fat32.c:137-147 | the chain's bytes go to the front of the buffer; past its end exactly when the chain is longer |
| Fat32.Volume.Read | kernel/fs/fat32.c:125-154 | returns the bytes of the file in the range |
| Fat32.Volume.GetFreeCluster | kernel/fs/fat32.h:165-171 | the least free entry, or none exactly when the table has none |
| Fat32.Volume.LinkCluster | kernel/fs/fat32.c:189-210 | links the first free cluster in memory and refreshes the sectors the code refreshes |
| Fat32.Volume.WriteChain | kernel/fs/fat32.c:171-216 | the loop succeeds exactly when the buffer fits, and then the chain holds it |
| Fat32.Volume.Write | kernel/fs/fat32.c:156-228 | the file is overlaid by the buffer, only its own chain grows, by the least free entries and to the rounded request, both FATs are what those links make of them, what a mount reads of them is stated, no other cluster changes, the size is kept in memory and slot, and the call succeeds exactly under the stated conditions |
| FileRuns.StepKeeps | kernel/fs/fat32.c:156-228 | a write keeps the volume well formed and every other file's bytes |
| FileRuns.StepGrows | kernel/fs/fat32.c:174-216 | linking the least free entries behind a chain lets that chain grow and nothing else |
| FileRuns.RunKeeps | kernel/fs/fat32.c:156-228 | over every run of writes to any files the volume stays well formed and free entries plus added clusters are constant |
| FileRuns.RunAgreement | kernel/fs/fat32.c:191-210 | over every run a mount reads in the end what is in memory, and with it the chains of all files, exactly when every sector that a link of any file touches is refreshed by that link or a later one |
| FileRuns.RunMounted | kernel/fs/fat32.c:191-210 | over every run a mount reads each entry as it was at the last link that refreshed its sector |
| FileRuns.UncoveredStays | kernel/fs/fat32.c:156-228 | a byte that no write of the run covers is unchanged |
| FileRuns.LastWriteWins | kernel/fs/fat32.c:156-228 | after any run a byte is what the last write that covered it put there |
| FileRuns.WriteIsStep | kernel/fs/fat32.c:156-228 | a call that succeeds is such a step |
| LongName.StrCat | kernel/lib/string.c:58-67 | the string is appended, or the buffer is too small |
| LongName.Prepend | kernel/fs/fat32.h:224-234 | one round puts the piece of an entry in front of the name in the buffer |
| LongName.GetLongFilename | kernel/fs/fat32.h:215-244 | the loop over entries computes the specified outcome: the first entry that ends a name gives the number of entries and the name, the pieces joined; 0 exactly when none ends one and the pieces fit |
| LongName.OutcomeExactly | kernel/fs/fat32.h:223-243 | from every round on the outcome is that of the first entry that has number 1 and completes the announced count, or of the first that overflows |
| LongName.SequenceFields | kernel/fs/fat32.h:226-227 | the number is the low six bits of the sequence byte and the mark of the first entry is bit 6, whatever bit 7 is |
| LongName.RoundTrip | kernel/fs/fat32.h:223-241 | from every round on, the entries of a name rebuild it |
| LongName.NameRebuilt | kernel/fs/fat32.h:206-244 | every name of 1 to 255 characters comes back from its entries, with their number |
| LongName.StoredNameRebuilt | kernel/fs/fat32.h:206-244 | every such name has entries, and comes back from them whatever entries follow |
| Calendar.SecsOfYears | kernel/core/cmos.c:149-168 | the loop counts the days of the years from 1970 |
| Calendar.MonthLoopEnds | kernel/core/cmos.c:174 | the 64-bit loop over months ends exactly when the bound is not 2^64 - 1 |
| Calendar.SecsOfMonth | kernel/core/cmos.c:170-201 | the loop counts the days of the first months, or does not end, exactly for 2^64 - 1 |
| Calendar.DaysThroughClosedForm | kernel/core/cmos.c:149-168 | the count in closed form, by the Gregorian rule |
| Calendar.DaysThroughGrows | kernel/core/cmos.c:149-168 | it is strictly monotone |
| Calendar.MonthsMakeTheYear | kernel/core/cmos.c:170-201 | the months of a year add up to the step of the count of years, so the leap rules coincide |
| Calendar.MonthsClosedForm | kernel/core/cmos.c:170-201 | the days before a month in closed form |
| Calendar.DayNumberClosedForm | kernel/core/cmos.c:47-53 | the day number of a date in closed form, by the Gregorian calendar |
| Calendar.Encode | kernel/core/cmos.c:47-53 | the expression encodes a date as a day number and a second of the day; it does not end exactly for month 0 |
| Calendar.DayNumberOrder | kernel/core/cmos.c:47-53 | later dates have larger day numbers |
| Calendar.EncodedInjective | kernel/core/cmos.c:47-53 | no two dates share an encoding |
| Calendar.Tm.LocalTime | kernel/lib/time.c:60-110 | for every time before 2100 the fields are a date that encodes to it, with its week day and day of the year, also in closed form by the Gregorian calendar; later times store nothing |
| Calendar.FieldsRoundTrip | kernel/fs/fat32.h:264-269 | the masks and shifts take apart what is packed |
| Calendar.UnpackedIs | kernel/fs/fat32.h:264-269 | what the packed numbers stand for: years since 1980, two-second units |
| Calendar.GetDateTime | kernel/fs/fat32.h:262-276 | does not end exactly for month 0; otherwise the packed fields come back exactly when they form a date up to 2099, the year counted from 1980 and the seconds doubled |
| VfsTree.PathUnique | kernel/fs/filebase.c:73-143 | a node has one path |
| VfsTree.LookupIsResolve | kernel/fs/filebase.c:87-110 | when all proper prefixes exist, the walk is resolution of the path |
| VfsTree.MissingIgnored | kernel/fs/filebase.c:99-109 | a component that does not exist is as if it were not in the path |
| VfsTree.WalkResolvesKept | kernel/fs/filebase.c:87-110 | the walk resolves what is left of the path without the components that name nothing |
| VfsTree.LookupExact | kernel/fs/filebase.c:87-110 | a lookup is resolution of the path exactly when all proper prefixes exist or what is left of the prefix has no entry of the last name |
| VfsTree.MissingFolderExample | kernel/fs/filebase.c:99-109 | a tree and a path on which they do |
| VfsTree.GrownTree | kernel/fs/filebase.c:124-127 | a new node keeps the tree and the unique names of siblings |
| VfsTree.GrownResolve | kernel/fs/filebase.c:124-127 | creating a node adds exactly one entry to the map from paths to nodes |
| Vfs.LastComponent | kernel/fs/filebase.c:90-96 | a path without trailing slash ends in a proper name |
| Vfs.ComponentsJoin | kernel/fs/filebase.c:87-97 | whatever the path, with empty parts or not, its components have no slash and joined give the path, but for one slash at its end |
| Vfs.JoinComponents | kernel/fs/filebase.c:87-97 | the tokenizer takes apart what slashes joined |
| Vfs.FileBase.NextToken | kernel/fs/filebase.c:89-96 | the next token is copied to the buffer |
| Vfs.FileBase.FindChild | kernel/fs/filebase.c:102-109 | the search is the directory entry |
| Vfs.FileBase.AddNode | kernel/fs/filebase.c:124-129 | the node is added and the tree stays one |
| Vfs.FileBase.WalkPath | kernel/fs/filebase.c:85-110 | the loop is the walk over the components |
| Vfs.FileBase.PathToNode | kernel/fs/filebase.c:73-143 | result and tree are the specified answer |
| VfsRuns.CallKeeps | kernel/fs/filebase.c:73-143 | a call keeps the tree, changes at most one entry of the map from paths to nodes, and that by adding it; every other node keeps name, parent and kind |
| VfsRuns.CallResolves | kernel/fs/filebase.c:112-142 | with existing prefixes a call finds the node, or creates it exactly when asked to, in a folder, by a path without trailing slash |
| VfsRuns.ThroughFile | kernel/fs/filebase.c:98-110 | a path that goes on through a file or a device leads to no node, and a call with it fails and creates nothing |
| VfsRuns.FoundByNames | kernel/fs/filebase.c:87-142 | the names that lead to a node, joined by slashes, are a path that finds it, and so can every new entry of a folder be created |
| VfsRuns.CreatedWhere | kernel/fs/filebase.c:120-129 | a node is created where its path says exactly when all proper prefixes exist; in every case it is created in the folder that the existing components lead to |
| VfsRuns.FoundWhere | kernel/fs/filebase.c:112-142 | a call that changes nothing returns the node of its path exactly under the condition for lookups |
| VfsRuns.CreatedIsFound | kernel/fs/filebase.c:73-143 | a created node is found by every later call with its path and not created twice |
| VfsRuns.RunKeeps | kernel/fs/filebase.c:73-143 | over every run siblings have unique names and a path that led to a node leads to it for good and is its only path |

## Left out

- Pmm.PhysMem.AddressFree: a frame past the end of the rounded-down bitmap counts as in use, where the source reads the byte behind the bitmap.
- Pmm.PhysMem.PmmFree: requires the visited run to lie in the bitmap; the source writes past it otherwise.
- Heap.KHeap.KMalloc: nothing is said of the state after a fault; the source goes on and writes a header into a page it does not own.
- `umalloc` and `umfree`.
- Sched.Scheduler.Add: requires a free task id; with all 65535 used, the source queues a null pointer.
- Sched.Scheduler.constructor: the state after all CPUs have come up; `sched_init` one CPU at a time is not modelled.
- The FAT has as many entries as the data area has clusters; a FAT padded to whole sectors may have free entries with no cluster behind them, and the source does not check for it.
- Fat32.Volume.Read: bytes between the end of the chain and the end of the request are whatever the buffer held, so nothing is said of them.
- Fat32.Volume.Write: sums of offset and length are unbounded where the source has 64 bits; only the stored file size is truncated to 32 bits.
- Calendar.SecsOfYears: unbounded integers; the 64-bit count of seconds wraps only for years beyond 5 * 10^11.
- Vfs.FileBase.PathToNode: requires a path of at most 4096 characters, the size of the token buffer; `strncmp` over the name field is equality of names cut to 256 characters.
- Vector.Vec.EraseFirst: index 0 only, the one use in the kernel's cores; other indices and `vec_erase_val` are not modelled.
- Header pages and user bytes of the heap are two arrays over the same frames (`Heap.KHeap.HeadersApart` shows that no block has a header among its bytes); overwriting a header through a wild pointer is outside the model.
- The loops of `vmm_map` and `vmm_unmap` count pages instead of bytes. TLB invalidation and cr3 are no-ops.
- The direct-map offset between physical and virtual addresses is dropped, since it cancels.
- The frame allocator has no lock in the source, so it is modelled sequentially. `pmm_init` is modelled only from the cleared bitmap on.
- The scheduler's queue is a sequence; `Vector` proves that the vector operations it uses behave so. The regions under `sched_lock` are single steps. Nothing is said about kernel stacks after the lock is dropped and before the stack is switched.
- Non-maskable interrupts, and code that enables interrupts while it holds a spinlock.
- Sectors of other than 512 bytes, the second FAT copy, and directory slots other than the size field that `fat32_write` updates.
- FAT checksums and short names; `fat32_mount`, `fat32_open`, `fat32_refresh`, `fat32_mknode`, directory listing.
- The `mknode` callback, mount points that replace inodes, handles, permissions and the VFS lock.
- `mktime`, the reading of CMOS registers and BCD conversion.
- Drivers, boot, interrupt tables, user interface.
