# VROS: a verified model of the kernel's core

VROS is a small x86 kernel written in C. This project models the parts of it that carry state through long
runs, in Dafny 4.11, and proves what they promise: the VRFS file system, virtual and physical memory, the
kernel heap, inter-process communication with the round-robin scheduler, the block-device protocol on top of
it, the multi-level scheduler, the Internet checksum, path normalisation, and the file tree with its mount
points. `dafny verify dfyconfig.toml` checks everything.

Each component comes in two layers. A layer on values says what the data structure means: a map from names to
bytes, a map from page numbers to frames, a list of blocks that tiles the heap, a ring of tasks, a sequence of
letters. A layer of classes and methods follows the C code, with its loops, bitmaps, headers, pointers and
arrays, and every method is proved to do what the value layer says. The lasting properties are then lemmas over
arbitrary runs of the value layer.

| files | component | main results |
|---|---|---|
| `VrfsLayout`, `VrfsDisk`, `Vrfs`, `VrfsRuns` | VRFS | `VrfsRuns.Drive`: any sequence of calls and remounts gives exactly the answers of a map with two counters, on a disk where every block has one owner |
| `Pmm`, `Paging` | memory | `CloneDirectory`, `CloneReads`, `WriteIsolation`, `CloneThenFree`, `CloneFails`: deep copy, isolation, exact accounting |
| `HeapBlocks`, `HeapCalls`, `Heap` | heap | `RunKeeps`, `LiveDisjoint`, `SearchIsComplete`, `SameLive`, `FreeUndoesMalloc` |
| `Sched`, `SchedSlice`, `TaskRing` | round robin | `Fair`, `FairInTicks`, `KeepsCpu`, `FiveTicks`; the pointer ring refines it |
| `Ipc`, `Kernel`, `KernelCalls`, `KernelFair`, `IpcTable` | ports | `NoLostWakeup`, `BlockedReceive`, `Fifo`, `NamedPortIsFound`, `DestroyedStaysGone`, `WokenTaskReceives` over all interleavings |
| `BlkProtocol`, `BlkOverIpc`, `BlkSystem`, `BlkCalls`, `BlkDriver`, `BlkClient` | block requests | `BlkSystem.RunSim`, `CallsAreSafe`, `DiskIsReplay`, `CallEnds`, `OneCallAfterTheOther`: the protocol on the kernel's ports; `HandleRequest`: which bytes go where |
| `Mlfq`, `MlfqSlice`, `MlfqSleep`, `MlfqRings` | multi-level scheduler | `StepInv`, `SelectBest`, `Fair`, `TurnLength`, `Sleeper`; four pointer rings refine it |
| `Checksum` | RFC 1071 | `ByteOrder`, `StoredChecksum`, `SafeLengths`, `OneByteIsDetected` |
| `Paths`, `PathSteps` | `normalize_path`, `cd` | `ResultIsNormal`, `NormalizeIsStackEvaluation`, `Idempotent`, `DotDotGoesUp`, `CurrentDirStaysNormal` |
| `Vfs`, `VfsMounts`, `VfsFiles` | file tree, mounts | `RunKeepsTree`, `CreateChangesOnePath`, `UnlinkAtPath`, `MountCovers`, `VfsLookupInode` |
| `Common`, `Bits`, `Words`, `Tasks` | shared | machine words, bitmap words, task states |

## Where the code differs from what it says

- `mkfs` reserves inode table blocks for 64-byte inodes, but the structure has 76 bytes. Slots 0 to 95 are safe
  and slot 96 is the root directory's block (`SlotClearOfData`, `Inode96OverwritesRoot`). `unlink` never frees
  an inode, so the bound is on inodes ever allocated.
- A VRFS name of 28 or more characters is stored without its end and not found again (`FoundAgain`).
- After boot the frame counter stands 256 above the bitmap, since the first megabyte is marked twice (`Boot`), and
  on a machine of less than 14 MB it wraps, so that no frame is ever handed out.
- At boot the allocator counts everything from 1 MB to 16 MB as free. The linker puts the kernel at 1 MB and the
  heap starts at 4 MB, so the first allocation returns the kernel's own first page and the 769th the heap's
  (`BootThenAlloc`). `CloneDirectory` assumes that the kernel directory and the frames of the source will not be
  handed out; after boot a directory inside the kernel meets that only once the allocations have passed it
  (`ReservedAfterBoot`), or if the kernel's frames are marked with `pmm_deinit_region` first, which no code does.
- `paging_clone_directory` that runs out of frames inside a table loses the pages copied for that table: all
  frames left after the table itself. It loses nothing exactly if the frames run out at a table or at its first
  page (`CloneFails`).
- `paging_map_page` lets flags above bit 11 into the frame number (`MapPage`).
- `kmalloc` of more than 2^32-4 bytes rounds to 0 and gets a block that is too small (`GrantedEnough`, `RunKeeps`).
- In `ipc_recv` the second check of the queue is commented as the case of a destroyed port. That case cannot
  happen (`ResumeStillOwns`). The check fires exactly if no message was accepted since the task blocked, that is
  if anything else than a message gave it the CPU (`EmptyResume`, `BlockedReceive`; an input: `AloneWakesEmpty`).
- A task of the multi-level scheduler that is not one of the 32 in `tasks[]`, which `task_create` fills without
  saying so, is never woken by a tick; nor is one whose time to wake is exactly 2^32. A time beyond 2^32 ends the
  sleep with the next tick, unless that tick wraps the counter too. Everybody else wakes with the tick asked for
  (`Sleeper`).
- `task_set_priority` drops a RUNNING task from the queues (`SetPriorityQueues`).
- The ATA registers take 28 bits of the block address and one bit of the drive: a request beyond that succeeds on
  other sectors (`RightSectors`).
- A path component of more than 63 characters counts as its pieces of 63 (`PiecesAreComponents`), and the slashes
  between the pieces take room. If the 255-character result then ends within a name, that name may be cut to "."
  or "..": exactly then the result is not normalised, and normalising again changes it (`ResultIsNormal`,
  `Idempotent`; an input: `CutToADot`). The stack has 32 places and the joined path is cut at 255 characters;
  `NormalizeIsStackEvaluation` is about paths within these two limits.
- In a directory whose path has 253 characters or more `cd ..` stays where it is, since the ".." no longer fits the
  buffer (`DotDotGoesUp`).
- `vfs_unlink` keeps 63 characters of a name, while files and directories may have names of 255. Unlinking a
  longer name removes the file that has its first 63 characters for a name (`LongNameUnlinksAnother`); it does
  what it should exactly if there is no such file and none at the path either (`UnlinkAtPath`).
- Creating or removing a directory above a mount point makes that mount appear or disappear (`MountAppears`): the
  results about single paths hold exactly if nothing is mounted right below.
- A file system mounted at a path of more than 255 characters is found at the first 255 (`MountFoundAgain`).
- The IP header of an ICMP echo reply is sent with checksum 0; only the ICMP part is sealed.
- `ip_checksum` is right for up to 131074 bytes; beyond that its 32-bit sum can wrap (`SafeLengths`).


## Model

| member | source | states |
|---|---|---|
| Pmm.FrameAllocator.BitmapSet | src/mm/pmm.c:13-16 | the set of used frames gains exactly the frame, whatever word and bit it is in |
| Pmm.FrameAllocator.BitmapClear | src/mm/pmm.c:19-22 | the set of used frames loses exactly the frame |
| Pmm.FrameAllocator.FirstFree | src/mm/pmm.c:31-47 | the lowest free frame; -1 only if the words that are scanned (whole words only) have none |
| Pmm.FrameAllocator.Init | src/mm/pmm.c:50-61 | everything is used, and the counter says so |
| Pmm.FrameAllocator.InitRegion | src/mm/pmm.c:64-74 | exactly the frames of the region become free; the counter moves by their number even if some were free |
| Pmm.FrameAllocator.DeinitRegion | src/mm/pmm.c:77-87 | exactly the frames of the region become used; the counter moves by their number even if some were used |
| Pmm.FrameAllocator.Boot | src/kernel/kernel.c:84-87 | for every size of memory: frames 256 to 4095 are free and the others used; from 16 MB on the counter stands exactly 256 above the number of used frames, because the first megabyte is marked used a second time |
| Pmm.FrameAllocator.AllocBlock | src/mm/pmm.c:90-107 | takes the lowest free frame or fails exactly when none is left; the difference between counter and bitmap never changes |
| Pmm.FrameAllocator.FreeBlock | src/mm/pmm.c:110-121 | gives one frame back, used or not; the difference between counter and bitmap never changes |
| Pmm.FrameAllocator.BootThenAlloc | src/kernel/kernel.c:84-101 | the allocations after boot go up from 0x100000, over the kernel image and the heap at 0x400000, and stop after 3584 frames with 256 still free; below 14 MB of memory the counter wraps and there is none at all |
| Paging.AddressSpaces.GetPage | src/mm/paging.c:12-48 | finds the table of a page or makes one; making one changes the translation of no page, and it fails exactly when no frame is left |
| Paging.AddressSpaces.MapPage | src/mm/paging.c:51-58 | as a map from page number to entry: exactly one page changes, and only the case "no frame left for a table" leaves it unmapped; the frame is that of the address exactly if the flags bring no new bit above bit 11 |
| Paging.AddressSpaces.UnmapPage | src/mm/paging.c:61-71 | exactly one page disappears from the map |
| Paging.AddressSpaces.GetPhysicalAddress | src/mm/paging.c:74-83 | frame of the map plus offset in the page, 0 for an unmapped page; nothing changes |
| Paging.AddressSpaces.MapThenTranslate | src/mm/paging.c:51-83 | mapping a page and translating an address inside it gives the same offset in the mapped frame, and another page translates as before |
| Paging.AddressSpaces.Init | src/mm/paging.c:86-116 | the kernel directory maps the first 16 MB onto itself and nothing else |
| Paging.SetEntryLookup | src/mm/paging.c:51-71 | writing one table entry changes the translation of one page only, since no two directory entries share a table |
| Paging.AddTableLookup | src/mm/paging.c:22-40 | a new, cleared table adds no mapping |
| Paging.AddressSpaces.CopyTable | src/mm/paging.c:160-215 | one user table of a clone: fresh frames with equal contents, or failure with exactly the pages copied so far left allocated |
| Paging.AddressSpaces.CloneDirectory | src/mm/paging.c:145-239 | the deep copy succeeds exactly if there are as many free frames as the source owns; the copy owns frames that were free and pairwise distinct, entries 768-1023 are shared, and no frame that was in use changes, also when the copy fails; a failure loses exactly the frames that were left when the last table was begun |
| Paging.CloneReads | src/mm/paging.c:145-239 | the copy maps the same user pages with the same flags and the same contents |
| Paging.AccessOwned | src/mm/paging.c:145-239 | what a user access of an address space touches belongs to that address space |
| Paging.OwnedExactly | src/mm/paging.c:242-275 | an address space owns its directory, the page tables of its 768 entries below 3 GB and the pages these map, and nothing else |
| Paging.WriteIsolation | src/mm/paging.c:145-239 | a write through one user space is never seen through another that owns other frames |
| Paging.CloneDisjoint | src/mm/paging.c:145-239 | a clone and its source own no frame in common, and the source is unchanged |
| Paging.AddressSpaces.FreeDirectory | src/mm/paging.c:242-275 | releases exactly the frames that the user half owns and the directory; the kernel directory and null are refused |
| Paging.AddressSpaces.CloneThenFree | src/mm/paging.c:145-275 | clone then free restores the bitmap and the counter exactly |
| Paging.AddressSpaces.CloneFails | src/mm/paging.c:185-215 | a clone that fails: bitmap and counter are restored exactly if the frames ran out at a table or at its first page; otherwise the counter and the bitmap are ahead by the frames lost |
| Paging.ReservedAfterBoot | src/kernel/kernel.c:84-87 | which frames the allocator will never hand out after boot and n allocations: a kernel directory between 1 MB and 16 MB is among them exactly if the allocations have passed it |
| Paging.StuckOnce | src/mm/paging.c:160-215 | the directory entry at which a clone with a given number of frames runs out: the only one that needs more than is left after the entries before it |
| HeapBlocks.LiveDisjoint | src/mm/kmalloc.c:40-104 | live allocations are 4-byte aligned, inside the heap and pairwise disjoint |
| HeapBlocks.SearchIsComplete | src/mm/kmalloc.c:23-37 | when the search fails, no run of consecutive free blocks could have held the request |
| HeapBlocks.FirstFitIsFirst | src/mm/kmalloc.c:23-37 | no block before the one found would have fitted |
| HeapBlocks.AllocKeeps | src/mm/kmalloc.c:40-53 | splitting keeps the tiling of the heap; the live blocks gain exactly one, of at least the size asked for |
| HeapBlocks.MergeKeeps | src/mm/kmalloc.c:56-73 | merging keeps the tiling and every live block and leaves no two free neighbours |
| HeapBlocks.FreeKeeps | src/mm/kmalloc.c:107-122 | freeing removes exactly one live block and keeps the invariant |
| HeapBlocks.GrantedEnough | src/mm/kmalloc.c:76-104 | a served request has at least the bytes asked for exactly if the size is at most 2^32-4, where rounding up does not wrap |
| HeapBlocks.RunKeeps | src/mm/kmalloc.c:76-122 | after any run of kmalloc and kfree the heap is well-formed and the live blocks are exactly those returned and not freed since, each at least as large as was asked for exactly if that was at most 2^32-4; when all is freed, in any order, one free block is left |
| HeapBlocks.FreshHeap | src/mm/kmalloc.c:11-20 | the heap that kmalloc_init makes is well-formed, and nobody holds anything of it |
| HeapBlocks.CanFreeAsked | src/mm/kmalloc.c:107-122 | the pointers that kfree accepts are exactly those returned and not freed since |
| HeapBlocks.SumsToHeap | src/mm/kmalloc.c:125-144 | used and free bytes always add up to the heap |
| HeapCalls.RoundedIsWanted | src/mm/kmalloc.c:76-104 | the size looked for is the next multiple of 4, less than 4 above the size asked for up to 2^32-4 |
| HeapCalls.MallocDoes | src/mm/kmalloc.c:76-104 | kmalloc adds to the live blocks exactly the lowest free block that fits, cut to the size looked for if at least 28 bytes more are there; for size 0 and when nothing fits it changes nothing |
| HeapCalls.FreeDoes | src/mm/kmalloc.c:107-122 | kfree takes exactly the block with that pointer from the live ones |
| HeapCalls.SameLive | src/mm/kmalloc.c:56-73 | the layout of the heap is determined by its live blocks |
| HeapCalls.FreeUndoesMalloc | src/mm/kmalloc.c:76-122 | freeing what was just allocated puts the heap back exactly as it was |
| HeapCalls.FreesCommute | src/mm/kmalloc.c:107-122 | two frees give the same heap in either order |
| HeapCalls.UsedGrows | src/mm/kmalloc.c:125-144 | each allocation adds its own bytes with the header to those reported as used |
| HeapCalls.UsedIsLive | src/mm/kmalloc.c:125-144 | nothing is reported as used exactly while nothing is live |
| Heap.KernelHeap.constructor | src/mm/kmalloc.c:11-20 | the heap starts as one free block |
| Heap.KernelHeap.FindFreeBlock | src/mm/kmalloc.c:23-37 | the loop over headers in memory finds the first fit of the block list |
| Heap.KernelHeap.SplitBlock | src/mm/kmalloc.c:40-53 | the header writes split block k of the list and touch no live payload |
| Heap.KernelHeap.MergeFreeBlocks | src/mm/kmalloc.c:56-73 | the loop terminates with the merged list and touches no live payload |
| Heap.KernelHeap.Kmalloc | src/mm/kmalloc.c:76-104 | null exactly for size 0 or when nothing fits, else the payload of the lowest fit; everybody's data stays |
| Heap.KernelHeap.Kfree | src/mm/kmalloc.c:107-122 | the block is gone from the live ones, neighbours are merged, all other data stays |
| Heap.KernelHeap.Store | src/mm/kmalloc.c:11-144 | an owner writing inside its block cannot damage the headers |
| Heap.KernelHeap.KmallocStats | src/mm/kmalloc.c:125-144 | total is used plus free |
| VrfsLayout.InodeRoundTrip | src/include/vrfs.h:38-47 | an inode read back from its 76 bytes is the inode written |
| VrfsLayout.InodeBytes | src/include/vrfs.h:38-47 | where the fields of an inode stand in its 76 bytes |
| VrfsLayout.SlotRead | src/fs/vrfs.c:91-150 | writing one inode slot of a block changes that slot and no other |
| VrfsLayout.EntryRead | src/fs/vrfs.c:359-431 | writing one directory entry changes that entry and no other |
| VrfsLayout.PlaceInBlock | src/fs/vrfs.c:91-431 | where an inode and a directory entry stand in their blocks |
| VrfsLayout.SuperRoundTrip | src/fs/vrfs.c:153-231 | a superblock read back is the one written |
| VrfsLayout.SuperBytes | src/fs/vrfs.c:153-231 | where the fields of the superblock stand in block 0 |
| Words.LittleEndian | src/include/vrfs.h:38-47 | a word is stored with its least significant byte first |
| VrfsDisk.SlotClearOfData | src/fs/vrfs.c:170-180 | an inode slot lies in the reserved table blocks exactly if its number is below 96, because inodes are 76 bytes and the reservation reckons with 64 |
| VrfsDisk.Inode96OverwritesRoot | src/fs/vrfs.c:91-120 | inode 96 is written over the root directory: the input that shows the bound is real |
| VrfsDisk.FoundAgain | src/fs/vrfs.c:359-431 | a stored name is found again exactly if it has at most 27 bytes |
| VrfsDisk.BlocksHaveOneOwner | src/fs/vrfs.c:321-370 | the data block of a live file is its own, in the data area, marked, and no part of the inode table below slot 96 or the root directory |
| VrfsDisk.AddEntry | src/fs/vrfs.c:359-431 | a new entry adds exactly one name with empty contents to the map |
| VrfsDisk.WriteFile | src/fs/vrfs.c:301-356 | writing a file's block and inode changes exactly that name in the map |
| VrfsDisk.RemoveEntry | src/fs/vrfs.c:608-689 | clearing an entry removes exactly that name from the map |
| VrfsDisk.ViewAt | src/fs/vrfs.c:514-605 | a live entry is in the map with its block's bytes |
| VrfsDisk.SlotsFull | src/fs/vrfs.c:359-431 | the 16 slots of the directory are used exactly if the map has 16 names |
| VrfsDisk.TakenFull | src/fs/vrfs.c:72-88 | the block bitmap is full exactly if as many data blocks are marked as the device has |
| VrfsDisk.EmptyFile | src/fs/vrfs.c:301-356 | a file is empty exactly if it has no block |
| Vrfs.BlockDevice.Read | src/drivers/blkdev.c:74-83 | the block, or -1 beyond the end |
| Vrfs.BlockDevice.Write | src/drivers/blkdev.c:86-95 | exactly that block changes, or -1 and nothing beyond the end |
| Vrfs.BitmapFindFree | src/fs/vrfs.c:42-50 | the lowest clear bit, -1 only if there is none |
| Vrfs.Mkfs | src/fs/vrfs.c:153-231 | succeeds exactly on devices of more than three blocks and makes an empty map under a superblock that counts the blocks, 1024 at most |
| Vrfs.Vrfs.AllocInode | src/fs/vrfs.c:53-69 | the lowest free inode, marked in memory and on disk; fails exactly if the counter is 0 or the bitmap full |
| Vrfs.Vrfs.AllocBlock | src/fs/vrfs.c:72-88 | a free block, marked in memory and on disk; fails exactly if the counter is 0 or the bitmap full |
| Vrfs.FullBitmap | src/fs/vrfs.c:53-88 | since the counter is never below the number of clear bits, allocation fails only when the bitmap is full |
| Vrfs.Vrfs.WriteInode | src/fs/vrfs.c:91-120 | exactly one slot of one table block changes; -1 and no change exactly if that block is beyond the device |
| Vrfs.Vrfs.ReadInode | src/fs/vrfs.c:123-150 | the inode in the slot, -1 if the block is beyond the device |
| Vrfs.Vrfs.AddDirEntry | src/fs/vrfs.c:359-431 | adds the name to the map, or fails exactly if the directory is full or can get no block, with the map unchanged |
| Vrfs.Vrfs.Lookup | src/fs/vrfs.c:514-605 | finds exactly the names of the map and returns a fresh handle |
| Vrfs.Vrfs.Create | src/fs/vrfs.c:434-511 | the map gains the name, cut to 27 bytes, with no contents; refused exactly if the directory is full or can get no block, and then the map stays; an existing name is returned as it is; the count of blocks goes up exactly for the directory's first block |
| Vrfs.Vrfs.Unlink | src/fs/vrfs.c:608-689 | the map loses the name; -1 exactly if it had none |
| Vrfs.Vrfs.Write | src/fs/vrfs.c:301-356 | the map holds the bytes written, or the write was refused for a bad size or offset or because a first block was needed and none was free, and nothing changed; the count of blocks goes up exactly for a first block |
| Vrfs.Vrfs.Read | src/fs/vrfs.c:251-299 | a read from offset 0 returns the bytes of the map |
| Vrfs.Vrfs.Mount | src/fs/vrfs.c:708-833 | mounts exactly if there is a block 0 with the right magic number and the table block exists, and takes superblock and root inode from there; a well-formed disk mounts to the same map, with counters that are high enough |
| VrfsRuns.RoomOnDisk | src/fs/vrfs.c:359-370 | the counts of the model say when directory and bitmap are full |
| VrfsRuns.Perform | src/fs/vrfs.c:251-689 | each call gives exactly the answer of the model and takes the disk to the model's next state |
| VrfsRuns.Drive | src/fs/vrfs.c:153-833 | after mkfs and mount any sequence of create, unlink, write, read and remount gives exactly the answers of a map with two counters, with room for data on blocks 19 to 1023: create fails exactly if 16 names exist or the directory has no block and none is free, write exactly for a bad size, an unknown name or an empty file with no block free; at every end the disk is well formed, each block has one owner and the bitmap holds as many blocks as counted |
| Sched.ScheduleValid | src/kernel/task.c:158-223 | the ring stays a ring and no two tasks are RUNNING; a RUNNING one is the current one |
| Sched.CreateValid | src/kernel/task.c:75-144 | creation keeps the invariant |
| Sched.SkipFindsFirstLive | src/kernel/task.c:185-192 | a switch takes the first task of the ring that is no zombie |
| Sched.SkipNeverPasses | src/kernel/task.c:185-192 | skipping zombies never passes a live task, however long the ring is |
| Sched.SwitchAdvances | src/kernel/task.c:172-214 | a switch gives a live task the CPU or brings it nearer |
| Sched.SwitchRuns | src/kernel/task.c:197-209 | the task that gets the CPU has a full slice and is RUNNING, or READY if it had the CPU before; the other one is READY again |
| Sched.Fair | src/kernel/task.c:158-223 | a live task at place k has the CPU after k+1 switches at most, whatever is created, blocked, woken or killed meanwhile |
| Sched.TicksForceSwitches | src/kernel/task.c:160-176 | a switch at least every fifth tick |
| Sched.FairInTicks | src/kernel/task.c:158-223 | the same bound in ticks: five for each place |
| SchedSlice.TickDoes | src/kernel/task.c:158-223 | a tick takes the CPU away exactly if it is the last of the slice or the task is BLOCKED or ZOMBIE; it then goes to the first live task of the ring with five ticks; otherwise one tick is used up and nothing else changes |
| SchedSlice.YieldDoes | src/kernel/task.c:217-223 | a yield hands the CPU over in the same way at once |
| SchedSlice.CreateDoes | src/kernel/task.c:75-144 | a new task is READY with five ticks and a new pid, at the end of the ring |
| SchedSlice.KeepsCpu | src/kernel/task.c:158-223 | over runs: whatever else happens, a task that neither yields nor blocks nor dies keeps the CPU until its slice is counted down |
| SchedSlice.FiveTicks | src/kernel/task.c:158-223 | a task that is given the CPU keeps it for four ticks and loses it with the fifth, over all runs |
| TaskRing.Scheduler.constructor | src/kernel/task.c:34-72 | the idle task alone in the ring |
| TaskRing.Scheduler.SimpleQueueAdd | src/kernel/task.c:18-31 | the pointer updates append at the tail of the ring |
| TaskRing.Scheduler.TaskCreate | src/kernel/task.c:75-144 | the new task is READY, has a new pid and stands at the tail; without memory nothing changes |
| TaskRing.Scheduler.FindNext | src/kernel/task.c:177-192 | the loop over next pointers skips zombies as specified |
| TaskRing.Scheduler.SwitchTask | src/kernel/task.c:172-214 | the whole hand-over of the CPU, also of a task to itself |
| TaskRing.Scheduler.TaskSchedule | src/kernel/task.c:158-215 | the pointer code is the specified step; nothing happens without a queue |
| TaskRing.Scheduler.TaskYield | src/kernel/task.c:217-223 | likewise for giving up the CPU |
| Ipc.EnqueueContents | src/kernel/ipc.c:199-223 | sending appends to the queue and leaves what waits there alone, across the wrap of the ring buffer |
| Ipc.DequeueContents | src/kernel/ipc.c:314-331 | receiving takes the oldest message and keeps the order of the others |
| Ipc.EnqueueLetter | src/kernel/ipc.c:199-223 | a send with data queues the sender's pid, reply port, type and bytes intact |
| Ipc.DequeueLetter | src/kernel/ipc.c:314-331 | a receive delivers the first letter whatever the receiver's buffer held |
| Ipc.FindFrom | src/kernel/ipc.c:127-151 | the first active named port that answers to the name |
| Ipc.TruncationIsHarmless | src/kernel/ipc.c:93-113 | a name too long to be stored matches the same ports as its stored part |
| Ipc.OpenedPrefixFree | src/kernel/ipc.c:79-124 | names of active ports stay prefix-free |
| Ipc.NameFindsItsPort | src/kernel/ipc.c:127-151 | a named port is found under its name, and no other is |
| Kernel.StepInv | src/kernel/ipc.c:43-373 | every kernel call, timer tick and kill keeps the invariant of scheduler and ports |
| Kernel.BootInv | src/kernel/ipc.c:11-28 | it holds after boot |
| Kernel.NoLostWakeup | src/kernel/ipc.c:298-312 | in every run a BLOCKED task waits, registered, at a live port it owns, and the queue there is empty |
| Kernel.SendWakes | src/kernel/ipc.c:225-230 | an accepted message makes the waiter READY and takes it off the port |
| Kernel.ResumeStillOwns | src/kernel/ipc.c:308-331 | a receive that resumes works on a live port of its own, although it checks neither again |
| Kernel.EmptyResume | src/kernel/ipc.c:304-307 | a resumed receive returns -1 exactly if its task is still registered as the waiter, whatever made it run |
| Kernel.BlockedReceive | src/kernel/ipc.c:298-334 | from the block to the resume, over any calls in between: the receive succeeds exactly if a message was accepted for the port meanwhile, and it delivers the first one of those |
| Kernel.AloneWakesEmpty | src/kernel/ipc.c:298-312 | an input that comes back empty: the only live task waits at its own port, and its registration stays behind |
| Kernel.Fifo | src/kernel/ipc.c:182-373 | in every run, what a port accepted is what was received from it followed by what is queued; the counters count both modulo 2^32 |
| Kernel.PortLasts | src/kernel/ipc.c:154-179 | only the owner ends a port; nobody else changes its name, owner or history |
| Kernel.NamedPortIsFound | src/kernel/ipc.c:70-151 | a port created under a non-empty name is what a search for that name returns in every later state until its owner destroys it |
| KernelCalls.CreatingOpens | src/kernel/ipc.c:43-67 | creating takes the first unused port and makes it an empty, unnamed port of the caller without history, or returns -1 exactly if all 32 are in use; nothing else changes |
| KernelCalls.CreatingNamedOpens | src/kernel/ipc.c:70-124 | the same under the first 31 characters of the name; refused without effect for a null pointer and for a name that agrees with one in use up to the end of the shorter |
| KernelCalls.DestroyedIsGone | src/kernel/ipc.c:154-179 | destroying works exactly for the owner of a port in use: then no name leads to the port, every send, receive and destroy on it returns -1 and does nothing, it can be handed out again, its waiter is READY, and nothing else has changed |
| KernelCalls.DestroyedStaysGone | src/kernel/ipc.c:154-179 | it stays so in every run until somebody creates a port and is given this one |
| KernelCalls.SendDoes | src/kernel/ipc.c:236-287 | a send is accepted exactly by a port in use with fewer than 16 messages, for at most 256 bytes; it then puts the caller's letter at the end of the queue and wakes the waiter; a full queue counts the loss; otherwise nothing happens |
| KernelCalls.ReceiveDoes | src/kernel/ipc.c:290-373 | the owner of a port is given its oldest letter and anybody else -1; on an empty port ipc_try_recv returns -2 without effect and ipc_recv registers the caller |
| KernelFair.EventsMatch | src/kernel/ipc.c:154-312 | every kernel call moves the scheduler by the events it consists of |
| KernelFair.WokenTaskRuns | src/kernel/ipc.c:225-230 | a task woken by a message has the CPU after five timer ticks for each place in the ring, whatever is called meanwhile |
| KernelFair.WokenTaskReceives | src/kernel/ipc.c:241-334 | the whole way of a message: once it is accepted for the port of a task inside ipc_recv, the task has the CPU within five ticks for each place in the ring, its receive succeeds then and delivers that very message |
| IpcTable.NameMatches | src/kernel/ipc.c:84-95 | the comparison loop: equal up to the end of the shorter name |
| IpcTable.CopyName | src/kernel/ipc.c:109-113 | the copy loop keeps the first 31 characters |
| IpcTable.CopyData | src/kernel/ipc.c:210-216 | the copy loop replaces the first `size` bytes |
| IpcTable.Table.constructor | src/kernel/ipc.c:11-28 | no port is active |
| IpcTable.Table.IpcFindPort | src/kernel/ipc.c:127-151 | the search loop |
| IpcTable.Table.IpcCreatePort | src/kernel/ipc.c:43-67 | the kernel step of the same name, with its result |
| IpcTable.Table.IpcCreateNamedPort | src/kernel/ipc.c:70-124 | the kernel step, with its result; the empty name is refused while any named port is active |
| IpcTable.Table.IpcDestroyPort | src/kernel/ipc.c:154-179 | the kernel step, with its result |
| IpcTable.Table.IpcSendFromPort | src/kernel/ipc.c:236-287 | the kernel step, with its result: bounds, full queue and drop counter, copy and wakeup |
| IpcTable.Table.IpcSend | src/kernel/ipc.c:182-233 | the same with reply port 0 |
| IpcTable.Table.IpcTryRecv | src/kernel/ipc.c:337-373 | the kernel step, with its result -1, -2 or 0 and the message delivered |
| IpcTable.Table.IpcRecv | src/kernel/ipc.c:290-306 | the kernel step up to the point where the task blocks or returns |
| IpcTable.Table.IpcRecvResume | src/kernel/ipc.c:308-334 | the kernel step after the task has the CPU again |
| BlkProtocol.StepInv | src/drivers/blkdev_ipc_client.c:47-160 | every step of clients and driver keeps the invariant: request ids grow along the pipeline, replies are truthful |
| BlkProtocol.CallsAreSafe | src/drivers/blkdev_ipc_client.c:61-101 | in every run of the protocol a successful call was executed exactly once with the sectors it asked for, a failed one at most once, an unsent one never |
| BlkProtocol.DiskIsReplay | src/lib/ata_driver.c:247-307 | the disk is the initial disk with the executed writes replayed in order |
| BlkProtocol.RightSectors | src/lib/ata_driver.c:195-200 | the registers take 28 bits of the block address and one of the drive: the sectors moved are those asked for exactly if the request stays below 2^28 on drive 0 or 1 |
| BlkOverIpc.RequestIsSent | src/drivers/blkdev_ipc_client.c:61-75 | sending a request through the kernel is the step of the protocol, with the same outcome |
| BlkOverIpc.AnswerIsSent | src/lib/ata_driver.c:303-306 | so is sending an answer, which is dropped exactly if the client's queue is full |
| BlkOverIpc.DriverReceives | src/lib/ata_driver.c:335-342 | the kernel call that takes a message from the driver's port delivers the first request, whole, with the port to answer to |
| BlkOverIpc.ClientReceives | src/drivers/blkdev_ipc_client.c:77-101 | the kernel call that takes a message from the client's port delivers the first answer, whole |
| BlkOverIpc.OthersKeep | src/kernel/ipc.c:43-373 | every other call of the kernel that does nothing at the two ports leaves what they carry |
| BlkSystem.StepSim | src/drivers/blkdev_ipc_client.c:61-101 | each step - also a receive that fails for want of ownership, blocks, or resumes with nothing there - is one step of the protocol or none |
| BlkSystem.RunSim | src/drivers/blkdev_ipc_client.c:47-160 | every run in which only the client functions and the driver use the two ports is a run of the protocol, whose queues are what waits at the ports at the end |
| BlkSystem.KernelRuns | src/kernel/ipc.c:182-373 | the kernel part of such a run is a run of the kernel |
| BlkSystem.CallsAreSafe | src/drivers/blkdev_ipc_client.c:61-101 | in every run of client calls, driver and all other kernel calls, ticks and kills on the kernel a client call that succeeded was executed by the driver exactly once with the sectors it asked for, one that failed at most once, one that was not sent never |
| BlkSystem.FreshReached | src/drivers/blkdev_ipc_client.c:19-44 | after boot, creating the client's port and the driver's named one leads to such a start |
| BlkSystem.DiskIsReplay | src/lib/ata_driver.c:247-307 | over the kernel: no request is executed twice, and the disk is the initial one with the executed writes replayed in order |
| BlkCalls.CallEnds | src/drivers/blkdev_ipc_client.c:77-101 | in every reachable state: the receive of a call ends it unless it blocks; with nothing received the call fails, else the letter is the answer to some job of the driver, and the call succeeds with that byte count exactly if the job was its own and went well |
| BlkCalls.OneCallAfterTheOther | src/drivers/blkdev_ipc_client.c:47-160 | over all runs: a client that makes one call after the other and is not resumed early gets for each call exactly the result of the driver's job for it - no call is refused and none that the driver carried out fails |
| BlkDriver.RoundsAreEvents | src/lib/ata_driver.c:262-301 | the driver's work on one request is a run of the protocol |
| BlkDriver.AtaDriver.ReadSector | src/lib/ata_driver.c:189-213 | the sector that 28 bits of the block address and one of the drive name, or failure |
| BlkDriver.AtaDriver.WriteSector | src/lib/ata_driver.c:216-244 | that sector is replaced, or failure without effect |
| BlkDriver.AtaDriver.ReadLoop | src/lib/ata_driver.c:266-277 | for a request within reach of the registers byte k of the buffer becomes byte k % 512 of sector lba + k / 512, for the sectors up to the first that is missing or fails; no other byte of memory changes, and the answer counts those sectors |
| BlkDriver.AtaDriver.WriteLoop | src/lib/ata_driver.c:279-290 | for a request within reach of the registers sector lba + i becomes bytes 512 * i to 512 * i + 511 of the buffer, for the sectors up to the first that is missing or fails; no other sector changes, and the answer counts those sectors |
| BlkDriver.AtaDriver.HandleRequest | src/lib/ata_driver.c:247-307 | for all four kinds of request: which sectors and bytes move where, what else stays, and what the answer says; and that this is the run of rounds that the protocol sees |
| BlkDriver.AtaDriver.HandleMessage | src/lib/ata_driver.c:247-255 | a message too short for a request is ignored; any other is handled as the request it holds, with the same effects |
| BlkClient.RequestRoundTrip | src/include/blkdev_ipc.h:22-31 | a request arrives as it was sent |
| BlkClient.MessageBytes | src/include/blkdev_ipc.h:22-38 | where the fields of request and response stand in their messages |
| BlkClient.ResponseRoundTrip | src/include/blkdev_ipc.h:33-39 | a response arrives as it was sent |
| BlkClient.SuccessIsVisible | src/drivers/blkdev_ipc_client.c:80-101 | the returned number is -1 exactly for a call that failed |
| BlkClient.Client.Init | src/drivers/blkdev_ipc_client.c:19-44 | the client owns a new port, or stays without one |
| BlkClient.Client.SendRequest | src/drivers/blkdev_ipc_client.c:47-75 | the request is numbered and sent to the port that the driver's name leads to, or nothing happens |
| BlkClient.Client.Conclude | src/drivers/blkdev_ipc_client.c:77-101 | a reply with the id of the request and status 0 makes the call return its byte count as an int, 0 for a flush; any other reply makes it return -1 |
| Mlfq.OneRing | src/kernel/task_mlfq.c:25-40 | a queued task is in the ring of its priority, in no other and there once; a sleeping one is in none |
| Mlfq.StepInv | src/kernel/task_mlfq.c:224-664 | create, schedule, yield, sleep, wake and set_priority keep the rings well-formed |
| Mlfq.RemoveInv | src/kernel/task_mlfq.c:43-75 | after queue_remove the task is in no ring at all |
| Mlfq.SelectBest | src/kernel/task_mlfq.c:78-103 | the task chosen can run, is of the best level that has such a task and the first such there; the idle task only for lack of any |
| Mlfq.SelectAdvances | src/kernel/task_mlfq.c:78-103 | within the best level choosing passes nobody |
| Mlfq.Fair | src/kernel/task_mlfq.c:78-293 | round robin: a task that keeps contending k places from the front of the best level is chosen within k+1 selections |
| Mlfq.CheckWakes | src/kernel/task_mlfq.c:650-664 | exactly the tasks whose time has come are woken |
| MlfqSleep.Sleeper | src/kernel/task_mlfq.c:617-664 | in every run that leaves it alone a task that sleeps n ticks from tick T is SLEEPING until its end and can run from then on; the end is after n ticks if it is one of the 32 tasks of the array and T+n < 2^32 (or T is 2^32-1), the next tick if T+n > 2^32, and never if T+n = 2^32 or the task is not in the array |
| MlfqSleep.SleepsTill | src/kernel/task_mlfq.c:650-664 | a sleeping task wakes with one certain tick and not before, in every run that leaves it alone |
| MlfqSleep.IdleCannotSleep | src/kernel/task_mlfq.c:256-276 | the idle task gets the CPU even while it sleeps, if nobody else can run |
| Mlfq.SwitchRuns | src/kernel/task_mlfq.c:275-285 | the chosen task has its quantum for a slice |
| Mlfq.StepOneRuns | src/kernel/task_mlfq.c:224-664 | at most one task is RUNNING, and it is the current one |
| Mlfq.SetPriorityQueues | src/kernel/task_mlfq.c:590-609 | after task_set_priority the task is queued exactly if it was READY; a RUNNING task drops out |
| MlfqSlice.StepQuanta | src/kernel/task_mlfq.c:9-14 | after every operation each task has the quantum of its level: 10, 5, 3 or 1 |
| MlfqSlice.TickDoes | src/kernel/task_mlfq.c:224-293 | a tick leaves the CPU to its task exactly if it is not the last of the slice and the task is neither BLOCKED nor ZOMBIE; otherwise it goes, with a full quantum, to a task of the best level that has one that can run, or to task 0 |
| MlfqSlice.YieldDoes | src/kernel/task_mlfq.c:296-305 | a yield hands the CPU over in the same way at once |
| MlfqSlice.SleepDoes | src/kernel/task_mlfq.c:617-629 | so does going to sleep for at least one tick |
| MlfqSlice.TickAccounts | src/kernel/task_mlfq.c:231-285 | a tick counts for the system and, if it was RUNNING, for the current task; a RUNNING task that loses the CPU is READY, with the quantum of its successor for a slice |
| MlfqSlice.KeepsCpu | src/kernel/task_mlfq.c:224-293 | over runs: whatever else happens, a task that neither yields nor sleeps nor blocks nor dies keeps the CPU until its slice is counted down |
| MlfqSlice.TurnLength | src/kernel/task_mlfq.c:224-293 | a task that is given the CPU keeps it for exactly 10, 5, 3 or 1 ticks by its level, over all runs |
| MlfqSlice.CreateJoins | src/kernel/task_mlfq.c:147-215 | a new task joins the end of the second ring with a new pid |
| MlfqSlice.WakeJoins | src/kernel/task_mlfq.c:631-648 | a sleeper that is woken joins the end of the ring of its level, or of its base level if it has sunk below; anybody else is left alone |
| MlfqSlice.PriorityJoins | src/kernel/task_mlfq.c:590-609 | a READY task whose priority is set leaves its ring for the end of the new one |
| MlfqRings.RingExtended | src/kernel/task_mlfq.c:25-40 | the pointers that queue_add sets link the ring with the task at its end |
| MlfqRings.RingCut | src/kernel/task_mlfq.c:43-75 | the pointer that queue_remove sets links the ring without the task |
| MlfqRings.RingTurned | src/kernel/task_mlfq.c:78-103 | moving the tail pointer only turns the ring |
| MlfqRings.Scheduler.constructor | src/kernel/task_mlfq.c:106-144 | four empty rings; the idle task is in none |
| MlfqRings.Scheduler.QueueAdd | src/kernel/task_mlfq.c:25-40 | the pointer code appends to the ring of the task's priority and leaves the other rings alone |
| MlfqRings.Scheduler.FindBefore | src/kernel/task_mlfq.c:50-63 | the search loop ends and finds the task before the given one, or null if it is not queued |
| MlfqRings.Scheduler.QueueRemove | src/kernel/task_mlfq.c:43-75 | the pointer code removes the task from its ring, also the tail and the last one |
| MlfqRings.Scheduler.FindReady | src/kernel/task_mlfq.c:86-97 | the inner loop finds the first task that can run |
| MlfqRings.Scheduler.GetNextReadyTask | src/kernel/task_mlfq.c:78-103 | the loops over levels and rings choose as specified |
| MlfqRings.Scheduler.TaskCreate | src/kernel/task_mlfq.c:147-215 | the specified step: array entry, pid and ring |
| MlfqRings.Scheduler.TaskWake | src/kernel/task_mlfq.c:631-648 | the specified step |
| MlfqRings.Scheduler.TaskSetPriority | src/kernel/task_mlfq.c:590-609 | the specified step |
| MlfqRings.Scheduler.TaskCheckSleeping | src/kernel/task_mlfq.c:650-664 | the specified step |
| MlfqRings.Scheduler.PickTask | src/kernel/task_mlfq.c:256-273 | asking again up to 33 times never gives another task than the first answer |
| MlfqRings.Scheduler.TaskSchedule | src/kernel/task_mlfq.c:224-293 | the specified step |
| MlfqRings.Scheduler.TaskYield | src/kernel/task_mlfq.c:296-305 | the specified step |
| MlfqRings.Scheduler.TaskSleep | src/kernel/task_mlfq.c:617-629 | the specified step |
| Checksum.Fold | src/lib/netstack_driver.c:186-187 | folding the carries computes the one's complement sum |
| Checksum.IpChecksum | src/lib/netstack_driver.c:173-190 | complement of the one's complement sum of the native words, odd lengths included |
| Checksum.IcmpChecksum | src/lib/netstack_driver.c:330-345 | the same over words in network order |
| Checksum.PingChecksum | src/lib/shell.c:2121-2129 | the same over pairs of bytes |
| Checksum.ByteOrder | src/lib/netstack_driver.c:173-190 | the sums in the two byte orders are byte swaps of each other, for every message (RFC 1071, section 2(B)) |
| Checksum.SafeLengths | src/lib/netstack_driver.c:173-190 | the 32-bit accumulator is right for all messages of a length exactly up to 131074 bytes |
| Checksum.ChecksumsAgree | src/lib/netstack_driver.c:330-345 | both checksums are the same two bytes in memory |
| Checksum.StoredChecksum | src/lib/netstack_driver.c:330-345 | with the checksum stored the message sums to 0xFFFF and checks to 0 (RFC 1071, section 1) |
| Checksum.EitherReceiverAccepts | src/lib/netstack_driver.c:173-345 | a message sealed with either form passes the check with the other |
| Checksum.OneByteIsDetected | src/lib/netstack_driver.c:173-190 | changing any one byte of a message, the odd last one too, changes its checksum |
| Checksum.RfcExample | src/lib/netstack_driver.c:330-345 | the numerical example of section 3 of RFC 1071 |
| Checksum.SealIcmp | src/lib/netstack_driver.c:330-345 | the sealed ICMP message sums to 0xFFFF and nothing else in the frame changes |
| Checksum.EchoReply | src/lib/netstack_driver.c:311-345 | the reply carries the request's id, sequence and data under a valid checksum |
| Checksum.SealPing | src/lib/shell.c:2118-2168 | both checksums of ping are valid at once |
| Paths.SplitJoin | src/lib/shell.c:99-220 | splitting is compatible with joining paths |
| Paths.NamesOfRender | src/lib/shell.c:193-219 | rendering and splitting are inverse |
| Paths.PiecesAreComponents | src/lib/shell.c:150-190 | the parsing loop finds the components, one of more than 63 characters as its pieces of 63 |
| Paths.NormalizeIsStackEvaluation | src/lib/shell.c:99-220 | for a joined path of at most 255 characters that never goes deeper than 32 names, normalize_path renders the names that evaluating the components on a stack leaves - exactly if they fit in 255 characters, which they do if no component is longer than 63 |
| Paths.ResultIsNormal | src/lib/shell.c:99-220 | for every input the result has no empty, "." or ".." component and fits the buffers exactly if the end of the buffer does not cut a name to "." or ".."; so at least whenever the names fit |
| Paths.Idempotent | src/lib/shell.c:99-220 | normalising twice is normalising once exactly if no name is cut to "." or ".." |
| Paths.FixedIsNormal | src/lib/shell.c:99-220 | the paths that normalize_path leaves alone are exactly the normalised ones |
| Paths.TwoStepsAreOne | src/lib/shell.c:342-379 | going to a and then to b is going to a/b, if the names found for a fit |
| Paths.CurrentDirStaysNormal | src/lib/shell.c:342-379 | after any run of cd the current directory is normalised exactly if the last cd that changed it had no name cut to "." or ".." |
| Paths.LongNamesAreCut | src/lib/shell.c:155-161 | a path of one name is left alone exactly if the name has at most 63 characters |
| Paths.CutToADot | src/lib/shell.c:193-219 | an input of 255 characters whose result ends in "/.": it is not normalised, and normalising again changes it |
| Paths.BuildTemp | src/lib/shell.c:108-144 | the joined path, cut at 255 characters |
| Paths.NormalizePath | src/lib/shell.c:99-220 | the loops compute the specified function |
| PathSteps.ComponentMore | src/lib/shell.c:157-191 | after any path: one component more leaves the names as they are if it is empty or ".", takes the last name away if it is "..", and else joins the end if there are fewer than 32 |
| PathSteps.DotStays | src/lib/shell.c:99-220 | "." leads from any normalised directory to itself |
| PathSteps.DotDotGoesUp | src/lib/shell.c:99-220 | ".." leads from any normalised directory to its parent if its path has at most 252 characters and nowhere if it has more; from the root it leads to the root |
| PathSteps.NameGoesDown | src/lib/shell.c:99-220 | a name of at most 63 characters leads one step down exactly if there is room for it on the stack and in the buffer |
| PathSteps.UpAfterAnyPath | src/lib/shell.c:99-220 | if a leads to a place, a/.. leads to the parent of that place |
| PathSteps.StayAfterAnyPath | src/lib/shell.c:99-220 | and a/. to the place itself |
| PathSteps.DownAfterAnyPath | src/lib/shell.c:99-220 | and a/d one step further down exactly if there is room for d |
| Vfs.SlashesDoNotMatter | src/fs/vfs.c:191-302 | repeated, leading and trailing slashes do not change what a path leads to |
| Vfs.UniquePath | src/fs/ramfs.c:50-70 | no two paths lead to the same place |
| Vfs.CreateChangesOnePath | src/fs/ramfs.c:214-263 | creating changes what one path leads to and no other - exactly if nothing is mounted right below |
| Vfs.RemoveChangesOnePath | src/fs/ramfs.c:385-432 | removing changes what one path leads to and no other - exactly if nothing is mounted right below |
| Vfs.MountChangesOnePoint | src/fs/mount.c:41-93 | mounting changes one mount point |
| Vfs.UnmountChangesOnePoint | src/fs/mount.c:96-118 | unmounting changes one mount point |
| VfsMounts.MountAnswers | src/fs/mount.c:41-93 | mount_fs returns -2 exactly for a path that is mounted, -1 exactly without a free slot or a file system, and changes nothing then |
| VfsMounts.MountFoundAgain | src/fs/mount.c:41-93 | a mount is found again under its path exactly up to 255 characters; a longer path is mounted at its first 255 |
| VfsMounts.UnmountAnswers | src/fs/mount.c:96-118 | unmount_fs returns 0 exactly for a path that is mounted |
| VfsMounts.MountCovers | src/fs/vfs.c:262-280 | a mount covers whatever was at its path and below, if the path before it leads anywhere, and changes no path that does not lead through it |
| VfsMounts.UnmountUndoesMount | src/fs/mount.c:96-118 | after unmounting every path leads where it did before mounting |
| VfsFiles.FileTree.constructor | src/fs/ramfs.c:449-480 | an empty root directory |
| VfsFiles.FileTree.MountGetSb | src/fs/mount.c:121-132 | the file system mounted at exactly that path |
| VfsFiles.FileTree.MountFs | src/fs/mount.c:41-93 | the path becomes a mount point and no other changes; the three ways to fail change nothing; with a root of its own the tree and the mounted paths stay well-formed |
| VfsFiles.FileTree.UnmountFs | src/fs/mount.c:96-118 | the path is no mount point any more and no other changes; tree and mounted paths stay well-formed |
| VfsFiles.FileTree.RamfsLookup | src/fs/ramfs.c:265-284 | the entry with the name, in directories only |
| VfsFiles.FileTree.RamfsAdd | src/fs/ramfs.c:335-383 | a new first entry, or nothing if the name exists, this is no directory or there is no memory |
| VfsFiles.FileTree.RamfsRemove | src/fs/ramfs.c:286-333 | the entry is gone, or nothing if it may not be removed |
| VfsFiles.FileTree.VfsLookupInode | src/fs/vfs.c:191-302 | the character loop is the fold over the non-empty components with its jumps at mount points |
| VfsFiles.FileTree.RamfsFindParent | src/fs/ramfs.c:483-538 | the directory and the last name |
| VfsFiles.FileTree.CreateAt | src/fs/ramfs.c:541-583 | creation by path |
| VfsFiles.FileTree.VfsRmdir | src/fs/vfs.c:500-560 | removal of a directory by path |
| VfsFiles.FileTree.VfsUnlink | src/fs/vfs.c:428-478 | removal of a file by path, with the name cut to 63 characters |
| VfsFiles.CreateAtPath | src/fs/ramfs.c:541-583 | at an unmounted path of names of any length that fits the buffers creation succeeds exactly if the parent is a directory, the name is new and there is memory, and changes that path only |
| VfsFiles.RmdirAtPath | src/fs/vfs.c:500-560 | rmdir succeeds exactly on empty directories other than the root, and changes that path only |
| VfsFiles.UnlinkAtPath | src/fs/vfs.c:428-478 | unlink succeeds exactly on files and changes that path only - exactly if the last name has at most 63 characters, or there is neither a file under its first 63 characters nor one at the path |
| VfsFiles.LongNameUnlinksAnother | src/fs/vfs.c:461-464 | the input for which it fails: a longer name removes the file that has its first 63 characters for a name, and leaves its own alone |
| VfsFiles.RunKeepsTree | src/fs/ramfs.c:214-432 | after any run of creating, removing, mounting and unmounting at any paths nothing has two names, nothing mounted has an entry and no path is mounted twice |
| VfsFiles.BootTree | src/fs/ramfs.c:449-480 | the file tree after boot is such a state |
| VfsFiles.MountAloneReached | src/fs/mount.c:41-93 | a state with something mounted at "/a/b" and no "/a" is reached |
| VfsFiles.MountAloneBelow | src/fs/mount.c:41-93 | in that state there is a mount right below a path that leads nowhere |
| VfsFiles.MountAppears | src/fs/vfs.c:262-280 | creating "/a" there makes the mount appear |
| VfsFiles.Shell.CmdCd | src/lib/shell.c:342-379 | the new current directory: the normalised path if it leads to a directory of the tree |
| Bits.UpdateBit | src/mm/pmm.c:13-28 | setting and clearing a bit of a bitmap word changes that bit and no other |
| Bits.OrKeeps | src/mm/paging.c:51-58 | or-ing changes a word exactly if it brings in a new bit |

## Left out

Assumptions under which the model stands:

- Each kernel call is taken to be one step that no interrupt divides, and `ipc_recv` to be two. System calls run
  with interrupts off; the shell calls the block-device client, and so `ipc_recv`, with interrupts on, where this
  is an assumption. Sending is possible at any time, as from the interrupt bridge.
- Process ids, request ids and the model's task numbers do not wrap at 2^32.
- Pmm: memory sizes give at most 32768 frames, and freed addresses lie below that bound, as the fixed bitmap demands.
- Paging: physical memory is a sequence of frames of 1024 words that is reassigned, not an array. The kernel
  directory and every frame reachable from a directory to be cloned are in use, which boot does not see to, as
  said above. The TLB and the control registers (`paging_enable`, `paging_switch_directory`) are not modelled.
- Heap: the heap is a map from addresses to words. It starts 4-byte aligned at 28 or above and ends below 2^32.
  `kfree` gets null or a live pointer.
- VRFS: the device is a sequence of blocks with reliable transfers; `kmalloc` never fails inside the file system;
  reads and writes use a handle from a lookup or creation just before. The size field of the root directory is
  not relied on.
- Vrfs.Vrfs.Create: says nothing about the map for a name over 27 bytes whose first 27 are another file's name, or
  for a new file beyond the 96th inode, because the code damages the disk there; `VrfsRuns.Safe` keeps both out of
  the runs.
- Kernel and IpcTable: the table of ports is an array, but a waiting task is named by its number, and the
  scheduler inside `IpcTable.Table` is the value that `TaskRing` refines, not the pointer structure itself.
- TaskRing and MlfqRings: saved registers, stacks and the process tree are left out; the array of tasks is
  modelled in MlfqRings only, since in `task.c` only `task_find_by_pid` uses it.
- BlkProtocol and BlkSystem: only the client functions and the driver use their two ports, and the driver's port
  stays open; sectors are moved by a controller that succeeds or fails, without its status bits and waiting
  loops. The buffers' memory is part of `BlkDriver`, whose `HandleRequest` says which bytes go where; in the runs of
  `BlkSystem` what a write puts on the disk is whatever the buffer holds when the sector is moved. The programs'
  variables are values, as is the kernel; `BlkClient` and `BlkDriver` have the code of client and driver.
- BlkCalls.OneCallAfterTheOther: is about clients whose receives find a message; one that is resumed early ends its
  call without the answer, which then meets the next call (`CallEnds` says what happens in all cases).
- Paths and VfsFiles: characters are not encoded; texts have no terminator. Lookups are for paths of at most 254
  characters after a leading slash, so that no path buffer is cut short or overflows. Directory lists are
  sequences, not linked cells, and `num_entries` is their length. Mounted directories are looked up by the same
  rule as others. New inodes and mounted roots are nobody's yet.
- MlfqSleep.Sleeper: is about tasks other than the idle task, which gets the CPU as a last resort even when it
  sleeps (`IdleCannotSleep`).
- VfsFiles.FileTree.CreateAt: does not write initial contents in a separate step; the new node comes with them.

Not modelled:

- Drivers' port I/O, interrupt controllers, keyboard and screen: hardware effects without state worth an invariant.
- Assembly, context switching itself and boot code: a switch is the choice of the current task.
- `exec_load`, `usermode.c` and `driver_config.c`: start-up glue.
- devfs, procfs, netif, ioport and irq_bridge tables, `ipc_get_stats`, and ramfs file contents: simple bookkeeping.
- ARP handling and the rest of the network stack around the checksum.
- MLFQ fork, exit and waitpid: reaping leaves freed tasks in rings, so the ring invariant does not survive it.
- Shell commands other than `normalize_path`, `cd` and the checksums of `ping`.
