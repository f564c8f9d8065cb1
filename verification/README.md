# KoiZ-OS: a verified model of the kernel's allocators, file system and scheduler

KoiZ-OS is a small 32-bit kernel. This project models nine of its components in Dafny and
proves what they guarantee over whole runs. Each component that changes state is a class
whose methods follow the C code and are proved to compute a transition of a value model;
the theorems are about those transitions and about runs of them. A `panic` is a `Panic`
result where it can happen and `assert false` where it is proved unreachable. Pointers into
a static array are indices, and all physical memory is one array of 2^32 bytes that the
record table, the page tables, the ramdisk, the heap and the output buffer share.

| file | what it models |
|---|---|
| `Mlfq.dfy`, `MlfqTurns.dfy`, `MlfqRuns.dfy`, `Sched.dfy` | the three-level feedback scheduler: queues as values, whose turn is next, runs, and the linked entries of `sched.c` |
| `Process.dfy`, `ProcessRuns.dfy` | the process table, `process_execve`, and its agreement with the scheduler |
| `Fat16.dfy`, `Fat16Chains.dfy`, `Fat16Runs.dfy` | the FAT16 volume as a value, one write, and runs of writes |
| `Fat16Names.dfy`, `Fat16Whole.dfy` | when a name finds the right file, and when a whole file can be read back |
| `Fat16View.dfy`, `FatVolume.dfy` | where the volume lies on the disk, and the driver on the ramdisk |
| `Ramdisk.dfy`, `RamdiskRuns.dfy` | the ramdisk scattered over pages as one flat byte array |
| `Pmem.dfy`, `PmemRuns.dfy` | the boot layout and the next-fit page allocator |
| `Vmem.dfy` | two-level page tables and the identity map |
| `Slab.dfy`, `SlabHeap.dfy`, `Malloc.dfy` | the slab allocator: one slab, seven slabs, and the static structures |
| `Vga.dfy`, `Stdio.dfy` | the scrolling screen and the output ring buffer |
| `Kernel.dfy` | all components over one memory: booting, and what each call leaves of the others |
| `Common.dfy`, `Memory.dfy` | bytes and words, outcomes, memory access |

`dafny verify dfyconfig.toml` checks the project.

## Findings about the code

The code is modelled as written. Where it does not do what its comments promise, the exact
condition under which it does is proved.

- Files over 512 bytes are not stored whole. The write loop looks for the next cluster before
  it marks the current one, so it visits each cluster twice. Following the chain of a file gives
  back what was written, whatever is written later, exactly when the directory had a free slot
  and the file fits one sector (`Fat16Whole.WholeFileExact`). Its first sector comes back exactly
  when the directory had a free slot and the file fits one sector or its second sector repeats
  the first (`Fat16Runs.RoundTripExact`). A file of two differing sectors shows both failures on
  every formatted volume (`Fat16Whole.TwoSectorsLost`). The chain itself is always well formed.
- A write to a full directory returns success and loses the file
  (`Fat16Runs.FullDirectoryLosesFile`); 31 small files fill the directory of any
  formatted volume, and the next one is lost (`Fat16Whole.FullDirectoryReached`).
- `memcmp` returns 0 whenever no byte of the first operand is smaller (`Fat16.MemcmpMeans`), so
  a file can answer for another name. Call an entry below a name when none of its 11 bytes exceeds
  the name's. On any directory the search is right for a name exactly when every entry below it
  has an entry of the name itself at or before it (`Fat16Names.LookupExact`); on volumes reached
  from a format, exactly when the name is stored or no entry is below it
  (`Fat16Names.LookupAlways`). Once "A" is stored, "B" is
  refused, and reading "B" gives the sector of "A" (`Fat16Names.OtherNameAnswers`). The
  persistence theorem holds with this `memcmp`.
- The write meant for the second FAT goes to byte 16385 + 2c, across the entries 255 and 256
  places before c (`Fat16View.SecondFatMissed`). It touches nothing the driver reads
  (`Fat16View.PutSecondFat`), and the second FAT stays a copy of the first exactly when the link
  changes nothing (`Fat16View.MirrorExact`).
- Booting with too little memory passes every check and leaves a page area of almost 4 GiB
  (`Pmem.TooSmallRegionAccepted`); `Pmem.BootLayout` gives the exact condition for a sound layout.
- `pmem_alloc` never tries the record its cursor stands on (`Pmem.NextFit`,
  `PmemRuns.SinglePageNeverTaken`).
- A slab block is the one after the slot it is named for, so the last block of a page starts at
  the page's end (`SlabHeap.InOwnPage`). Addresses are nevertheless unique
  (`SlabHeap.AddrUnique`), and blocks of one class never share bytes (`SlabHeap.OneClassApart`), but those
  of two classes can: exactly when the one is the last of its page and the other lies in the page that follows,
  before the first one's end (`SlabHeap.ShareExact`). `malloc(4096)` followed by `malloc(64)` is
  an instance whenever the allocator hands out consecutive pages (`SlabHeap.LiveBlocksOverlap`).
- For the same reason a block can reach out of the heap. Its bytes are all in the heap's pages
  exactly when it is not the last of its page or the heap owns the next page too
  (`SlabHeap.InHeapExact`), and filling it leaves the other components alone exactly when the next
  page is not one of theirs (`Kernel.Machine.FillExact`). With two free pages ahead,
  `malloc(4096)` returns the address of the very page the next program is loaded into
  (`Kernel.Machine.ProgramUnderBlock`).
- `free` of an address that is not live is not noticed as long as some entry has it; the count of
  free entries is then one too high (`Malloc.Store.FreePtrSlab`, `Malloc.KernelHeap.Free`).
- A program name of 16 characters or more puts the terminator on the low byte of the pid behind
  it, so the scheduler lists the process with pid 0 (`Process.ProcessTable.Execve`).
- `sched_init` leaves the running process in place, so the scheduler is well formed afterwards
  only if none was running (`Sched.Scheduler.Init`).
- Clearing the screen scrolls it once, so the last row is zeroed instead of blanked
  (`Vga.Screen.ClearScreen`).
- `process_execve` loads the first sector of a program only. Its test for a failed read never
  fires, since the read of a file that was found reports success even when its head lies past the
  disk (`Process.ProcessTable.ReadProgram`), and would not keep the process from being scheduled.
- The lookup of a program has the same flaw as that of a file: "B" starts the program stored as
  "A" (`Kernel.Machine.OtherProgramStarts`).

## Model

| member | source | states |
|---|---|---|
| Sched.Scheduler.Init | kernel/drivers/process/sched.c:28-35 | The three lists are emptied and nothing else changes, so the scheduler is well formed afterwards exactly when no process was running |
| Sched.Scheduler.AddPid | kernel/drivers/process/sched.c:37-60 | The linked entries after an arrival spell out the old queues with the pid in front of the first |
| Sched.Scheduler.FindPredecessor | kernel/drivers/process/sched.c:136-148 | The search terminates at the entry before the running process and never falls off the list |
| Sched.Scheduler.Unlink | kernel/drivers/process/sched.c:123-149 | Exactly that entry leaves exactly that list, by the change of one link or one head |
| Sched.Scheduler.MoveDown | kernel/drivers/process/sched.c:123-161 | Unlink and push compose to a demotion that keeps the three lists disjoint, acyclic and in step with the priorities |
| Sched.Scheduler.Update | kernel/drivers/process/sched.c:93-199 | One update of the linked structure is the queue transition, the shape invariant is kept, and every sanity panic is unreachable; the rows of `MlfqTurns` say what that transition is, place by place |
| Sched.Scheduler.PrintInfo | kernel/drivers/process/sched.c:62-91 | Walking the three lists terminates and visits exactly the queues in order |
| Mlfq.UpdateValid | kernel/drivers/process/sched.c:93-199 | An update keeps the queues disjoint and complete, tickets in range and the running process on a queue |
| Mlfq.ArriveValid | kernel/drivers/process/sched.c:47-54 | An arrival of a fresh pid keeps all of that and adds one process |
| MlfqTurns.NextInLine | kernel/drivers/process/sched.c:182-189 | With tickets for a timeslice, or at the bottom, a process at place k of the highest queue with anyone in it hands over to place k + 1, or to place 0 from the last; the queues stay and only its tickets change |
| MlfqTurns.DemotedTurn | kernel/drivers/process/sched.c:119-161 | Without tickets above the bottom, the process leaves its place, goes in front of the next lower queue with 2000 tickets, and the first of those left runs, or else the next in line below |
| MlfqTurns.PreemptedTurn | kernel/drivers/process/sched.c:164-180 | With anyone in a higher queue the first there runs next, and the process charged keeps its place or is demoted as above |
| MlfqTurns.ArrivalOrder | kernel/drivers/process/sched.c:47-54 | An arrival goes in front of the first queue with 2000 tickets; every other place, ticket count and the turn stay |
| MlfqTurns.EachOnceAt | kernel/drivers/process/sched.c:182-189 | At any level, while all in the highest queue can pay, each member is selected exactly once in as many updates as it has members |
| MlfqTurns.TwoTakeTurns | kernel/drivers/process/sched.c:93-199 | Two processes just added alternate from the first timeslice on |
| MlfqRuns.StrictPriorityAlways | kernel/drivers/process/sched.c:98-107 | After every update in any run with arrivals, the process chosen stands in the lowest-numbered non-empty queue |
| MlfqRuns.UpdatePhi | kernel/drivers/process/sched.c:119-162 | An update lowers the potential by exactly one if it charges a process above the bottom level, demoting or not, and otherwise leaves it |
| MlfqRuns.ExactDrain | kernel/drivers/process/sched.c:119-189 | Without arrivals the potential after k updates from a prioritized state is exactly what is left after k, down to zero |
| MlfqRuns.AllSink | kernel/drivers/process/sched.c:119-189 | Everyone is at the bottom level after at most potential + 1, hence 402n + 1, updates |
| MlfqRuns.EachOnce | kernel/drivers/process/sched.c:182-189 | Once all are at the bottom, any n consecutive updates select each process exactly once |
| MlfqRuns.NoStarvation | kernel/drivers/process/sched.c:93-189 | Without arrivals every process runs within potential + 1 + n updates |
| MlfqRuns.SlicesConserved | kernel/drivers/process/sched.c:47-54 | Over any run with arrivals, potential plus charges equals the starting potential plus 402 per arrival |
| MlfqRuns.RankDecreases | kernel/drivers/process/sched.c:93-189 | A per-process rank that every update lowers unless it runs that process |
| MlfqRuns.NoStarvationUnderArrivals | kernel/drivers/process/sched.c:93-189 | However arrivals interleave, a scheduled process runs before 466 * 63 + 1 updates have passed |
| MlfqRuns.SizeBound | kernel/drivers/process/sched.c:24 | At most MAX_PROCESSES - 1 processes are ever scheduled |
| Process.ProcessTable.Boot | kernel/drivers/process/process.c:41-56 | After process_init and sched_init slot 0 is runnable under the name Idle, every other slot is unused with its own pid, and slots, lists and owned pages agree, with nothing scheduled; it panics exactly when no page can be taken |
| Process.ProcessTable.Execve | kernel/drivers/process/process.c:123-179 | If the name finds a file, schedules exactly the least pid on no list, on a page of its own that was not in use and that starts with the head sector of the file found, and otherwise changes nothing; a name is cut to 16 bytes and one of 16 or more clears the pid field; it panics exactly when there are a file and a free pid but no page to take |
| Process.ProcessTable.GetNextFreePid | kernel/drivers/process/process.c:114-121 | The least unused pid above 0, or -1 when there is none |
| ProcessRuns.TraceRuns | kernel/drivers/process/process.c:138-176 | Over any sequence of program starts and ticks, only pids on no list are ever scheduled |
| ProcessRuns.KernelRun | kernel/drivers/process/process.c:138-176 | At most 63 processes ever arrive, and the starvation bound holds for every such run |
| Fat16.MemcmpMeans | kernel/libc/string.c:59-71 | Zero exactly when no byte of the first operand is below its counterpart, and never positive |
| Fat16.NativeExact | kernel/fs/ramdisk_fat16.c:244-298 | For any raw name there is exactly one native form given byte by byte: up to eight bytes before the first dot, up to three after it, blanks elsewhere |
| Fat16.NativeOf | kernel/fs/ramdisk_fat16.c:244-298 | Every byte of the native form of stem, dot and extension, and of a name without a dot |
| Fat16.SameNative | kernel/fs/ramdisk_fat16.c:244-298 | Two names share a native form if and only if their stems agree on eight padded bytes and their extensions on three |
| Fat16Names.LookupExact | kernel/fs/ramdisk_fat16.c:303-329 | For every directory, the search finds the slot of the very name, or 0 when there is none, if and only if every used slot none of whose name bytes exceeds the name's has a slot with the name itself at or before it |
| Fat16Names.RefusedExact | kernel/fs/ramdisk_fat16.c:388-390 | A write is refused exactly when no byte of some used slot's name exceeds its own name's |
| Fat16Names.LookupAlways | kernel/fs/ramdisk_fat16.c:303-329 | On every volume reached from a format, the search is right for a name if and only if the name is stored or every stored name exceeds it in some byte |
| Fat16Names.OtherNameAnswers | kernel/fs/ramdisk_fat16.c:321-324 | After "A" is written to a formatted volume, "B" is refused and reading "B" gives the sector of "A" |
| Fat16Names.ExtensionTold | kernel/fs/ramdisk_fat16.c:284-324 | After test.bin is written to a formatted volume, test.asm is not found, reads as missing and is not refused as existing |
| Fat16Chains.LoopIsStore | kernel/fs/ramdisk_fat16.c:413-460 | The write loop with its temporary self-link, plus the last cluster, equals writing two sectors to each cluster of a chain |
| Fat16Chains.StoreExtends | kernel/fs/ramdisk_fat16.c:413-460 | A write puts an ascending chain ended by 0xFFF8 on free clusters and changes no other entry or cluster |
| Fat16Chains.StoreHolds | kernel/fs/ramdisk_fat16.c:413-453 | Exactly which bytes each cluster of the chain ends up holding, for every size |
| Fat16Chains.StoreSpace | kernel/fs/ramdisk_fat16.c:426-431 | The write panics exactly when the free clusters do not suffice, and otherwise uses one per 1024 bytes |
| Fat16Runs.WriteOutcome | kernel/fs/ramdisk_fat16.c:373-482 | A complete account of a write: refused name, no space, panic, or the chain, the entry and the contents it leaves |
| Fat16Runs.Persistence | kernel/fs/ramdisk_fat16.c:303-369 | After a successful write with a free slot, every state reached by any later writes reads the same head sector for that name |
| Fat16Runs.FullDirectoryLosesFile | kernel/fs/ramdisk_fat16.c:180-197 | With no free slot a write that returns success leaves a file that no later state finds |
| Fat16Runs.RoundTripExact | kernel/fs/ramdisk_fat16.c:332-482 | In every later state the first sector of a file reads back as written if and only if the directory had a free slot and the file fits 512 bytes or its second sector repeats the first |
| Fat16Whole.WholeFileExact | kernel/fs/ramdisk_fat16.c:413-482 | In every later state the sectors of a file's chain, in order, give back all that was written if and only if the directory had a free slot and the file fits 512 bytes |
| Fat16Whole.TwoSectorsLost | kernel/fs/ramdisk_fat16.c:413-442 | On any formatted volume with room, a 1024-byte file of differing halves is written with success, and neither it nor its first sector reads back |
| Fat16Whole.FullDirectoryReached | kernel/fs/ramdisk_fat16.c:180-197 | 31 small files fill the directory of any formatted volume with room; the next write returns success and its file is not found |
| Fat16Runs.WellFormedAlways | kernel/fs/ramdisk_fat16.c:400-478 | From format on, in every run each file has an ascending chain from its entry's head, chains are disjoint, the entries marked since format are exactly those on chains, and the free clusters are accounted for |
| Fat16Runs.FollowChain | kernel/fs/ramdisk_fat16.c:434-438 | Following byte-swapped links from a head visits exactly the chain |
| Fat16View.ChainBytes | kernel/fs/ramdisk_fat16.c:434-438 | On the disk the two bytes of each cluster on a chain give the next cluster, high byte first, and FF F8 at its end |
| Fat16View.BootSectorKept | kernel/fs/ramdisk_fat16.c:400-478 | A write that changes no more than FileWrite may leaves the boot sector and everything past the scanned clusters as they were |
| Fat16View.PutFat | kernel/fs/ramdisk_fat16.c:435-436 | Storing a link changes that FAT entry and no other entry, slot or cluster |
| Fat16View.PutSecondFat | kernel/fs/ramdisk_fat16.c:437-438 | The write at byte 16385 + 2c changes nothing the driver reads |
| Fat16View.SecondFatMissed | kernel/fs/ramdisk_fat16.c:101-102 | After a link of cluster c is stored, which entries of the second FAT hold which bytes: c itself is unchanged, c - 255 and c - 256 get half of the link each |
| Fat16View.MirrorExact | kernel/fs/ramdisk_fat16.c:435-438 | A second FAT that mirrors the first still does after a link is stored if and only if the link and the two misplaced bytes were already there |
| Fat16View.PutSector | kernel/fs/ramdisk_fat16.c:450-452 | Storing part of a sector changes that cluster only |
| Fat16View.PutSlot | kernel/fs/ramdisk_fat16.c:474-478 | Storing an entry changes that directory slot only |
| FatVolume.Volume.FindNextFreeCluster | kernel/fs/ramdisk_fat16.c:156-175 | The first free entry of the view's FAT, or zero |
| FatVolume.Volume.FilenameToNative | kernel/fs/ramdisk_fat16.c:244-298 | The buffer ends up with the native form of the name, byte by byte as IsNative lists it, for any name |
| FatVolume.Volume.FileExists | kernel/fs/ramdisk_fat16.c:303-329 | The first scanned slot whose name matches under memcmp, or zero |
| FatVolume.Volume.FileRead | kernel/fs/ramdisk_fat16.c:332-369 | Code 3 when no file is found, 0 for the first sector and 5 for any other index; the buffer holds the sector of the head cluster, scanned or not, in both of the latter cases, and is untouched when no file is found or the sector is past the disk; the disk is unchanged |
| FatVolume.Volume.FileReadInto | kernel/fs/ramdisk_fat16.c:332-369 | The same read into a page of memory: exactly the sector's bytes of that page change |
| FatVolume.Volume.FileWrite | kernel/fs/ramdisk_fat16.c:373-482 | The driver on the page-scattered ramdisk computes the write of the value model, including its panic; of the whole disk a successful write changes only the links, misplaced copies and sectors of clusters it took and the 32 bytes of one slot, each new link having its copy; a refused one changes nothing |
| FatVolume.Volume.Format | kernel/fs/ramdisk_fat16.c:204-231 | The boot record in sector 0, the four reserved bytes and what follows them on the stack at the start of sectors 1 and 33, zeros up to the data area and not a byte of that changed; so both reserved entries are set, the directory is empty and at least 159 clusters are free |
| FatVolume.Volume.Init | kernel/fs/ramdisk_fat16.c:550-581 | Succeeds exactly on a boot record that ends in 55 AA, an unmounted ramdisk and 1025 pages to take, and gives a disk laid out as formatted, boot record included, on pages not in use before; the pages of others keep their bytes |
| Ramdisk.IoCodeExact | kernel/drivers/ramdisk/ramdisk.c:80-83 | Zero is returned exactly when the true end of the transfer is inside the disk, despite the wrapping test |
| Ramdisk.Disk.InternalIo | kernel/drivers/ramdisk/ramdisk.c:74-148 | A transfer of any length across pages reads or overwrites exactly the addressed bytes of one flat array, with each return code characterised in numbers; no byte of memory outside the block pages changes, and none at all on a read |
| Ramdisk.Disk.ReadInto | kernel/drivers/ramdisk/ramdisk.c:74-148 | A read whose data pointer is a page outside the disk overwrites exactly the addressed bytes of that page and keeps the disk |
| Ramdisk.Disk.Init | kernel/drivers/ramdisk/ramdisk.c:13-38 | Succeeds exactly for a legal size on an unmounted disk with a page per block and one more to take; the pages were not in use and differ from each other and from the pointer page |
| Ramdisk.Disk.Destroy | kernel/drivers/ramdisk/ramdisk.c:40-60 | Frees exactly the pages the disk owned |
| RamdiskRuns.MountAndUnmount | kernel/drivers/ramdisk/ramdisk.c:13-60 | Mounting and unmounting restores the set of used pages for every legal size, and succeeds exactly when there are pages enough |
| RamdiskRuns.LastWriteWins | kernel/drivers/ramdisk/ramdisk.c:106-145 | Over any sequence of transfers every byte reads as the last successful write to it left it |
| Pmem.PageAllocator.LargestIn | kernel/drivers/memory/pmem.c:86-104 | The first of the longest available regions of the memory map |
| Pmem.PageAllocator.Initialize | kernel/drivers/memory/pmem.c:59-180 | On a checked memory map it succeeds if and only if the kernel ends no later than the largest region, the later of the two starts is 1 MiB or above, and the 32-bit length from the first page boundary past the table is at least 0xFFFF; start, page area, number of records and the zeroed table are given in numbers |
| Pmem.OrdinaryBoot | kernel/drivers/memory/pmem.c:59-180 | A memory map with 128 MiB and a kernel that ends at 0x120000 boots: the table starts there, the pages at 0x128000, and all 0x7EB8 of them are free |
| Pmem.BootLayout | kernel/drivers/memory/pmem.c:111-157 | For any region that boots, wrapping or not, the layout lies above the kernel; table and pages are disjoint, aligned, inside the region and below 4 GiB if and only if the region ends below 4 GiB and the first page boundary past the table is inside it |
| Pmem.TooSmallRegionAccepted | kernel/drivers/memory/pmem.c:156-176 | A 2 KiB region passes all checks and yields a layout that is not sound |
| Pmem.PageAllocator.BootValid | kernel/drivers/memory/pmem.c:138-157 | A sound layout is a valid allocator with every page free |
| Pmem.PageAllocator.EntryRoundTrip | kernel/drivers/memory/pmem.c:189-221 | Entry to pointer to entry is the identity, and pages are exactly the pointers of entries |
| Pmem.NextFit | kernel/drivers/memory/pmem.c:229-259 | The search finds the first free record in cyclic order after the cursor, and finds one exactly when some record other than the cursor's is free |
| Pmem.TakeOne | kernel/drivers/memory/pmem.c:229-259 | The number of pages that can be taken in a row, all that are free unless only the cursor's own is, is positive exactly when a call succeeds and falls by one with it |
| Pmem.PageAllocator.Alloc | kernel/drivers/memory/pmem.c:223-263 | Returns the page of that record, flips only it, and hands out a page that was not in use; panics exactly when the search finds none |
| Pmem.PageAllocator.Free | kernel/drivers/memory/pmem.c:265-284 | Panics exactly on a pointer outside the page area or a zero record, and otherwise clears the one record of that pointer; for a page, exactly it leaves the pages in use |
| PmemRuns.FreshYieldsAll | kernel/drivers/memory/pmem.c:223-263 | A fresh allocator with n >= 2 pages hands out n different pages and then panics |
| PmemRuns.LivePagesNeverHandedOut | kernel/drivers/memory/pmem.c:223-284 | In any run of allocations and frees no live page is handed out |
| Vmem.Paging.PtableNew | kernel/drivers/memory/vmem.c:27-53 | A zeroed page that was not in use; every page in use keeps its bytes |
| Vmem.MapMore | kernel/drivers/memory/vmem.c:170-187 | Linking and filling a further table keeps every table already there and extends the map by one |
| Vmem.IdentityMap | kernel/drivers/memory/vmem.c:64-122 | On a full directory every 32-bit address translates to itself |
| Vmem.Paging.GetPhysAddr | kernel/drivers/memory/vmem.c:64-122 | In terms of the words in memory: zero if the directory's or the table's is zero, else the sum of page and offset; a panic only without a directory |
| Vmem.Paging.Init | kernel/drivers/memory/vmem.c:159-187 | Succeeds exactly when 1025 pages can be taken; every address then has a directory word and a table word with flags 7, the latter for its own page, so it translates to itself, and pages in use before keep their bytes |
| Slab.ScanSucceeds | kernel/libc/malloc.c:154-170 | While an entry is free the circular scan finds one, so the last panic is unreachable, and no free entry lies cyclically between the scan start and the one found |
| Slab.ReleaseThenTake | kernel/libc/malloc.c:186-191 | The next allocation from a slab returns the entry just released and undoes the release |
| SlabHeap.AddrUnique | kernel/libc/malloc.c:103-112 | No two entries of the seven slabs share an address |
| SlabHeap.InOwnPage | kernel/libc/malloc.c:103-112 | A block lies in the page it was cut from exactly when it is not the last of that page, which starts at the page's end |
| SlabHeap.ShareExact | kernel/libc/malloc.c:103-112 | Two different blocks share bytes if and only if one is the last of its page and the other lies in the page that follows, before the first one's end |
| SlabHeap.OneClassApart | kernel/libc/malloc.c:103-112 | Two blocks of one size class never share bytes |
| SlabHeap.InHeapExact | kernel/libc/malloc.c:103-112 | All bytes of a block lie in pages of the heap if and only if it is not the last of its page or the heap owns the next page too |
| SlabHeap.BytesApartExact | kernel/libc/malloc.c:121-212 | In every reachable state all live blocks are apart if and only if no two live blocks are so placed |
| SlabHeap.LiveBlocksOverlap | kernel/libc/malloc.c:103-112 | malloc(4096) and then malloc(64) on consecutive pages leave two live blocks that share bytes |
| SlabHeap.MallocApart | kernel/libc/malloc.c:121-172 | malloc hands out a block that was not live, leaves every live block live at its address, and says exactly with which of them the new block shares bytes |
| SlabHeap.FreeApart | kernel/libc/malloc.c:196-212 | free ends the life of its block and of no other |
| SlabHeap.FreeThenMalloc | kernel/libc/malloc.c:154-192 | The next malloc of the size class returns the block just freed |
| SlabHeap.LiveBound | kernel/libc/malloc.c:75-101 | In every reachable state a class has at most min(1000, 100 * 4096 / size) live blocks |
| SlabHeap.MallocServes | kernel/libc/malloc.c:121-172 | malloc hands out the first free entry from the scan start on, or, when none is free, the first of those cut from the new page, marks it alone and makes it the scan start |
| SlabHeap.FreshOrder | kernel/libc/malloc.c:103-171 | On a fresh class without frees the n-th malloc returns entry n - 1, until after 100, 200, 400, 800 or 1000 of them the class is exhausted |
| SlabHeap.ServesWhen | kernel/libc/malloc.c:75-112 | In numbers, when an allocation from a class succeeds and which address an entry has |
| Malloc.Store.AllocNewPageIfNeeded | kernel/libc/malloc.c:68-119 | Grows the slab by one page exactly when nothing is free and it can grow, and keeps counts, scan start and addresses in step; it panics exactly when growing finds no page or the next page leaves less than a page of room below 4 GiB above its entries |
| Malloc.Store.TakeEntry | kernel/libc/malloc.c:154-171 | The scan hands out the entry such that no free one lies cyclically between the scan start and it, and marks exactly it |
| Malloc.Store.FreePtrSlab | kernel/libc/malloc.c:177-194 | Releases the entry with that address, or reports that the slab has none; the count stays in step exactly when the entry was in use |
| Malloc.KernelHeap.Malloc | kernel/libc/malloc.c:121-172 | Serves the smallest fitting class with the first free entry from the scan start on, or the first of a new page, and writes to the record table only; it panics exactly for a size over 4096, an exhausted class, or a class that must grow when no page can be taken or the next one lies too close to 4 GiB |
| Malloc.KernelHeap.Free | kernel/libc/malloc.c:196-212 | Panics exactly when no entry has the address; of a live block's address it releases that block; the structures stay in step exactly when the entry released was live |
| Vga.OffsetRoundTrip | kernel/drivers/video/vga.c:20-46 | Rows and columns survive the trip through offsets and back |
| Vga.PutShows | kernel/drivers/video/vga.c:90-141 | A character printed at the cursor, with wrapping, newline or scrolling, keeps the screen a 25-row window over the tape |
| Vga.Screen.PrintChar | kernel/drivers/video/vga.c:90-141 | Every cell and the cursor afterwards in numbers: the character at its place, a newline to the start of the next row, and past the last cell a scroll by one row; out-of-range cells change nothing |
| Vga.Screen.PrintScreen | kernel/drivers/video/vga.c:156-171 | Printing any string leaves video memory a window over the tape extended by that string |
| Vga.Screen.ClearScreen | kernel/drivers/video/vga.c:143-153 | All rows but the last are blank and the last is zeroed |
| Stdio.IoBuffer.Pop | kernel/libc/stdio.c:86-99 | The oldest pending byte, or zero when there is none |
| Stdio.IoBuffer.FlushToScreen | kernel/libc/stdio.c:76-84 | Everything pending reaches the screen in order and nothing is left |
| Stdio.IoBuffer.Place | kernel/libc/stdio.c:12-74 | Screen output followed by the buffer grows by exactly the message and no page but the buffer's changes; the screen is written only when 4095 bytes are pending and another comes, so what is left pending is given exactly; it succeeds exactly when the buffer has or can take its page, and autoflushes or has room for the message |
| Kernel.Machine.PrintIdle | kernel/libc/stdio.c:12-74 | Output before and between the steps of booting keeps what has been initialised so far |
| Kernel.Machine.Boot | kernel/kernel_main.c:67-101 | With standard output already in use or not, and anything printed in between, initialising paging, the file system, processes and the scheduler gives a machine whose components own different pages, all in step with one memory, and a disk laid out as formatted with the boot record in sector 0; with an autoflushing output it succeeds exactly on a valid boot record and 2051 pages to take, one more if nothing was printed before |
| Kernel.Machine.Malloc | kernel/libc/malloc.c:121-172 | malloc succeeds, and returns the address it does, exactly as the heap alone; every component keeps its state and its pages their bytes |
| Kernel.Machine.Free | kernel/libc/malloc.c:196-212 | free panics exactly when no entry has the address, releases the block itself when it is live, and keeps the machine in step exactly then |
| Kernel.Machine.WriteFile | kernel/fs/ramdisk_fat16.c:373-482 | A file write changes the volume as the value model says, no other byte of the disk than FileWrite may, in particular none of the boot sector, and no byte of a page of another component |
| Kernel.Machine.ReadFile | kernel/fs/ramdisk_fat16.c:332-369 | A file read returns what the value model says and changes no byte of memory but its buffer |
| Kernel.Machine.Print | kernel/libc/stdio.c:12-74 | Output succeeds exactly as for the buffer alone and changes no byte of a page of another component |
| Kernel.Machine.Flush | kernel/libc/stdlib.c:41-44 | Flushing sends everything pending to the screen and keeps everything else |
| Kernel.Machine.StartProgram | kernel/drivers/process/process.c:123-179 | The least free pid is scheduled, on a page that starts with the head sector of the file the name finds, exactly when there are a file, a pid and a page; every other component keeps its state and its pages their bytes |
| Kernel.Machine.OtherProgramStarts | kernel/fs/ramdisk_fat16.c:321-324 | On a formatted volume, after "A" has been written, starting "B" runs what was written as "A" |
| Kernel.Machine.Tick | kernel/kernel_main.c:106-116 | A scheduler update keeps everything else |
| Kernel.Machine.Translated | kernel/drivers/memory/vmem.c:64-122 | In every state reached by these calls every address still translates to itself |
| Kernel.Machine.FillExact | kernel/libc/malloc.c:103-112 | Every way of filling a block leaves the pages of the other components as they are if and only if it is not the last of its page or the next page is not theirs |
| Kernel.Machine.FillBlock | kernel/libc/malloc.c:103-112 | Filling such a block keeps the whole machine in step |
| Kernel.Machine.ProgramUnderBlock | kernel/libc/malloc.c:103-112 | When the next two pages are free, malloc(4096) returns the address of the page the next program is loaded into |

## Left out

- A program's page past its first sector: it keeps what the page held, about which nothing is said.
- Port I/O, serial, interrupt controllers, timers, segment tables, boot and user-mode assembly: hardware plumbing; the hardware cursor is a field of the screen.
- `printf`, debug messages, the shell, the keyboard tables and `ramdisk_fat16_list_info`: they only format or display.
- Interrupt concurrency: every call is an atomic step, as handlers run to completion with interrupts off.
- `process_kill`, sleeping and zombie states, system calls and paging of user processes: unimplemented in the source.
- Buffers that overlap the ramdisk's own pages: the data of a transfer is an array apart from physical memory or a page outside the disk, and video memory is an array of its own.
- Standard input: a second buffer of the kind modelled here, filled by the keyboard driver.
- Memory-map entries are a sequence; their byte layout and a partial last entry are not modelled, and the high words of addresses and lengths are ignored as in the source.
- Sched.Scheduler.AddPid: the check that the process exists is made by Process.ProcessTable.SchedAddPid, which calls it.
- A pointer past the last whole page of the page area: `pmem_free` then clears the byte after the record table, as modelled, but nothing is claimed about who owns that byte.
