# LySystem: a verified model of the kernel

A Dafny model of the stateful core of a small x86-64 kernel, with proofs about it.
In every part a low-level representation (bits, table frames, linked headers,
sectors) is shown to agree with a simple abstract object, and what the code
promises is proved about that object for every input and every run.

Check it with `dafny verify dfyconfig.toml`.

## Parts

* **Memory.** `Pmm` is the frame allocator, a bitmap with a running count, whose
  abstract value is a set of used blocks. `PageTables`, `Mapping`, `KernelMap` and
  `Paging` build the four-level tables (section 4.5 of the Intel 64 and IA-32
  Architectures Software Developer's Manual, Volume 3A) out of its frames.
  `HeapList`, `HeapLaws`, `HeapLinks` and `Heap` are the first-fit heap, a list of
  blocks behind linked headers. `HeapPages` and `Boot` put the three layers together
  in the order of the kernel's start-up. `BootInfo` and `Mbi` read the memory map
  (section 3.6.8 of the Multiboot2 Specification version 2.0), and `BootImage` lays out
  tags as that specification says and shows that the kernel reads them back.
* **Scheduler.** `TaskModel` gives each kernel call as a step on the task table, the
  counters and the heap that holds the stacks; `TaskInvariant` and `TaskRuns` prove
  the run invariant, stack ownership and bounded waiting, `TaskStarvation` for which
  tasks the bound holds, and `TaskStack` where a fork writes. `TaskSleep` says how long
  a sleep lasts, `TaskKill` how a task dies, and `TaskRecords` what records say and whom
  a pass picks; `TaskTable` is the table updated in place.
* **File system.** `Sectors`, `Directory` and `Inodes` read and write the fields of
  512-byte sectors; `MinixModel` gives each operation as a function from the disk
  before to the disk after and a code; `Minix` runs them with sector buffers and
  loops. `MinixInvariant` and `MinixKeeps` prove what operations keep, `MinixPaths`,
  `MinixFiles`, `MinixNames`, `MinixMoves` and `MinixTree` what callers see,
  `MinixMarks`, `MinixReuse` and `MinixReuseDirs` when an inode number is handed out
  twice, `MinixRuns` puts all operations into runs, `MinixIsolation` says which calls and
  runs leave a file alone, and `MinixImage` says where data lands on a disk in
  any state and gives an empty file system to start from.
* **Helpers.** `Strings` (the tokenizer with its static cursor, and the string
  functions that paths need), `Itoa` (number printing), `Bmp` (the picture writer and
  reader) and `BmpFormats` (every format that the reader takes), `Bits` (bitmaps),
  `Machine` (constants).

## Where the code departs from what it seems to mean

The model follows the code. Where a property fails, a lemma says exactly when.

* The boot information is parsed after the allocator is built, and frees the reserved
  blocks again: `Pmm.ReservationsUndone`.
* A kernel start that is not page-aligned can leave the last kernel page unreserved:
  `Pmm.KernelPagesReserved`.
* The allocator returns 0 for "none" and for block 0, and the loop around it spins
  when nothing above the kernel is free: `Pmm.AllocUnambiguous`, `Pmm.SafeAllocSpins`.
* A framebuffer from 2 GiB on wraps onto the low identity map: `KernelMap.LowIdentity`.
* The framebuffer's pages are counted from its first byte, not from the start of its first
  page, and its size is a 32-bit product. One that does not start on a page can leave its
  last bytes unmapped: `KernelMap.FramebufferByte` says which bytes are mapped. The heap
  hides physical addresses from 0x50000000 on at the kernel offset:
  `Boot.HeapHidesFramebuffer`.
* Rounding an allocation size wraps near 2^64: `HeapLaws.RoundMeans`.
* A failed stack allocation leaves a waiting slot that is not counted, and idle
  sleeping 20 ms or more leaves slot 0 asleep: `TaskInvariant.PlaceFails`,
  `TaskInvariant.IdleSleeps`, and both in `TaskInvariant.StepKeepsExactly`. When nothing
  else can run, idle is woken before its time: `TaskRecords.IdleWoken`.
* A sleep counts passes and not time, and of less than 20 ms it is the one pass of the
  call: `TaskSleep.SleepLength`.
* A fork by idle makes a child with idle's priority, 0, and writes the words that start
  it outside the child's stack: `TaskStack.IdlePushesStray`. The scheduler's runs count
  such a fork as keeping the table and not as allowed. Waiting is bounded exactly for
  priority 1: `TaskStarvation.BoundedExactly`; `TaskStarvation.IdleForkStarves` is about
  the child, as far as slot, count and stack block go.
* The loops over the memory map end only if tags and entries advance:
  `BootInfo.WalkEndsExactly`, `BootInfo.StopsExactly`.
* Clearing an inode clears the mode of the next one: `Inodes.WipeOthers`. Paths that
  pass that one are lost, which `MinixNames.CreateFileFinds` states exactly, and
  `MinixReuseDirs.RmdirRun` is a run in which that happens.
* The delete paths clear bit n of the inode bitmap where allocation set bit n - 1:
  `MinixNames.DeleteFileDrops`. An inode in use can therefore be handed out again and
  wiped: `MinixReuse.DeleteOffersNext` says exactly when, `MinixReuse.CreateWipes` what
  follows, and `MinixReuse.ReuseRun` is such a run. `MinixReuse.CallMarksExactly` gives
  the calls that do not lead there, and `MinixMarks.CreateIsolated` what then holds for
  other files. Zones stay exclusive in any case.
* Removing a directory drops the first entry with its inode number, which need not
  be the one named: `MinixNames.DeleteDirFinds`, and `MinixReuseDirs.RmdirRun` again.
* Copying a file that has a size and no zone copies an uninitialized buffer:
  `MinixMoves.CopyReadsExactly`. No allowed run makes such a file: `MinixRuns.RunBacked`.
* Copying returns -1 and keeps the new, empty file when no zone is free, for an empty
  source too: `MinixMoves.CopyFileReturns`, `MinixMoves.CopyFileLeaves`.
* Renaming into another, full directory drops the entry: `MinixMoves.RenameReturns`.
  Making a directory in a full one leaves it behind without a name:
  `MinixIsolation.CreateDirLeaves`.
* Writing and deleting do not check what their target is: `MinixKeeps.WriteFileKeeps`,
  `MinixKeeps.DeleteFileKeeps`. `MinixImage.RootLost` has runs in which the root's own
  inode is removed, or its sector overwritten, through its entry "/.".

## What the file-system theorems assume of the disk

The invariant `MinixInvariant.Inv` is assumed of the initial disk and then proved of
every run: zones below 219 are marked used, zone fields of inodes name marked data
zones and no zone twice, inode 1 is a directory in zone 219, and directories have
well-formed entries. `MinixImage.FreshDiskGood` shows a disk that meets it, with "."
and ".." in the root as in the repository's `disk.img`. That file itself does not meet
it when its sectors are read the way the code reads them: its records are 64 bytes
apart with 32-bit zone numbers, and sector 3 marks zone 0 alone.
`MinixImage.WriteLands` and `MinixImage.CreateDirLands` say, for a disk in any state,
exactly when new data stays clear of the metadata, and `MinixImage.WriteOverBitmap`
that on such a disk the first write lands on the inode bitmap.


## Model

| member | source | states |
|---|---|---|
| `Bits.SetBitEffect` | kernel/mem/pmm.c:22-23 | or-ing `1 << (n % 8)` into byte `n / 8` sets bit `n` of the bitmap and leaves every other bit as it was |
| `Bits.ClearBitEffect` | kernel/mem/pmm.c:32-33 | and-ing with the complement clears bit `n` and leaves every other bit as it was |
| `Bits.FullByteBits` | kernel/fs/minix/inode.c:40-42 | a byte is 0xFF exactly if its eight bits of the bitmap are all set, so skipping it skips no free entry |
| `Bits.TestMeans` | kernel/mem/pmm.c:22-33 | bit k of a number is the last binary digit of its quotient by 2^k: what the bit laws and the flags of page entries rest on |
| `BootInfo.StopsExactly` | kernel/mem/pmm.c:61 | the 64-bit stepping loop over one memory-map entry reaches its end condition exactly under the stated size condition; otherwise no number of 4 KiB steps reaches it |
| `BootInfo.StepZeroExactly` | kernel/mem/pmm.c:50 | the 32-bit rounding makes a tag's step 0 exactly for size 0 and for sizes above 2^32 - 8 |
| `BootInfo.EntriesAdvanceExactly` | kernel/mem/pmm.c:56-58 | the entry loop of a memory-map tag ends if and only if it has no entries or their size is not 0 |
| `BootInfo.WalkEndsExactly` | kernel/mem/pmm.c:48-58 | the tag loop with its entry loops ends after finitely many iterations if and only if every visited tag advances: a visited tag with step 0 is visited for ever |
| `BootInfo.SizesEnd` | kernel/mem/pmm.c:48-58 | when visited tags have sizes from 8 to 2^32 - 8 and entries a size above 0, the walk ends |
| `BootImage.EntryReadsBack` | include/LySys/mbi.h:10-15 | whatever base address, length and type a loader stores in an entry, at least 20 bytes long, is what the kernel reads |
| `BootImage.FramebufferReadsBack` | include/LySys/mbi.h:25-38 | address, pitch, width, height and depth of a framebuffer tag are read from where a loader stores them |
| `BootImage.TagReadsBack` | kernel/mem/pmm.c:48-56 | a tag's type and size read back, and the step leads past its content and padding to the next one |
| `BootImage.ImageReadsBack` | kernel/mbi.c:11-51 | for any list of tags laid out as the Multiboot2 specification says, both walks end and find exactly the memory-map entries in order and the last framebuffer |
| `Pmm.FrameAllocator.MarkUsed` | kernel/mem/pmm.c:18-26 | the block of the address joins the used set, blocks from 65536 on are ignored, and the running count stays the number of set bits |
| `Pmm.FrameAllocator.MarkFree` | kernel/mem/pmm.c:28-36 | the block leaves the used set; the running count stays the number of set bits |
| `Pmm.FrameAllocator.AllocBlock` | kernel/mem/pmm.c:85-96 | lowest-first: the lowest free block becomes used and its address is returned; 0 and no change when every block is used |
| `Pmm.FrameAllocator.FreeBlock` | kernel/mem/pmm.c:98-100 | freeing takes exactly that block out of the used set |
| `Pmm.FrameAllocator.FreeRange` | kernel/mem/pmm.c:60-66 | the 4 KiB stepping over one available entry frees exactly the blocks that its addresses below the limit hit |
| `Pmm.FrameAllocator.FreeAvailable` | kernel/mem/pmm.c:48-69 | on memory maps where the loops end, the tag walk frees exactly the blocks hit by available entries below the limit |
| `Pmm.FrameAllocator.ReserveRange` | kernel/mem/pmm.c:74-80 | a reservation loop marks exactly the blocks that its steps hit |
| `Pmm.FrameAllocator.Init` | kernel/mem/pmm.c:38-83 | the used set after start-up, from the memory map, the kernel range, the first MiB and the boot information |
| `Pmm.FrameAllocator.SafeAlloc` | kernel/mem/paging.c:20-27 | when a block above the kernel end is free the loop ends, returns the lowest such block, and leaves every block up to and including it used |
| `Pmm.SafeAllocSpins` | kernel/mem/paging.c:23-25 | when no block above the kernel end is free, no number of allocations returns an address above it: the loop never ends |
| `Pmm.AllocUnambiguous` | kernel/mem/pmm.c:89-95 | once every block up to the kernel end is used, 0 means "none" and any other result lies above the kernel |
| `Pmm.FreeAfterSafeAlloc` | kernel/mem/paging.c:20-27 | each safe allocation takes one block from those free above the kernel, and later ones take no other |
| `Pmm.UsedAfterInitMeans` | kernel/mem/pmm.c:38-83 | after start-up a block is used exactly if no entry of type 1 hits it, or the kernel loop hits it, or it is in the first MiB, or it holds the boot information |
| `Pmm.HitsExactly` | kernel/mem/pmm.c:60-66 | an entry hits a page exactly if its end does not wrap at 64 bits and one of the addresses 4 KiB apart, from its first to before its end, lies in the page |
| `Pmm.StepsExactly` | kernel/mem/pmm.c:74-80 | a reservation loop hits a page exactly if one of its addresses lies in it |
| `Pmm.KernelPagesReserved` | kernel/mem/pmm.c:74-76 | every page of the kernel image is reserved if and only if the stated alignment condition on start and end holds: an unaligned start can leave the last page out |
| `Pmm.ReservationsUndone` | init/init.c:32-33 | after the second walk over the same map the reservations no longer matter: what is used is exactly what no available entry hits |
| `Mbi.BootParser.Parse` | kernel/mbi.c:11-51 | frees exactly the blocks hit by available entries, reserved or not, and keeps the last framebuffer tag's fields |
| `PageTables.PageKeyIsIndices` | kernel/mem/paging.c:30-35 | the page number of an address is the base-512 number made of its four table indices |
| `PageTables.SameKey` | kernel/mem/paging.c:30-35 | two addresses agree on bits 12 to 47 exactly if all four indices agree |
| `PageTables.WalkByKey` | kernel/mem/paging.c:29-54 | a four-level walk depends on bits 12 to 47 alone |
| `PageTables.TableAtTree` | kernel/mem/paging.c:38-50 | following entries from the root reaches the table recorded for that index path, and nothing when there is none: no frame is reached by two paths |
| `PageTables.AddTable` | kernel/mem/paging.c:39-46 | hanging a zeroed fresh frame under an absent entry keeps the tree and changes no walk |
| `PageTables.SetLeaf` | kernel/mem/paging.c:52 | writing a last-level entry changes the walk of addresses with the same bits 12 to 47 and no other |
| `Mapping.NewTableConsistent` | kernel/mem/paging.c:39-46 | after a new table every table frame is used, above the kernel and named once |
| `Mapping.DescendNew` | kernel/mem/paging.c:38-46 | one step down through an absent entry keeps the tables a tree that extends the one before |
| `Mapping.MapsPage` | kernel/mem/paging.c:29-54 | three steps down and one leaf write make a map update |
| `Mapping.LeafBits` | kernel/mem/paging.c:52 | the leaf entry names the frame of the physical address, and each of its low twelve bits is set exactly if it is the present bit or set in the flags |
| `Mapping.EveryLevelWritable` | kernel/mem/paging.c:44-52 | if leaf entries have present and write bit and no other flag, so has every entry that the walk of a mapped address reads, in all four tables |
| `Paging.AddressSpace.Zero` | kernel/mem/paging.c:43 | the clearing loop zeroes the one frame |
| `Paging.AddressSpace.AddMissing` | kernel/mem/paging.c:39-46 | allocation, clearing and linking of a table: the frame is the lowest free one above the kernel and was in no table |
| `Paging.AddressSpace.Descend` | kernel/mem/paging.c:38-49 | one loop iteration arrives at the table of the next level, made if it was missing |
| `Paging.AddressSpace.MapPage` | kernel/mem/paging.c:29-54 | afterwards the walk of `v` gives an entry with the physical page and, bit for bit, the flags and the present bit; every address that differs in bits 12 to 47 walks as before, tables stay a tree of fresh frames, and only frames above the kernel are taken |
| `Paging.AddressSpace.MapDirect` | kernel/mem/paging.c:62-64 | after the first loop exactly the 512 MiB at the kernel offset are mapped, each page to its own |
| `Paging.AddressSpace.MapLow` | kernel/mem/paging.c:66-68 | the second loop adds the low 16 MiB, and the address space is exactly these two maps |
| `Paging.AddressSpace.MapFramebuffer` | kernel/mem/paging.c:70-81 | the third loop maps every page of a framebuffer below 2^47, at its own address and at the kernel offset, and changes nothing else |
| `Paging.AddressSpace.Init` | kernel/mem/paging.c:56-81 | with one free frame for each table the whole construction succeeds; what every virtual address is mapped to is given for any framebuffer below 2^47, and every mapped page is writable |
| `KernelMap.FbStep` | kernel/mem/paging.c:74-80 | the two mappings of a framebuffer page change two keys of the whole address space: its own, and the one at the kernel offset, which wraps onto a low page from 2 GiB on |
| `KernelMap.DirectMapClosed` | kernel/mem/paging.c:62-64 | in the finished address space every p below 512 MiB is what the kernel offset plus p leads to, for any framebuffer below 2^47, so every table frame stays reachable |
| `KernelMap.LowIdentity` | kernel/mem/paging.c:66-81 | in the finished address space an address below 16 MiB maps to itself if and only if the framebuffer does not cover the same offset from 2 GiB, and then it maps there |
| `KernelMap.FramebufferByte` | kernel/mem/paging.c:70-77 | for any pitch and height, a physical byte from the framebuffer's first on is mapped to itself if and only if it lies within the product of pitch and height, in 32 bits and rounded up to pages, counted from the start of the first page, or below 16 MiB, and no wrapped page replaces it |
| `KernelMap.FramebufferHighByte` | kernel/mem/paging.c:79 | at the kernel offset plus its address it is mapped if and only if it lies within that, or below 512 MiB |
| `KernelMap.FramebufferCut` | kernel/mem/paging.c:71-77 | a framebuffer of one page that starts in the middle of a page is mapped in its first half alone |
| `KernelMap.FramebufferWhole` | kernel/mem/paging.c:70-81 | a framebuffer that starts on a page and has pitch times height at most 2 GiB is mapped whole, at both places |
| `KernelMap.BudgetSize` | kernel/mem/paging.c:56-81 | the construction needs at most 269 table frames and six for each framebuffer page |
| `HeapList.TilesOrder` | kernel/mem/heap.c:28-72 | blocks lie one after the other between the heap's ends |
| `HeapList.PayloadsDisjoint` | kernel/mem/heap.c:28-53 | no address lies in two different blocks |
| `HeapList.CoalesceKeeps` | kernel/mem/heap.c:62-71 | the sweep keeps the tiling and the allocated blocks, and leaves no two adjacent free blocks |
| `HeapList.AllocKeeps` | kernel/mem/heap.c:28-53 | allocation keeps the tiling, adds one allocated block of at least the request and at most 56 bytes more, and leaves the other allocated blocks alone; on failure nothing changes |
| `HeapList.AllocMerged` | kernel/mem/heap.c:34-47 | first-fit with splitting never makes two adjacent free blocks |
| `HeapList.FreeKeeps` | kernel/mem/heap.c:55-72 | freeing takes exactly the one block out of the allocated set, keeps the tiling and merges |
| `HeapList.Canonical` | kernel/mem/heap.c:28-72 | two merged lists over the same range with the same allocated blocks are equal |
| `HeapLaws.FreeUndoesAlloc` | kernel/mem/heap.c:28-72 | freeing what was just allocated restores the list exactly |
| `HeapLaws.FreeOrder` | kernel/mem/heap.c:55-72 | freeing the same blocks in any two orders gives the same list |
| `HeapLaws.FreeEverything` | kernel/mem/heap.c:55-72 | freeing all allocated blocks gives back the single initial block |
| `HeapLaws.AllocFailsExactly` | kernel/mem/heap.c:33-53 | allocation returns NULL exactly if no gap between allocated blocks holds a header and the rounded request |
| `HeapLaws.AllocFirstFit` | kernel/mem/heap.c:33-52 | the block handed out is made of the lowest free block that is large enough: cut to the rounded request if more than 56 bytes are left over, whole otherwise |
| `HeapLaws.RoundMeans` | kernel/mem/heap.c:29 | rounding goes up to a multiple of 16, and wraps to 0 for sizes above 2^64 - 16 |
| `HeapLaws.AllocAligned` | kernel/mem/heap.c:28-53 | allocation keeps block sizes multiples of 8 |
| `HeapLaws.CoalesceAligned` | kernel/mem/heap.c:62-71 | merging keeps block sizes multiples of 8 |
| `HeapLaws.FreeAligned` | kernel/mem/heap.c:55-72 | freeing keeps block sizes multiples of 8 |
| `HeapLaws.AlignedAddresses` | include/LySys/heap.h:10-15 | in an aligned list over an aligned heap every payload address is a multiple of 8 |
| `HeapLaws.TilesTotal` | kernel/mem/heap.c:28-72 | header plus payload sizes always add up to the heap size |
| `HeapLinks.TakenLinks` | kernel/mem/heap.c:34-47 | the header writes of a split or a whole take give the headers of the new list |
| `HeapLinks.MergeLinks` | kernel/mem/heap.c:64-68 | the header writes of one merge give the headers of the shorter list |
| `Heap.KernelHeap.Format` | kernel/mem/heap.c:21-25 | one free block over the whole heap |
| `Heap.KernelHeap.Kmalloc` | kernel/mem/heap.c:28-53 | the loop over linked headers is first-fit allocation on the block list, and returns the payload address or NULL; a multiple of 8 when the heap's ends are |
| `Heap.KernelHeap.Kfree` | kernel/mem/heap.c:55-72 | for any pointer, marking and the sweep are the free of the block list: NULL and pointers without the magic number in front are ignored, and a header that was merged away frees nothing |
| `Heap.KernelHeap.Sweep` | kernel/mem/heap.c:62-71 | one pass over the links merges every run of free blocks; before heap_init there is nothing to pass |
| `HeapPages.PageStepFrames` | kernel/mem/heap.c:12-19 | one more heap page: its frame is new, in no page table, and no earlier page loses its own |
| `HeapPages.AddressBacked` | kernel/mem/heap.c:12-19 | every address of the heap is mapped, to one of these frames |
| `Boot.HeapInit` | kernel/mem/heap.c:8-26 | if it completes, every address of the heap is mapped, and heap pages map to pairwise different used frames above the kernel, none of them a table frame or used before; pages stay writable; it completes when there is enough memory, and otherwise leaves nothing free above the kernel |
| `Boot.PageCountMeans` | kernel/mem/heap.c:9-12 | the rounded bounds of the page loop give one page for each that the range touches |
| `Boot.MapHeapPage` | kernel/mem/heap.c:12-19 | one iteration maps the page to a fresh frame, or changes nothing because nothing is free above the kernel |
| `Boot.FreshPage` | kernel/mem/heap.c:13-15 | a plain allocation returns 0 only if nothing above the kernel is free |
| `Boot.StartMemory` | init/init.c:32-37 | given one frame for each table and each heap page, after the memory part of the start-up the heap is one free block of 10 MiB, its frames are exclusive across allocator, tables and kernel, every mapped page is writable, and outside the heap every address is mapped as `Paging.AddressSpace.Init` leaves it, a framebuffer below 2^47 included |
| `Boot.HeapFits` | kernel/mem/heap.c:12-19 | the free frames suffice for the heap's page loop if and only if they number the tables of the whole construction and one for each heap page |
| `Boot.FramesBound` | init/init.c:34-37 | that is at most 2836 frames and six for each framebuffer page |
| `Boot.LowOutsideHeap` | init/init.c:37 | after the start-up every address below 2^47 is mapped as before the heap, and the low map to itself but for the framebuffer |
| `Boot.DirectOutsideHeap` | init/init.c:37 | after the start-up the direct map still leads to every p below 512 MiB |
| `Boot.FramebufferAfterStart` | init/init.c:34-37 | after the start-up each byte of a framebuffer that starts on a page, within pitch times height of at most 2 GiB, is mapped to itself, and at the kernel offset except where the heap lies |
| `Boot.HighOutsideHeap` | include/LySys/heap.h:6-7 | the kernel offset plus a lies in the heap exactly if a is one of the 10 MiB from 0x50000000 on |
| `Boot.HeapHidesFramebuffer` | init/init.c:37 | there the heap has replaced what was mapped: no such address leads to a any more |
| `TaskTable.Scheduler.Init` | kernel/sched/task.c:14-27 | slot 0 is running with pid, parent, priority and stack 0 and the name kernel_idle, all others are zeroed, one task; the run invariant holds |
| `TaskTable.Scheduler.CreateTask` | kernel/sched/task.c:32-72 | is the model's create on the abstract state, error returns included |
| `TaskTable.Scheduler.TaskFork` | kernel/sched/task.c:74-127 | is the model's fork: slot, count, priority, name and stack block |
| `TaskTable.Scheduler.ReapAll` | kernel/sched/task.c:137-156 | the first loop frees every zombie's stack once and counts the sleepers down |
| `TaskTable.Scheduler.PickNext` | kernel/sched/task.c:158-177 | the two scans find the highest waiting priority and the first such slot after the current one |
| `TaskTable.Scheduler.Schedule` | kernel/sched/task.c:134-197 | is the model's pass on the abstract state; nothing happens before the scheduler is started |
| `TaskTable.Scheduler.Msleep` | kernel/IRQ/timer.c:11-21 | is the model's sleep step |
| `TaskTable.Scheduler.ExitTask` | kernel/sched/task.c:207-224 | refuses slot 0; any other task is switched away from before its busy loop |
| `TaskTable.Scheduler.KillTask` | kernel/sched/task.c:226-248 | is the model's kill, error returns included |
| `TaskInvariant.InitialInv` | kernel/sched/task.c:14-27 | the initial state meets the run invariant |
| `TaskInvariant.PickMeans` | kernel/sched/task.c:158-177 | the pick is the waiting task of highest priority at the least cyclic distance, and none exactly if none waits |
| `TaskInvariant.NoFallback` | kernel/sched/task.c:179-182 | under the invariant no pick means that idle runs: the fall back to 0 is never taken |
| `TaskInvariant.ReapMemory` | kernel/sched/task.c:138-146 | reaping one zombie leaves every other task's stack a live block of its own |
| `TaskInvariant.ScheduleKeeps` | kernel/sched/task.c:134-197 | a pass keeps: slot 0 running or waiting, any running slot current, count of non-empty slots, one live stack each |
| `TaskInvariant.ExitSwitches` | kernel/sched/task.c:207-222 | exit leaves the exiting slot empty, and another task current |
| `TaskInvariant.PlaceFails` | kernel/sched/task.c:51-52 | a failed stack allocation leaves a slot that breaks the invariant |
| `TaskInvariant.IdleNaps` | kernel/IRQ/timer.c:11-21 | idle sleeping for less than 20 ms keeps the invariant |
| `TaskInvariant.IdleSleeps` | kernel/IRQ/timer.c:11-21 | idle sleeping for 20 ms or more breaks the invariant: slot 0 is still asleep after the pass |
| `TaskInvariant.KillKeeps` | kernel/sched/task.c:226-248 | kill keeps the invariant for every pid |
| `TaskKill.KillReturns` | kernel/sched/task.c:226-248 | each of the three codes by its exact condition; a refused kill changes nothing, and one of a task that is not current makes that slot a zombie with exit code -1 and changes nothing else |
| `TaskKill.PassReaps` | kernel/sched/task.c:137-147 | a pass zeroes a zombie's slot, releases its stack, takes the number of all zombies off the count, and does not pick it |
| `TaskKill.ReapStacks` | kernel/sched/task.c:138-146 | of all the stacks, reaping releases exactly those of zombies |
| `TaskKill.KilledDies` | kernel/sched/task.c:226-248 | a killed task that is not current never becomes current again: whatever is called, it is a zombie until the next pass, which zeroes its slot and releases its stack |
| `TaskKill.KillsItself` | kernel/sched/task.c:239-241 | a task that kills itself is gone, with its stack, when the call has switched away |
| `TaskRecords.CreateReturns` | kernel/sched/task.c:32-72 | each code of create by its exact condition; the pid is the lowest empty slot, which records it, the given parent, the name cut to 31 characters, priority 1 and the new stack |
| `TaskRecords.ForkReturns` | kernel/sched/task.c:74-127 | the same for fork, with pid, name and priority of the current task |
| `TaskRecords.PidsFromBoot` | kernel/sched/task.c:48-96 | after any kept run from start-up a task's pid is its slot, so a fork records the current slot as the parent |
| `TaskRecords.PassTasks` | kernel/sched/task.c:134-197 | a pass zeroes the slots of zombies and changes nothing else of a task than its state and sleep count |
| `TaskRecords.PassPicks` | kernel/sched/task.c:134-197 | a pass leaves current, and running, the nearest of the ready tasks of highest priority, sleepers in their last pass counted as ready; the task it was taken from waits; the current one stays if none is ready |
| `TaskRecords.IdleWoken` | kernel/sched/task.c:179-182 | without the invariant: when no task is ready and the current one sleeps or died, the pass runs idle even if that is asleep |
| `TaskRecords.OthersAllocate` | kernel/mem/heap.c:28-53 | an allocation by the rest of the kernel adds a block of its own to the heap of the stacks, or changes nothing |
| `TaskInvariant.StepKeepsExactly` | kernel/sched/task.c:32-248 | any call, heap calls of other kernel code included, keeps the table invariant if and only if it has the stack it asks for, idle does not sleep for 20 ms or more, and no task's stack is freed |
| `TaskStack.PushesExactly` | kernel/sched/task.c:107-120 | the seven words of a fork lie in the child's stack if and only if the parent's stack pointer is in the parent's recorded stack with room for them below it |
| `TaskStack.ForkPushesInside` | kernel/sched/task.c:105-122 | then every byte of them is in the payload of the child's block, and in no other block or header of the heap |
| `TaskStack.IdlePushesStray` | kernel/sched/task.c:21-120 | a fork by idle, which has stack 0 recorded and runs above the first page, writes each word wholly outside the child's stack |
| `TaskInvariant.StackCount` | kernel/sched/task.c:51-72 | the scheduler's stacks are pairwise different live blocks, one fewer than the task count, and 8-aligned in an aligned heap |
| `TaskRuns.RunKeeps` | kernel/sched/task.c:32-248 | every run of calls that meet that condition keeps the invariant |
| `TaskRuns.RunFromBoot` | kernel/sched/task.c:14-248 | what that means after any such run from the initial state |
| `TaskRuns.ReapReleases` | kernel/sched/task.c:138-146 | reaping releases the stack of that slot: it is live before and not after |
| `TaskRuns.PassProgress` | kernel/sched/task.c:134-197 | each pass runs a pending task or strictly lowers its bound |
| `TaskRuns.StepPriorities` | kernel/sched/task.c:48 | no call but a fork by idle makes a task of another priority than 1 |
| `TaskStarvation.PassStarves` | kernel/sched/task.c:158-177 | beside two tasks of priority 1 that are ready, a pass never picks a waiting task of priority 0 |
| `TaskStarvation.IdleForkStarves` | kernel/sched/task.c:93-96 | wherever idle forks with room for three tasks, the child gets priority 0, and in an allowed run of any number of passes it never becomes current |
| `TaskStarvation.StartUpRoom` | kernel/sched/task.c:14-27 | a heap of one free block of 16 KiB has that room at start-up, where idle is current |
| `TaskRuns.PendingRuns` | kernel/sched/task.c:134-197 | from any state of the invariant, a waiting or sleeping task of priority 1 becomes current within its bound of passes unless killed |
| `TaskStarvation.BoundedExactly` | kernel/sched/task.c:158-177 | with room for two more tasks, a waiting or sleeping task becomes current in every allowed run with as many passes as its bound that does not kill it, if and only if its priority is 1 |
| `TaskRuns.AllowedPriorities` | kernel/sched/task.c:48-96 | after any run from start-up without a fork by idle, every task but idle has priority 1 |
| `TaskRuns.NoStarvation` | kernel/sched/task.c:134-197 | after any run from start-up every waiting or sleeping task of priority 1, and without a fork by idle every task, becomes current within its bound of passes unless killed |
| `TaskRuns.WaitingTaskRuns` | kernel/sched/task.c:170-176 | after any such run a waiting task becomes current within 127 passes unless killed |
| `TaskRuns.SleepingTaskRuns` | kernel/IRQ/timer.c:11-21 | after any such run a task that goes to sleep becomes current again within max(1, ms/10) + 127 passes unless killed |
| `TaskSleep.SleeperRun` | kernel/sched/task.c:148-154 | in every kept run that does not kill it, a sleeper sleeps and is not current through as many passes as it has left, at least one, and is awake after the last of them |
| `TaskSleep.SleepLength` | kernel/IRQ/timer.c:11-21 | a sleep of ms milliseconds lasts exactly max(1, ms / 10) passes, that of the call included |
| `Strings.CStrReadsBack` | lib/string.c:75-82 | a string followed by a 0 byte reads back as itself |
| `Strings.Strncpy` | lib/string.c:75-82 | the string cut to n bytes, or padded to n with zeros |
| `Strings.Strcmp` | lib/string.c:31-37 | returns 0 exactly if the two strings are equal, and otherwise the difference of the first bytes that differ |
| `Strings.Strrchr` | lib/string.c:84-96 | the last occurrence, or none; for 0 the end of the string |
| `Strings.LastIndexMeans` | lib/string.c:84-96 | the last position of the byte: it is there, and nowhere after |
| `Strings.SplitPieces` | lib/string.c:108-160 | pieces are non-empty and free of delimiters |
| `Strings.SplitFlatten` | lib/string.c:108-160 | the pieces hold every byte but the delimiters, in order |
| `Strings.SplitRun` | lib/string.c:137-149 | a maximal delimiter-free run is one piece |
| `Strings.Tokenizer.FindToken` | lib/string.c:117-149 | the two scanning loops find the first maximal piece at or after the cursor |
| `Strings.Tokenizer.Strtok` | lib/string.c:108-160 | one call with the static cursor returns the next piece of what is left, and overwrites at most one delimiter |
| `Strings.Tokens` | lib/string.c:108-160 | a call with the string and then calls with NULL return exactly the pieces of the original string, in order, overwriting only delimiters |
| `Itoa.TextRoundTrip` | lib/string.c:15-29 | reading the digits back in the base gives the value |
| `Itoa.DigitReadsBack` | lib/string.c:20 | digits are written as 0 to 9 and then A to Z, and read back as themselves |
| `Itoa.NoLeadingZero` | lib/string.c:18-22 | no leading zero unless the value is 0 |
| `Itoa.TextFits` | lib/string.c:15-29 | a 64-bit value takes at most 20 characters in base 10 and above |
| `Itoa.ReversedAt` | lib/string.c:3-13 | position k of the reversed text is position n - 1 - k of the text |
| `Itoa.Reverse` | lib/string.c:3-13 | the swapping loop reverses the first len bytes and nothing else |
| `Itoa.Itoa` | lib/string.c:15-29 | leaves the null-terminated digits of the value, which denote it in the base |
| `Sectors.Put32Effect` | include/LySys/fs/minix.h:21-32 | a 32-bit field reads back and its four bytes alone change |
| `Directory.InsertEntry` | kernel/fs/minix/file.c:119-126 | a new name in a free entry is found, other lookups stay, names stay different |
| `Directory.RemoveEntry` | kernel/fs/minix/file.c:180-184 | a freed entry's name is gone, other lookups stay, names stay different |
| `Directory.PutEntryEffect` | include/LySys/fs/minix.h:34-37 | writing the bytes of an entry changes that entry of the directory and no other |
| `Directory.NewDirGood` | kernel/fs/minix/file.c:312-323 | a fresh directory is well formed; "." leads to itself and ".." to the parent's first entry |
| `Inodes.WipeOthers` | kernel/fs/minix/file.c:110 | clearing a 34-byte record in a 32-byte slot zeroes the mode of the next record in the sector and touches no other field of any record |
| `Inodes.NewRecordBytes` | kernel/fs/minix/file.c:110-113 | all 32 bytes of the record that create and mkdir write |
| `Inodes.DirModeBit` | kernel/fs/minix/file.c:61 | a record is a directory exactly if bit 14 of its mode is set |
| `Inodes.FreshRecordEffect` | kernel/fs/minix/file.c:110-113 | a renewed record has the mode, size and link count given, and no zones |
| `MinixKeeps.FreeZonesEffect` | kernel/fs/minix/file.c:165-170 | the loop over the zone fields clears exactly the bits of the zones named |
| `MinixKeeps.WalkGood` | kernel/fs/minix/file.c:42-67 | a path walk that finds its way ends at a live directory |
| `MinixKeeps.CreateFileKeeps` | kernel/fs/minix/file.c:89-128 | create keeps the disk invariant, also when it runs out of space half-way |
| `MinixKeeps.CreateDirKeeps` | kernel/fs/minix/file.c:268-338 | mkdir keeps the disk invariant, also when it runs out of space half-way |
| `MinixKeeps.DeleteFileKeeps` | kernel/fs/minix/file.c:130-187 | delete keeps the disk invariant if and only if the path does not lead to the root's inode under a name other than "." and ".." |
| `MinixKeeps.DeleteDirKeeps` | kernel/fs/minix/file.c:373-418 | rmdir keeps the disk invariant if and only if it does not remove the root's inode |
| `MinixKeeps.WriteFileKeeps` | kernel/fs/minix/file.c:218-266 | write keeps the disk invariant if and only if the target is no directory or the bytes written are well-formed entries |
| `MinixKeeps.RenameFileKeeps` | kernel/fs/minix/file.c:420-460 | rename keeps the disk invariant |
| `MinixPaths.WalkKept` | kernel/fs/minix/file.c:42-67 | a walk depends only on the names it asks for and the inodes it passes |
| `MinixPaths.WalkLost` | kernel/fs/minix/file.c:58-61 | a walk past an inode that is no directory any more fails |
| `MinixPaths.WalkBlocked` | kernel/fs/minix/file.c:50-58 | a walk that asks for a removed name fails |
| `MinixPaths.FindKept` | kernel/fs/minix/file.c:70-87 | a change elsewhere leaves the lookup of a path alone |
| `MinixFiles.WriteInodeEffect` | kernel/fs/minix/file.c:228-263 | a successful write changes the inode's own data, size and first zone; every other file, record kind and data sector stays |
| `MinixFiles.WriteFileReturns` | kernel/fs/minix/file.c:218-266 | write succeeds if and only if the path leads to an inode that has a zone or some zone is free; otherwise the disk is unchanged |
| `MinixFiles.WriteThenRead` | kernel/fs/minix/file.c:189-266 | after a successful write, reading k bytes returns the smaller of k and the size, and yields the bytes written followed by zeros |
| `MinixFiles.WriteIsolated` | kernel/fs/minix/file.c:218-266 | every path leads where it did, and every file with another inode reads as before |
| `MinixNames.CreateFileMakes` | kernel/fs/minix/file.c:98-124 | a successful create makes an empty file under the name, with every byte of its record; other records, sizes, zones and data sectors stay |
| `MinixNames.CreateFileReturns` | kernel/fs/minix/file.c:89-128 | exactly when create returns each of its codes; into a full directory it fails with the inode already taken and cleared |
| `MinixNames.CreateFileFinds` | kernel/fs/minix/file.c:70-128 | where every path leads after a successful create: those that pass the new inode's number or the cleared next one nowhere, the new name to the new inode, all others where they led |
| `MinixNames.CreateDirMakes` | kernel/fs/minix/file.c:275-334 | a successful mkdir makes a directory in a zone that was free, with "." and "..", and every byte of its record |
| `MinixNames.CreateDirReturns` | kernel/fs/minix/file.c:268-338 | exactly when mkdir returns each of its codes: it needs a free inode, a free zone and a free entry |
| `MinixNames.CreateDirFinds` | kernel/fs/minix/file.c:268-338 | where paths lead after a successful mkdir, given that they did not already pass the number it takes: past the cleared next inode nowhere, the new name to the new directory, and all others that do not go through that name where they led |
| `MinixNames.DeleteFileReturns` | kernel/fs/minix/file.c:130-187 | each code of delete by its exact condition; a failing delete changes nothing |
| `MinixNames.DeleteFileDrops` | kernel/fs/minix/file.c:158-184 | a successful delete frees exactly the file's zones, clears the bitmap bit numbered like the inode (not the one below, which stands for it), and drops one name |
| `MinixNames.DeleteFileFinds` | kernel/fs/minix/file.c:130-187 | where every path leads after a successful delete: those that ask for the deleted name or pass the deleted inode or the next one nowhere, all others where they led |
| `MinixNames.DeleteDirReturns` | kernel/fs/minix/file.c:373-418 | each code of rmdir by its exact condition; a failing rmdir changes nothing |
| `MinixNames.DeleteDirDrops` | kernel/fs/minix/file.c:393-415 | a successful rmdir frees the first zone alone and drops the first entry with the inode's number |
| `MinixNames.DeleteDirFinds` | kernel/fs/minix/file.c:406-415 | where every path leads after a successful rmdir, the same way with the entry that is dropped; the removed path itself is lost if and only if that entry was its own or its walk passed the removed inode or the next one |
| `MinixMoves.RenameReturns` | kernel/fs/minix/file.c:420-460 | each code of rename by its exact condition; inside one directory it never lacks space, and into another one that is full it loses the entry |
| `MinixMoves.RenameMoves` | kernel/fs/minix/file.c:437-454 | a successful rename removes one name, makes one, keeps the multiset of inodes named by the two directories, and touches no other sector |
| `MinixMoves.RenameFinds` | kernel/fs/minix/file.c:420-460 | after a successful rename the old path leads nowhere, the new one to the inode exactly if it does not pass through the old name, and of the paths that do not ask for the new name those that ask for the old one are lost and the others stay |
| `MinixMoves.CopyReadsExactly` | kernel/fs/minix/file.c:462-478 | after a successful copy every read of the destination is the read of the source, if and only if the source has a zone or no contents |
| `MinixMoves.CopyFileReturns` | kernel/fs/minix/file.c:462-478 | each code of copy by its exact condition: it succeeds if and only if the source is found, the destination is missing from a directory with a free entry, an inode is free, the path passes neither that inode nor the next, and a zone is free |
| `MinixMoves.CopyFileLeaves` | kernel/fs/minix/file.c:462-478 | what a failing copy leaves: the old disk, a taken inode number in a full directory, or for -1 the new name, empty if it can be found |
| `MinixMoves.CopyReads` | kernel/fs/minix/file.c:462-478 | the destination's size is the source's, cut at one sector, and a read of either is the same unless the source has a size and no zone |
| `MinixMoves.CopyStale` | kernel/fs/minix/file.c:463-471 | a copy of such a source holds what the uninitialized buffer held |
| `MinixMoves.CopyFileKeeps` | kernel/fs/minix/file.c:462-478 | copy keeps the disk invariant |
| `MinixRuns.CallKeepsExactly` | kernel/fs/minix/file.c:89-478 | one call keeps the disk invariant if and only if it is allowed |
| `MinixRuns.RunKeeps` | kernel/fs/minix/file.c:89-478 | every run of allowed calls keeps the disk invariant |
| `MinixRuns.RunExclusive` | kernel/fs/minix/file.c:10-478 | after any allowed run no two zone fields name one zone, every zone named is marked used and is no metadata, and the marks of the metadata are never cleared |
| `MinixRuns.RunDirectories` | kernel/fs/minix/file.c:89-478 | after any allowed run names in a directory that a path reaches are pairwise different |
| `MinixRuns.RunReads` | kernel/fs/minix/file.c:189-266 | when files start within one sector, no run makes a read leave the sector buffer |
| `MinixRuns.RunBacked` | kernel/fs/minix/file.c:89-478 | when every file with a size has a zone, that stays so after any allowed run |
| `MinixRuns.RunCopies` | kernel/fs/minix/file.c:462-478 | so after any allowed run from such a disk a successful copy reads as its source |
| `MinixRuns.CreateAtRoot` | kernel/fs/minix/file.c:89-128 | a name created at the root is found and other names there stay |
| `MinixRuns.CreateDirAtRoot` | kernel/fs/minix/file.c:268-338 | a directory made at the root is found and other names there stay |
| `MinixRuns.DeleteAtRoot` | kernel/fs/minix/file.c:130-187 | a name deleted at the root is gone and other names there stay |
| `MinixRuns.RenameAtRoot` | kernel/fs/minix/file.c:420-460 | renaming at the root succeeds, moves the inode to the new name and keeps the multiset of inodes |
| `MinixRuns.WriteEmptiesRoot` | kernel/fs/minix/file.c:218-266 | write does not check its target's kind: zeros written to the root's own inode make every root lookup fail |
| `MinixTree.FindBelow` | kernel/fs/minix/file.c:23-87 | a name below a path is looked up in the directory that the path leads to |
| `MinixTree.NewDirEntered` | kernel/fs/minix/file.c:312-336 | after mkdir of a path, "." below it leads to the new inode and ".." to what the parent's first entry names |
| `MinixMarks.CreateFileMarks` | kernel/fs/minix/file.c:98-124 | create keeps "every inode that a live directory names is marked used", on every outcome |
| `MinixMarks.CreateDirMarks` | kernel/fs/minix/file.c:275-334 | mkdir keeps it on every outcome |
| `MinixMarks.WriteFileMarks` | kernel/fs/minix/file.c:218-266 | write keeps it if and only if the target is no directory or the entries written name marked inodes |
| `MinixMarks.RenameFileMarks` | kernel/fs/minix/file.c:420-460 | rename keeps it on every outcome |
| `MinixMarks.CopyFileMarks` | kernel/fs/minix/file.c:462-478 | copy keeps it on every outcome |
| `MinixMarks.DeleteFileMarks` | kernel/fs/minix/file.c:174-184 | delete of inode n keeps it if and only if it fails, n has no bit, or no directory that stays names n + 1 |
| `MinixMarks.DeleteDirMarks` | kernel/fs/minix/file.c:402-415 | the same for rmdir |
| `MinixMarks.FreshNumber` | kernel/fs/minix/inode.c:36-53 | while it holds, no path passes or leads to the number that allocation returns |
| `MinixMarks.CreateIsolated` | kernel/fs/minix/file.c:89-128 | while it holds, after a successful create every other path that does not pass the cleared next inode leads where it did and, unless it names the directory that got the entry, reads as before |
| `MinixMarks.CreateDirIsolated` | kernel/fs/minix/file.c:268-338 | the same for mkdir and paths that do not ask for the new name |
| `MinixReuse.DeleteOffersNext` | kernel/fs/minix/file.c:174-178 | after deleting inode n the next number handed out is n + 1, in use or not, if and only if the numbers from 3 to n are marked |
| `MinixReuse.CreateWipes` | kernel/fs/minix/file.c:98-115 | create then takes the inode of a file that is still there: it reads as empty under its old path, and the new path leads to it too |
| `MinixReuse.CallMarksExactly` | kernel/fs/minix/file.c:89-478 | one call keeps the marks if and only if it is a call that the lines above allow |
| `MinixReuse.RunMarks` | kernel/fs/minix/file.c:89-478 | after any run of such calls no path leads to the number handed out next |
| `MinixReuse.ReuseRun` | kernel/fs/minix/file.c:130-187 | make a and b, write to b, delete a, make c: b reads as empty and is the same file as c |
| `MinixReuseDirs.RmdirRun` | kernel/fs/minix/file.c:373-418 | make directories a and b and remove a: b cannot be entered any more; make c and remove b: the name b is still there and c is gone |
| `MinixIsolation.CallIsolated` | kernel/fs/minix/file.c:89-478 | any call that avoids the file's inode and the directories on its path, writes another file, or renames a name the path does not ask for, leaves the path leading to the same file and every read of it as it was |
| `MinixIsolation.NewAvoided` | kernel/fs/minix/file.c:98-110 | while the marks are right, create and mkdir avoid a path if and only if it does not pass the cleared next inode |
| `MinixIsolation.CreateDirLeaves` | kernel/fs/minix/file.c:275-336 | what a failing mkdir leaves: the old disk, a taken number when no zone is left, and in a full directory a complete new directory without a name |
| `MinixIsolation.RunStays` | kernel/fs/minix/file.c:89-478 | the same for whole runs of such calls |
| `MinixIsolation.WrittenStays` | kernel/fs/minix/file.c:189-266 | after a successful write and any allowed run that leaves the file alone, a read yields the bytes written, padded with zeros |
| `MinixImage.NextZoneExactly` | kernel/fs/minix/file.c:228-249 | on any disk, the zone handed out next is a data zone if and only if all metadata zones are marked |
| `MinixImage.WriteLands` | kernel/fs/minix/file.c:228-257 | on any disk, a file's first write puts its data at or above the root's sector if and only if all metadata zones are marked |
| `MinixImage.CreateDirLands` | kernel/fs/minix/file.c:278-325 | on any disk, the same for the sector of a new directory |
| `MinixImage.WriteOverBitmap` | kernel/fs/minix/file.c:229-257 | when the zone bitmap marks the boot block alone, the invariant fails and the first write to a file overwrites the inode bitmap |
| `MinixImage.RootLost` | kernel/fs/minix/file.c:420-460 | on an empty file system, renaming "/." and removing it under the new name are accepted and lose the root; writing zeros to "/." empties it |
| `Minix.FileSystem.FindSectorOfPathDir` | kernel/fs/minix/file.c:23-68 | the tokenizer loop over the cut path buffer is the walk over its components; it terminates |
| `Minix.FileSystem.FindEntry` | kernel/fs/minix/file.c:70-87 | the inode under the path's last component, or 0 |
| `Minix.FileSystem.AllocateInode` | kernel/fs/minix/inode.c:36-53 | takes the first clear bit whose inode number is above 2, or returns 0 |
| `Minix.FileSystem.FreeInodeNumber` | kernel/fs/minix/inode.c:55-62 | clears the bit that allocation sets |
| `Minix.FileSystem.FreeZone` | kernel/fs/minix/file.c:10-21 | clears the zone's bit; zone 0 is left alone |
| `Minix.FileSystem.CreateFile` | kernel/fs/minix/file.c:89-128 | runs to the model's disk and code |
| `Minix.FileSystem.CreateDir` | kernel/fs/minix/file.c:268-338 | runs to the model's disk and code |
| `Minix.FileSystem.DeleteFile` | kernel/fs/minix/file.c:130-187 | runs to the model's disk and code |
| `Minix.FileSystem.RemoveInode` | kernel/fs/minix/file.c:158-184 | the zone loop, the clearing, the bitmap bit and the entry, in the code's order |
| `Minix.FileSystem.DeleteDir` | kernel/fs/minix/file.c:373-418 | runs to the model's disk and code |
| `Minix.FileSystem.ReadFile` | kernel/fs/minix/file.c:189-216 | leaves in the output array and returns what the model says |
| `Minix.FileSystem.WriteFile` | kernel/fs/minix/file.c:218-266 | runs to the model's disk and code |
| `Minix.FileSystem.RenameFile` | kernel/fs/minix/file.c:420-460 | runs to the model's disk and code |
| `Minix.FileSystem.CopyFile` | kernel/fs/minix/file.c:462-478 | runs to the model's disk and code |
| `Bmp.StrideAligned` | kernel/GPU/bmp.c:39-40 | rows are padded to the next multiple of 4 bytes and by less than 4 |
| `Bmp.TargetOnce` | kernel/GPU/bmp.c:42-57 | no two stored pixels go to the same place |
| `Bmp.TargetReached` | kernel/GPU/bmp.c:42-57 | every place of the picture is written |
| `Bmp.DoneStep` | kernel/GPU/bmp.c:45-57 | one inner iteration puts one more pixel in place and disturbs none |
| `Bmp.Parse` | kernel/GPU/bmp.c:10-62 | returns no picture exactly for the rejected headers or failed allocation; else every pixel holds the colour at offset + row * stride + x * bytes per pixel, rows flipped when the height is positive |
| `Bmp.Write` | include/img/img2c.py:28-62 | emits the header and then blue, green, red, alpha of each pixel in order |
| `Bmp.HeaderRoundTrip` | include/img/img2c.py:31-45 | the reader accepts the header and finds the same width, height, depth and offset, top row first |
| `Bmp.HeaderFields` | include/img/img2c.py:31-45 | the other fields of the header: file size, data offset, header size, planes, depth, no compression |
| `Bmp.RoundTrip` | kernel/GPU/bmp.c:22-59 | reading the bytes written gives 0xFF000000, r << 16, g << 8 and b combined for every pixel |
| `BmpFormats.AcceptedBytes` | kernel/GPU/bmp.c:10-21 | a file is taken exactly if it begins with BM, has 24 or 32 bits a pixel and is not compressed |
| `BmpFormats.FormatFound` | kernel/GPU/bmp.c:22-40 | of any such file, bottom up or top down, with pixels at any offset, the reader finds format and size, and the pixels lie within it |
| `BmpFormats.FormatRoundTrip` | kernel/GPU/bmp.c:22-59 | decoding it gives row y, column x of the picture at entry y * width + x, with full alpha |

## Left out

- Port input and output, disk transfers, interrupt and descriptor tables, the clock and keyboard set-up: the disk is a sequence of sectors, and each kernel call is one atomic step.
- CR3, TLB and register traffic: a task switch is a change of the current slot, and tables are followed from the root frame recorded by the construction.
- The kernel's window onto physical memory: a table frame is addressed by its frame number; `KernelMap.DirectMapClosed` states that the window reaches every such frame.
- Boot information outside populated memory: bytes past the end read as 0.
- Pmm.FrameAllocator.FreeAvailable: requires that the walk ends, exactly the condition of `BootInfo.WalkEndsExactly` and `BootInfo.StopsExactly`; a walk that does not end leaves no state to speak of.
- Framebuffers that reach above 2^47: the theorems about what each address is mapped to do not cover them.
- Contents of kernel stacks, stack pointers and the label address used by fork: only slot, name, count and stack block are kept. `TaskStack` says where a fork writes for a given stack pointer.
- TaskTable.Scheduler.TaskFork: the copy of the parent's stack, the seven words pushed for the child and the second return of the child are no part of the state; the lemmas of `TaskStack` give the addresses of those words.
- TaskStarvation.IdleForkStarves: for a fork by idle the slot, the count and the stack block are claimed and nothing about memory, because the words that the fork writes land outside the child's stack.
- Headers in memory that was never a block header: `kfree` finds no magic number there, and what callers write over a header that was merged away is not modelled.
- Boot.HeapInit: requires enough free frames, or that no table is missing; short of frames with a table missing, the allocation of the table can spin for ever.
- Addresses past the 512-byte sector buffers: freeing a zone number from 4096 on, clearing the bit of an inode number from 4096 on, and clearing the last record of a sector all write past a local buffer; the disk is unaffected and the stack is not part of this model.
- Names that run past the end of a sector buffer are read up to its end; well-formed directories have none.
- Paths of 256 characters or more, last components of 30 or more, and negative counts: excluded by precondition.
- Minix.FileSystem.ReadFile: requires that the bytes taken from the file lie within one sector, because the code reads one sector; `MinixRuns.RunReads` shows when that always holds.
- Files of more than one sector: the code reads and writes the first zone alone.
- The superblock: it shares sector 2 with the inode bitmap, and nothing is claimed about its fields.
- Listing directories, the root-inode report, the VFS dispatch and mount code: output and single-branch code.
- The image record allocation in `bmp_parse` is taken to succeed, as the code does not check it; the length argument is not used by the code, so the caller must supply enough bytes.
- Hexadecimal text and line breaks that `img2c.py` puts around the bytes: only the byte stream is modelled.
- Screen drawing, console, mouse, keyboard tables, `printk` formats and symbol lookup: user interface.
- That rmdir removes only empty directories: the code looks at the recorded size, which entries never change.
- MinixNames.CreateDirFinds: says nothing of paths that already passed the inode number the new directory gets, which `MinixMarks.FreshNumber` excludes while the marks are right, and of paths through the new name, for which `MinixTree.FindBelow` gives the lookup.
- The contents of `disk.img`: the theorems are about any disk that meets the stated conditions.
