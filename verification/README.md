# MPX kernel: a verified model

MPX is a small 32-bit x86 teaching kernel. This project models its parts that
carry state over long runs, in the form the C and assembly code has, and proves
what they promise. `dafny verify dfyconfig.toml` checks everything.

| part | files | what is proved |
|---|---|---|
| heap allocator (`lib/mem.c`, `include/memory.h`) | `Words`, `Mcb`, `HeapBlocks`, `HeapTheory`, `HeapRuns`, `HeapWords`, `Heap` | the loops over the word array refine a list of blocks; every run tiles the region, never leaves two free neighbours, and keeps all live payloads in place with exactly what their owners stored; a heap is determined by its live payloads alone |
| boot paging (`kernel/core-c.c`) | `FrameBitmap`, `PageTables`, `Paging` | the bitmap refines a set of frames; `vm_init` ends, panics exactly above a threshold, and otherwise the processor's page walk is one stated translation for every address |
| scheduler (`kernel/pcb.c`, `kernel/sys_call.c`) | `ReadyQueue`, `PcbList`, `SchedulerRuns`, `Scheduler`, `Commands` | the linked queues refine stable priority insertion, over whole runs of create, yield and delete; invariants of every run; bounded waiting; round robin; how far a priority inversion can go |
| context switch (`kernel/sys_call_isr.s`) | `Context`, `ContextRuns`, `SystemCall` | the interrupt entry, `sys_call` and `iret` together make one stated step; a process that is dispatched again resumes with exactly the registers of its last yield, whatever the others did, and in bounded time when nobody outranks it; a new process starts with exactly what was prepared |
| text (`lib/string.c`, `lib/stdlib.c`) | `CString`, `Strtok`, `Tokens`, `Numbers`, `Stdlib` | `strtok` returns exactly the maximal runs; `itoa` and `atoi` undo each other except at one value |
| serial device (`kernel/serial.c`) | `SerialWrite`, `SerialPoll` | the byte trace of interrupt-driven writes, also when requests queue up; the line editor against a push/pop editor |

## How the source is read

- Widths: `size_t` and `uint32_t` arithmetic is written modulo 2^32 where it can
  wrap (`roundup`, `mcb` sizes, `heap_addr`); `int` in `atoi`/`itoa` wraps, and the
  model says when it does. Header and page-entry bit fields are arithmetic on
  32-bit values; the frame bitmap uses 32-bit vectors.
- Memory: the heap region, physical memory and process stacks are arrays of 32-bit
  words. Pointers are indices or `base + 4 * index`.
- Outcomes the C code reaches without returning a value are explicit: `NullFault`
  for a read through NULL, `Panic` for `kpanic`, `WildWrite` for a store through
  index -1, `past` for a read behind a caller's buffer, `reported` for a message
  through the system call WRITE. Whether `sys_alloc_mem` finds memory is the
  parameter `memory`.
- `name[50]` takes 51 bytes for a name of 50 characters; the terminator falls into
  the padding before `class` (include/mpx/pcb.h:20-22), so names are values.
- Assumed at boot: memory past the kernel image is zero, the bitmap is empty, and
  the image ends between 0x1000 and 64 MB (make/link.ld:4 starts it at 1 MB). The
  model gives the machine a full 4 GB of words, so that a run that is about to
  panic can still write its last tables.

## Where the code does not do what it says

- `free_memory` documents a non-zero result on error (include/memory.h:21), but on
  any pointer that is not live it reads through NULL before it can return -1:
  `Heap.Allocator.FreeMemory` proves both directions.
- `roundup` wraps: a request above 2^32 - 4 is served with 0 bytes.
  `Mcb.RoundupCovers` gives the exact bound.
- "The highest priority runs" is false: a yield dispatches the head from before
  the yielder rejoined. `SchedulerRuns.PriorityInversion` is the input,
  `SchedulerRuns.DispatchOutrankedOnce` the exact condition.
- `itoa` then `atoi` in base 10 is the identity exactly when the number is not
  INT_MIN (`Numbers.ParsePrint`).
- `pcb_insert` of a PCB that is on its queue already, which resuming a ready process
  does (user/commhand.c:670-671), makes the PCB its own successor or drops the equals
  behind it: `PcbList.InsertInto` says which, for every queue.
- A write of length 0 still sends one byte (`SerialWrite.Dcb.WriteAndInterrupt`).
- A write request that comes while the device is busy is never started by the
  interrupts (`SerialWrite.Dcb.WriteWhileBusy`). The next request then sends its own
  first byte followed by the bytes of the one that waited, and reads behind its
  buffer exactly when the new request is longer
  (`SerialWrite.Dcb.WriteAndInterrupt`).
- `pcb_find` makes the system call WRITE whenever it searches a nonempty suspended
  queue in vain, so every successful creation does so while a process is suspended
  (`Scheduler.Kernel.PcbSetup`).
- `serial_poll` counts Enter as a character of the line, stores outside the buffer
  on an erase of an empty line, and writes the cell past `len` when Enter fills the
  line (`SerialPoll.Poll`).
- Heap-mode `kmalloc` adds without an overflow check, so the panic test can be
  passed by wrapping (`Paging.FullHeapMissed`); and it reports a physical address for an unmapped page
  (`Paging.Vm.HeapAlloc`).

## Model

| member | source | states |
|---|---|---|
| `Mcb.RoundupCovers` | lib/mem.c:5 | rounding gives a multiple of 4 that covers the request exactly when the request is at most 2^32 - 4, and 0 above |
| `Words.AddWraps` | kernel/core-c.c:320 | `size_t` and `uint32_t` addition is modulo 2^32 |
| `Mcb.HeaderFields` | include/memory.h:47-49 | the macros read back from a header word exactly the size, FREE and END it encodes |
| `Mcb.HeaderBits` | include/memory.h:44-52 | bit 0 of a header word is FREE, bit 1 END, the rest the size |
| `Mcb.AbsorbHeader` | lib/mem.c:45-50 | growing a header by the block behind it gives the header of the joined block, END taken over |
| `Mcb.RestHeader` | lib/mem.c:23-25 | the header written for the rest of a split block |
| `HeapBlocks.FirstFit` | lib/mem.c:19-20 | the lowest free block that is long enough, and none when there is none |
| `HeapBlocks.LiveDisjoint` | lib/mem.c:18-29 | live payloads are pairwise disjoint, with a header between them |
| `HeapTheory.AllocateEffect` | lib/mem.c:18-30 | an allocation adds one live payload at a fresh address, of the request's words or one more, and changes no other; total and coalescing are kept |
| `HeapTheory.ReleaseEffect` | lib/mem.c:42-52 | a release removes one live payload and changes no other; total and coalescing are kept through merges on both sides |
| `HeapTheory.Canonical` | lib/mem.c:20-52 | two coalesced heaps of one size with the same live payloads are the same heap |
| `HeapTheory.ReleaseUndoesAllocate` | lib/mem.c:16-53 | releasing what was just allocated gives the heap back |
| `HeapTheory.ReleasesCommute` | lib/mem.c:35-53 | two releases give the same heap in either order, whatever merges they cause |
| `HeapTheory.FragmentationBound` | lib/mem.c:16-33 | an allocation fails exactly when no free block is long enough, and then the free words are at most (L + 1) times the longest gap that is too short |
| `HeapRuns.ReachableInv` | lib/mem.c:9-60 | every run of allocations, live frees and client stores keeps the total, the absence of free neighbours, and for each live payload a size that is its rounded request or one word more |
| `HeapRuns.RunKeepsLive` | lib/mem.c:16-60 | a payload that a run does not free keeps its address and size through the whole run |
| `HeapRuns.AllFreedIsInitial` | lib/mem.c:9-53 | when all live payloads have been freed, in any order, the heap is the single initial block |
| `HeapRuns.AllocFreeIdentity` | lib/mem.c:16-53 | allocate-then-free is the identity on every state of a run |
| `HeapRuns.ReachableFragmentation` | lib/mem.c:16-33 | the fragmentation bound, in bytes, for every reachable heap and request of at least one byte |
| `HeapWords.DecodeUnique` | include/memory.h:36-52 | the words of the region determine the block list |
| `HeapWords.TilesSplice` | lib/mem.c:20-52 | exchanging a run of blocks for another over the same words keeps the header chain a tiling with END on the last block only |
| `HeapWords.StoreTiles` | include/memory.h:36-52 | a store into a payload leaves the header chain a tiling of the same blocks |
| `Heap.McbNextStep` | lib/mem.c:62-65 | `mcb_next` visits the blocks in order and returns NULL after the last |
| `Heap.CarveTiles` | lib/mem.c:21-28 | the header words a split writes encode the new block list and leave every live payload word alone |
| `Heap.MergeTiles` | lib/mem.c:43-51 | the header words a merge writes encode the new block list and leave every payload word alone |
| `Heap.Allocator.constructor` | lib/mem.c:9-14 | the region holds one free block of the rounded size: one header word, size + 3, and as many words as the size has |
| `Heap.Allocator.Take` | lib/mem.c:21-28 | the chosen block is split or taken whole, in place |
| `Heap.Allocator.AllocateMemory` | lib/mem.c:16-33 | the words afterwards encode the first-fit allocation; NULL exactly when nothing fits, otherwise the address right behind the header, with the rounded request inside the region; no live payload word changes |
| `Heap.Allocator.Merge` | lib/mem.c:43-51 | the block and its free neighbours become one free block, in place |
| `Heap.Allocator.FreeMemory` | lib/mem.c:35-60 | succeeds exactly on the address right behind the header of a block in use, which is then released; faults otherwise, with memory unchanged; -1 is never returned |
| `Heap.SplitTiles` | lib/mem.c:21-28 | the two header words of a split turn the tiling into that of the split block list |
| `Heap.WholeTiles` | lib/mem.c:28 | clearing FREE in one header turns the tiling into that of the list with the block taken whole |
| `Heap.Perform` | lib/mem.c:16-60 | one allocation or live free on the words is one step of the pure run and changes no live payload word; a client store changes one word |
| `Heap.StoreEffect` | lib/mem.c:28-29 | a client's store changes its own word of its own payload and no other payload |
| `Heap.StepKeepsPayload` | lib/mem.c:16-60 | a step keeps the address and size of each live payload it does not free, and every word of it but one its owner stores |
| `Heap.RunOps` | lib/mem.c:16-65 | after any legal run of calls and client stores on the word array, from any state of a run, the words decode to the block list of the pure run; every payload not freed keeps place and size and holds exactly what it held with its owner's stores made in order |
| `Heap.RunFromStart` | lib/mem.c:9-65 | the same for every run from `initialize_heap`; when everything has been freed, in any order, the first word is again the one header size + FREE + END |
| `Heap.BytesApart` | lib/mem.c:16-60 | in bytes, in every state of a run: a live payload lies in the region, holds its request when the rounding did not wrap, and meets no header and no other live payload |
| `Heap.ReachableBytes` | lib/mem.c:9-60 | the same after every run from `initialize_heap` |
| `Heap.AllocateThenFree` | lib/mem.c:16-53 | allocate then free restores every header on the chain word for word |
| `FrameBitmap.BitSet` | kernel/core-c.c:402 | or-ing one bit into a word sets that bit and keeps the others |
| `FrameBitmap.BitIs` | kernel/core-c.c:402 | bits are counted from the least significant one |
| `FrameBitmap.UsedBit` | kernel/core-c.c:397-403 | frame n is bit n % 32 of word n / 32 |
| `FrameBitmap.FindFree` | kernel/core-c.c:384-394 | the least frame not in the set, or -1 exactly when all frames are in it |
| `FrameBitmap.SetBit` | kernel/core-c.c:397-403 | the set gains exactly the frame of the address |
| `FrameBitmap.HandOut` | kernel/core-c.c:384-403 | k rounds of find-then-set from empty hand out 0 to k - 1 |
| `PageTables.AddIdentityTable` | kernel/core-c.c:343-347 | entering a fresh table for the next 4 MB keeps memory equal to the stated layout |
| `PageTables.AddHeapTable` | kernel/core-c.c:343-347 | the same for the table of the heap window |
| `PageTables.MapIdentity` | kernel/core-c.c:420-425 | filling the next identity entry extends the layout by one page |
| `PageTables.MapHeap` | kernel/core-c.c:420-425 | filling the next heap entry extends the heap window by one page |
| `PageTables.ClearZero` | kernel/core-c.c:453 | wiping the entry of page 0 changes only that page |
| `PageTables.WalkIsMapsTo` | kernel/core-c.c:428-465 | over a finished layout the page walk of the Intel SDM volume 3A, section 4.3, is the stated translation for every 32-bit address |
| `PageTables.MapsToInjective` | kernel/core-c.c:439-453 | the translation sends no two addresses to one physical address |
| `PageTables.EntryAgrees` | kernel/core-c.c:362-365 | the physical address computed from a page entry is the one the walk gives wherever the page is present |
| `PageTables.WindowContiguous` | kernel/core-c.c:446-450 | any range inside the heap window is physically contiguous |
| `Paging.PanicThreshold` | kernel/core-c.c:442-450 | with the identity region settled, the heap window finds 16 free frames exactly when the directory is at page 0x3FBC or below |
| `Paging.FullHeapMissed` | kernel/core-c.c:319-324 | a request too large for the window escapes the panic exactly when the 32-bit sum wraps |
| `Paging.PlacedAbove` | kernel/core-c.c:370-373 | an aligned placement is the next page boundary strictly above the bump pointer, 0 from the last page; the pointer itself when no alignment is asked for or it is below 0x1000 |
| `Paging.Translation` | kernel/core-c.c:428-465 | over a finished layout: 0x1000 to the end of the identity region to itself, 0xD000000 to 0xD00FFFF to the 16 frames behind it, nothing else |
| `Paging.Vm.BumpAlloc` | kernel/core-c.c:369-379 | the bump allocator for every size, wrapping at 2^32, moving up a page when asked to align even if aligned already |
| `Paging.Vm.FindPage` | kernel/core-c.c:332-340 | without a table to make: the entry's address, or 0 exactly when there is none |
| `Paging.Vm.GetPage` | kernel/core-c.c:332-349 | for any directory and address: the entry through the existing table with no change, or a new table whose two directory words are the only ones that change |
| `Paging.BootTable` | kernel/core-c.c:343-347 | the two words written for a new table make the next layout, and the table costs two pages |
| `Paging.Vm.BootPage` | kernel/core-c.c:436-443 | what the calls in `vm_init` ask for: the layout gains exactly the missing table, and the entry is in it |
| `Paging.Vm.NewFrame` | kernel/core-c.c:409-426 | for any bitmap and entry: an entry with a frame is kept; otherwise it gets the least free frame, the set gains that frame and the entry's other flag bits stay; panic exactly when all frames are used |
| `Paging.Vm.Fill` | kernel/core-c.c:420-425 | on a blank entry while booting, the frame given is the number of frames in use |
| `Paging.Vm.CreateDirectory` | kernel/core-c.c:431-432 | an empty page-aligned directory |
| `Paging.Vm.ReserveHeapTable` | kernel/core-c.c:435-437 | asking for every byte of the window makes one table |
| `Paging.Vm.MapNextPage` | kernel/core-c.c:443 | one page is mapped to itself, with a new table exactly at a 4 MB boundary |
| `Paging.Vm.MapIdentityRegion` | kernel/core-c.c:442-444 | the loop whose bound moves ends, and at the end the mapped pages are exactly those below the final bound |
| `Paging.Vm.MapHeapWindow` | kernel/core-c.c:448-450 | the window gets the 16 frames after the identity region; panic exactly when they do not exist |
| `Paging.Vm.BuildTables` | kernel/core-c.c:431-450 | panic exactly when the kernel image ends at 0x3FBC000 or above |
| `Paging.Vm.UnmapPageZero` | kernel/core-c.c:453 | only the entry of page 0 changes |
| `Paging.Vm.VmInit` | kernel/core-c.c:428-465 | panic exactly at or above 0x3FBC000; otherwise the final bump pointer, every address from 0x1000 to phys_alloc_addr + 0x10000 walks to itself, 0xD000000 to 0xD00FFFF to the next 16 frames in order, nothing else is mapped, and the bitmap holds exactly the frames handed out |
| `Paging.Vm.HeapAlloc` | kernel/core-c.c:315-367 | when it panics, when it reads through NULL, and that the reported physical address is the walk's and contiguous for a request inside the window |
| `Paging.Vm.PhysicalOf` | kernel/core-c.c:361-366 | the reported physical address is the walk's wherever the page is present |
| `Paging.Vm.Kmalloc` | kernel/core-c.c:354-381 | the heap branch once the heap is ready: when it panics, when it reads through NULL, the reported physical address and its contiguity; the bump branch before, for every size |
| `Paging.Vm.HeapRequests` | kernel/core-c.c:315-367 | any requests of together at most 0x10000 bytes, from heap_addr 0xD000000 on, follow one another without a gap; every byte of each is mapped, in order, behind the identity region |
| `Paging.Vm.DirectoryReachesItself` | kernel/core-c.c:439-444 | the directory is mapped to itself |
| `Paging.Vm.TablesReachThemselves` | kernel/core-c.c:439-444 | every page table is mapped to itself |
| `Paging.Vm.TranslationInjective` | kernel/core-c.c:405-453 | after `vm_init` no two mapped addresses share a physical address |
| `ReadyQueue.InsertAt` | kernel/pcb.c:128-137 | the place behind all equal or smaller priority numbers |
| `ReadyQueue.InsertThenRemoveHead` | kernel/pcb.c:128-158 | joining the queue and then removing the old head is joining its tail, even when the newcomer lands in front |
| `ReadyQueue.InsertAllSorts` | kernel/pcb.c:105-143 | inserting any sequence into an empty queue gives its stable sort |
| `ReadyQueue.StableSortUnique` | kernel/pcb.c:127-142 | there is only one stable sort, so the queue is determined |
| `ReadyQueue.RemoveIsStableSort` | kernel/pcb.c:145-173 | removing one process leaves the stable sort of the rest |
| `PcbList.LinkBehind` | kernel/pcb.c:140-141 | the two pointer writes, for a new node, for the last one, and for a node further up |
| `PcbList.InsertInto` | kernel/pcb.c:128-142 | the linked list becomes that of the stable insertion; a PCB already on it becomes its own successor exactly when it is the last of its priority, and otherwise the nodes of its priority behind it are lost |
| `PcbList.RemoveFrom` | kernel/pcb.c:151-172 | the linked list loses exactly the node, reported found exactly when it was there |
| `PcbList.FindIn` | kernel/pcb.c:57-64 | the first node of that name, by `strcmp` |
| `PcbList.FirstNamedConcat` | kernel/pcb.c:54-85 | searching two queues in turn is searching one after the other |
| `SchedulerRuns.YieldIsInsertThenRemove` | kernel/sys_call.c:62-108 | what `sys_call` does in its order is the pure yield step |
| `SchedulerRuns.RunKeepsInv` | kernel/sys_call.c:50-109 | every run of create, yield and ready-delete keeps the queue sorted, free of duplicates and disjoint from the running process |
| `SchedulerRuns.YieldMembers` | kernel/sys_call.c:62-108 | after a yield the queue holds the others and the yielder, without the process dispatched |
| `SchedulerRuns.CreatesSort` | kernel/pcb.c:105-143 | a run of creations on an empty queue leaves the stable sort |
| `SchedulerRuns.StepAdvances` | kernel/pcb.c:128-142 | no step moves a process that nobody outranks further back, and a yield moves it one place forward or runs it |
| `SchedulerRuns.BoundedWaiting` | kernel/sys_call.c:20-108 | a process at index k that nobody outranks, arrivals included, is running after at most k + 1 yields of any run |
| `SchedulerRuns.RoundRobin` | kernel/sys_call.c:62-108 | n processes of one priority are back in the same state after n yields |
| `SchedulerRuns.DispatchOutrankedOnce` | kernel/sys_call.c:20-108 | only the yielder can have a smaller number than the process dispatched; the choice is best of all exactly when it has not |
| `SchedulerRuns.PriorityInversion` | kernel/sys_call.c:62-108 | a process that yields to a larger number waits while that one runs |
| `Scheduler.Kernel.PcbInsert` | kernel/pcb.c:105-143 | by state, one of the three queues gains the PCB in stable order, or is spoilt in the exact way of `PcbList.InsertInto` when it holds the PCB already; the others stay |
| `Scheduler.Kernel.Admit` | kernel/pcb.c:105-143 | inserting a ready PCB that is on no queue keeps all three queues sorted, acyclic and disjoint |
| `Scheduler.Kernel.PcbRemove` | kernel/pcb.c:145-200 | a ready or suspended PCB leaves its queue; success exactly then |
| `Scheduler.Kernel.Requeue` | kernel/sys_call.c:62-69 | the yielder's context is saved and it joins the ready queue |
| `Scheduler.Kernel.Dispatch` | kernel/sys_call.c:104-108 | the process leaves the queue, runs, and its saved context is returned |
| `Scheduler.Kernel.SwitchTo` | kernel/sys_call.c:62-108 | both together; no other saved context changes |
| `Scheduler.Kernel.SysCallIdle` | kernel/sys_call.c:50-109 | running process and queue make the pure yield step; the context returned is the one the dispatched process saved; no other saved context changes |
| `Scheduler.Kernel.PcbFind` | kernel/pcb.c:53-86 | the first name match of ready followed by suspended, or NULL exactly when there is none; WRITE is called exactly when a nonempty suspended queue had none |
| `Scheduler.CreatableIs` | kernel/pcb.c:211-242 | a PCB can be set up exactly with priority 0 to 9, class 0 or 1, a name of 2 to 50 characters that no ready or suspended process has |
| `Scheduler.Kernel.PcbSetup` | kernel/pcb.c:203-245 | a new ready PCB exactly when there is memory, the priority is 0 to 9, the class 0 or 1, the name has 2 to 50 characters and is on neither queue; when WRITE is called |
| `Scheduler.Kernel.CreateProcess` | kernel/pcb.c:105-245 | set-up then insert is a create step of the pure scheduler with the arguments in the new PCB, exactly when set-up succeeds; the other queues and all saved contexts stay |
| `Scheduler.Kernel.DeletePcb` | user/commhand.c:276-295 | a user process found by name leaves its queue, from the ready queue as a delete step; a system process is kept |
| `Commands.Perform` | user/commhand.c:276-295 | for each command exactly which scheduler step it makes, if any: a creation when memory, arguments and name allow it, a deletion of the first user process of that name, a yield; the queues follow |
| `Commands.RunCommands` | kernel/sys_call.c:50-109 | any run of creations, yields and deletions by name makes, command by command, exactly the stated steps, and leaves the linked queues in the state of the pure run over them |
| `Commands.SpawnStep` | kernel/pcb.c:203-245 | on queues made by creations alone, the next creation succeeds exactly when memory, arguments and a new name allow it |
| `Commands.SpawnAll` | kernel/pcb.c:105-245 | any sequence of creations on empty queues leaves on the linked list the stable sort of exactly the accepted ones |
| `Commands.AwaitDispatch` | kernel/sys_call.c:50-109 | bounded waiting on the linked queues: a process at index i that no present process and no arrival outranks is running after at most i + 1 yields of any run |
| `Context.LoadSaved` | kernel/sys_call_isr.s:10-51 | what the pushes store is what the pops and `iret` load, esp slot skipped |
| `Context.SavedWords` | include/sys_call.h:8-29 | the frame word by word in the order of `struct context`; no other word changes |
| `Context.MaskedFlags` | kernel/core-c.c:185-199 | in the handler IF is clear; of the twenty low flags exactly VM, RF, NT, TF and IF go |
| `Context.Cpu.Enter` | kernel/sys_call_isr.s:10-23 | the interrupt and the pushes leave the registers in the sixteen words below esp, each in its place of `struct context`, and nothing else; the handler runs with selector 8 and interrupts off |
| `Context.Cpu.Leave` | kernel/sys_call_isr.s:31-51 | each register comes from its place in the frame at the returned pointer, esp from its end |
| `Context.Cpu.Prepare` | kernel/kmain.c:89-100 | eip is the code, ebp the stack, the code selector 8, the five others 0x10, the flags 0x202, the rest 0, each in its place of the frame; nothing else changes |
| `ContextRuns.OthersSame` | kernel/sys_call_isr.s:10-23 | pushing the yielder's frame leaves the frames of all waiting processes alone |
| `ContextRuns.DispatchLoads` | kernel/sys_call_isr.s:31-51 | a dispatch loads the frame as it was before the yielder pushed its own |
| `ContextRuns.FrameStays` | kernel/sys_call.c:62-108 | no step but its own dispatch changes the saved frame of a waiting process |
| `ContextRuns.ResumesExactly` | kernel/sys_call_isr.s:6-51 | between a yield and the next dispatch of the same process, any run of the others leaves it all its registers, selectors, return frame and stack position |
| `SystemCall.KernelStep` | kernel/sys_call.c:50-109 | seen from the saved stack tops, `sys_call` returns the head's, adds the yielder's and keeps the others |
| `SystemCall.YieldCall` | kernel/sys_call_isr.s:6-51 | entry, `sys_call` and exit, run on the processor and the linked queues, make exactly one step of the runs that `ContextRuns.ResumesExactly` is about, with every stack top read from its PCB |
| `SystemCall.PerformAction` | kernel/sys_call_isr.s:6-51 | one action of the running process, computing in its own region or yielding, is one step of `ContextRuns` and of the pure scheduler |
| `SystemCall.RoomIs` | kernel/sys_call_isr.s:10-23 | an action has room exactly when the words it writes and the frame it pushes stay in the region of the running process |
| `SystemCall.RunsOrWaits` | kernel/sys_call.c:62-108 | a waiting process runs after a step with the registers of its frame, or waits on with the same ones |
| `SystemCall.RunUntil` | kernel/sys_call_isr.s:6-51 | any run of actions on processor, memory and linked queues is a legal run of `ContextRuns`; a process that waits is dispatched with exactly the registers its frame held, by yield i + 1 at the latest when it is at index i and nobody outranks it |
| `SystemCall.YieldAndReturn` | kernel/sys_call_isr.s:6-51 | a process that yields has exactly its registers when it is back, after any run of the others; with n processes ready and none that outranks it, within n more yields |
| `SystemCall.JoinWorld` | kernel/kmain.c:88-101 | a frame written in a region of its own adds a waiting process and keeps the frames of the others |
| `SystemCall.StartProcess` | kernel/kmain.c:88-101 | PCB, first context and place in the ready queue, exactly when set-up succeeds; all other frames stay |
| `SystemCall.StartAndRun` | kernel/kmain.c:88-101 | a created process starts, after any run of the others, at its code, with its stack in ebp, esp behind the frame, the selectors 8 and 0x10, flags 0x202 and all other registers 0; in bounded time when nobody outranks it |
| `ContextRuns.AloneResumesExactly` | kernel/sys_call.c:57-60 | a yield with nobody ready returns to the yielder with its registers |
| `CString.Strcmp` | lib/string.c:22-36 | 0 exactly on equal strings, negative exactly when the first is lexicographically before |
| `CString.BeforeAt` | lib/string.c:22-36 | one text is before another exactly when it has the smaller character, or has ended, at the first difference |
| `Strtok.Tokenizer.Strtok` | lib/string.c:47-94 | one call: next token, new place, and the one character that changes |
| `Tokens.RunsAreMaximal` | lib/string.c:64-89 | the runs are in order and are exactly the maximal nonempty delimiter-free stretches |
| `Tokens.CutAt` | lib/string.c:83-85 | cutting changes exactly the delimiters that end a token |
| `Tokens.Collect` | lib/string.c:47-94 | the first call and the calls with NULL return the starts of the runs of the original text |
| `Tokens.Tokenize` | lib/string.c:47-94 | the whole protocol: all maximal runs in order, each readable in place, nothing else changed, NULL on later calls |
| `Numbers.PrintValue` | lib/stdlib.c:36-73 | for every base from 2 to 36 and every n from 0 on, the text has only digits of the base, denotes n, and has no leading zero |
| `Numbers.PrintNegative` | lib/stdlib.c:44-61 | in base 10 a negative number above INT_MIN is a minus sign and its magnitude |
| `Numbers.ValueByCode` | lib/stdlib.c:18-22 | the value of a text digit by digit, by character code |
| `Numbers.WrapIs` | lib/stdlib.c:19 | an `int` result differs from the exact one by a multiple of 2^32 and is in range |
| `Numbers.ParseText` | lib/stdlib.c:9-29 | for every text, by character code: blanks 9 to 13 and 32, one sign or none, and the digits up to the first other character give the signed number, reduced to 32 bits |
| `Numbers.NegativeTop` | lib/stdlib.c:50-54 | the leading character for a number that stays negative is not a digit |
| `Numbers.ParsePrint` | lib/stdlib.c:4-73 | `atoi` of `itoa` in base 10 is the number exactly when it is not INT_MIN, with no intermediate overflow |
| `Stdlib.PutDigits` | lib/stdlib.c:50-54 | the loop stores the digits, least significant first, in any buffer that holds them |
| `Stdlib.ReverseText` | lib/stdlib.c:64-72 | the text is reversed in place and the rest of the buffer is kept |
| `Stdlib.TextFits` | lib/stdlib.c:32-73 | 34 cells are enough in any base, 12 in base 10 |
| `Stdlib.Itoa` | lib/stdlib.c:32-73 | in any buffer that has room for the text and its terminator: it holds them, and nothing behind changes |
| `Stdlib.ReadDigits` | lib/stdlib.c:18-22 | the wrapped value of the digit run, and when it left the range of `int` |
| `Stdlib.Atoi` | lib/stdlib.c:4-29 | white space, sign and digits give the wrapped value; overflow exactly when the magnitude exceeds INT_MAX |
| `Stdlib.RoundTrip` | lib/stdlib.c:4-73 | the round trip through any buffer the text fits in |
| `SerialWrite.MarkedAt` | kernel/serial.c:522-528 | byte i of the buffer is at place 2i of the trace, followed by the byte 2 |
| `SerialWrite.SentGrows` | kernel/serial.c:515-546 | each interrupt only appends: the mark and the next byte, the last mark, or nothing |
| `SerialWrite.SentAt` | kernel/serial.c:515-546 | the length of the trace after k interrupts, byte i at place 2i and the byte 2 behind it |
| `SerialWrite.Dcb.StartWrite` | kernel/serial.c:402-453 | the first byte goes out and the device is writing, or one of the error codes (busy, NULL buffer, not open) and no change |
| `SerialWrite.Dcb.ScheduleWrite` | kernel/serial.c:456-496 | another device or a NULL buffer changes nothing; otherwise the queue gains the request at its end and it is started exactly on an open, idle device |
| `SerialWrite.Dcb.OutputInterrupt` | kernel/serial.c:515-546 | one interrupt advances the write by exactly one byte of the head request, or completes it, unblocking and freeing that request; it reads behind the head's buffer exactly when the write is longer and has come to its end |
| `SerialWrite.Dcb.WriteAndInterrupt` | kernel/serial.c:402-546 | on an idle device with any queue: after a write and any number of interrupts the trace is the new request's first byte and the head request's other bytes, with their marks; when it reads behind the head's buffer; at the end the head is completed and the device idle |
| `SerialWrite.Dcb.WriteBytes` | kernel/serial.c:402-546 | the same byte by byte, in plain positions: the first byte from the new request, byte i from the buffer of the request that waits longest, 2 behind each; when it reads behind that buffer |
| `SerialWrite.Dcb.QuietWrite` | kernel/serial.c:402-546 | with an empty queue the trace has, after k interrupts, byte i of the caller at place 2i and 2 behind it, and the stated length; the device ends quiet |
| `SerialWrite.Dcb.WriteWhileBusy` | kernel/serial.c:456-546 | a second request made during a write is still waiting after any number of interrupts |
| `SerialPoll.StoreKey` | kernel/serial.c:261-278 | a key is pushed, or an erase pops; the store through -1 happens exactly on an erase of an empty line |
| `SerialPoll.TakeKey` | kernel/serial.c:259-287 | one key acts on the buffer as on the push/pop editor |
| `SerialPoll.KeyByCode` | kernel/serial.c:259-287 | the editor and the echo key by key, by character code: 8 and 127 erase and echo 8 32 8 behind themselves, 10 and 13 echo 10, all other keys are pushed and echoed |
| `SerialPoll.TypedPlain` | kernel/serial.c:259-262 | keys that do not erase are the line |
| `SerialPoll.WildDecided` | kernel/serial.c:264-270 | whether the keys erase an empty line is decided by the keys the call reads |
| `SerialPoll.Poll` | kernel/serial.c:251-295 | the buffer holds the line of the push/pop editor over the keys read, the echo is its echo; no key before the last one read has code 10 or 13; the call returns exactly when the line is full or the last key has code 10 or 13, which is followed by a NUL; the store through -1 happens exactly when the keys erase an empty line before the call would return, and the one past `len` exactly when Enter fills the line |

## Left out

- `sys_call` READ, WRITE and EXIT (kernel/sys_call.c:29-48, kernel/sys_call.c:77-88): the first two fall through and insert PCBs more than once, EXIT cuts the queue and frees twice; no queue invariant holds there.
- Scheduler.Kernel.PcbFind: says when the WRITE system call is made (kernel/pcb.c:78-82), not what that call does to the queues, which is the WRITE path of `sys_call` above.
- Scheduler.Kernel.PcbSetup: says when a WRITE system call is made (kernel/pcb.c:38, kernel/pcb.c:240), not its effect; a NULL name and the frees on the error paths are not modelled.
- Scheduler.Kernel.PcbInsert: takes a PCB whose state names its queue, if it is on one; the resume command changes the state first. `pcb_insert(NULL)`, which returns at once, is left out.
- `pcb_free` (kernel/pcb.c:88-96): the name is at offset 0 of the PCB, so both frees get the same pointer.
- Suspend, resume and set-priority commands (user/commhand.c): they change a state or a priority without requeuing, or insert without removing.
- `serial_read` and input interrupts (kernel/serial.c:334-400, kernel/serial.c:501-513): the input side is a stub.
- SerialWrite.Dcb.OutputInterrupt: records which request is unblocked and freed (kernel/serial.c:536-537), not the effect of `unblock_pcb` on the queues.
- SerialWrite.Dcb.ScheduleWrite: does not model a failed `sys_alloc_mem`, whose NULL the source writes through.
- Paging.Vm.GetPage: does not make a table once the heap is ready; `vm_init` is the only caller that makes any.
- Kernel threads of control other than yields: the model has no preemption, as the kernel has none.
- Baud rate, PIC, GDT and IDT set-up, the real-time clock, menus and help text: port I/O and user interface only.
- `strcpy`, `strlen`, `memcpy`: one-loop members that would add only easy claims.
