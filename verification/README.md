# Verified model of the torch-os kernel core

A Dafny model of the parts of the kernel where several functions have to agree for anything to
work, with proofs that they do. It verifies with `dafny verify dfyconfig.toml` (Dafny 4.11).

## What is modelled

**Virtual memory** (`Machine`, `Bitmap`, `Paging`, `Mapper`, `PagingRuns`, `PagedMapper`, `PagedRuns`,
`HeapLayout`, `Heap`, `HeapRuns`, `Boot`, `BootThenMap`, `BootThenHeap`, `TaskHeap`, `Vmm`). Physical
memory is one sequence of words that holds the page directory, every page table and every frame. The
page walk is a function over that memory (section 4.3 of the Intel SDM, volume 3A). The mapper, both
bitmap allocators, the heap and `init_paging` are steps on a state; `panic` and the page-fault handler,
which never return, are halting outcomes. `map_page` and `unmap_page` exist twice: in `Mapper` as they
run inside `init_paging`, with paging off, and in `PagedMapper` as they run afterwards, when each access
to the directory or a table is itself translated, and may fault or land elsewhere. Main results:

- With paging on, one call is one update of a plain map from virtual to physical pages if and only if
  the directory and the table it stores through are mapped to themselves, or the store goes astray and
  happens to do no harm (`MapPageThroughTables`, `PagedUnmapPageExact`). While the directory is in place
  there are only two ways for that: the page was at that frame before, or the table's address leads to the
  directory (`MapPageNeedsItsTable`).
- With the table bitmap cleared first, every run from boot that leaves the directory, the static tables
  and the table area mapped to themselves is a run of the plain map, without a fault (`BootThenMap`).
  Two runs that do not leave them there go wrong (`UnmappedTableFaults`, `MovedTableIsMissed`).
- `init_page_table_allocator` clears its bitmap after it has already handed out table 0. The code is
  kept as it is. As written, runs that map only below page 0xC00 are still runs of the plain map
  (`WrittenOrderLowRun`); after any of them, the first page mapped above takes slot 2's table for its
  own, which is the plain map's step if and only if slot 2 holds nothing but that page's twin, already
  at the same place (`WrittenOrderNextTable`).
- In either order tables never run out, whatever is unmapped or shared, as long as the directory's page
  is left alone and nothing is mapped onto it or onto a table (`BootNeverOutOfTables`).
- From boot, in either order, any sequence of `heap_allocate` calls mixed with client stores into the
  returned blocks behaves like one growing byte sequence. It halts exactly when that sequence would pass
  32 MiB, and below the frame area only the entries of new heap pages are ever written. What the written
  order costs the heap is `TableAreaIntact` and `WrittenOrderReusesLiveTable`.

**Scheduler** (`Tasks`, `TaskRuns`, `TaskTime`, `Tasking`). The ready and terminated queues, the task
records, the time accounts, the stacks in memory and the processor registers form one state machine.
Its events are a tick, a piece of computation by the current task, a yield, a termination and a new
task. Over all runs: the queues stay well formed and disjoint, the switch to NULL is unreachable, a
task that yields resumes with the callee-saved registers of the System V ABI i386 supplement
(chapter 3, "Function Calling Sequence"), waiting is bounded exactly, and ticks are conserved.

**Ramdisk** (`Image`, `Files`, `Filesystem`). The image writer and the parser are inverse to each other
exactly on the files the kernel can hold, and an open file is a byte sequence with a cursor.

**Decimal printer** (`Decimal`). The digits written backwards and reversed in place are the one
canonical numeral of the argument.

Where the C code updates globals, fields or arrays in place, there is a class or a method with loops
(`Vmm`, `Tasking`, `Filesystem`, `Bitmap`, `Decimal`) proved to take exactly the step of its
specification function; the theorems about runs are about those functions.

Where the code and its comments or intent differ, the model follows the code: tables are not zeroed
when they are handed out (`MapPageExact` says when that matters); `enqueue_task` into an empty list
leaves `next_task` alone, so a list is the segment from head to tail; the wrap branch of
`elapsed_time` is one tick short; a `heap_allocate` size whose 32-bit sum wraps passes the overflow
check and ends in the page-fault handler instead; and a file bounds check whose sum wraps is the one
way a read or a write leaves its buffer. The lost tick and the overrun each have a run that shows them
(`TickLost`, `OverrunHappens`).

## Model

| member | source | states |
|---|---|---|
| `Bitmap.Scan` | kernel/memory.c:132-146 | The nested scan finds the lowest clear flag and sets only that one, or returns -1 with nothing changed exactly when every flag is set. |
| `Bitmap.SetBitChangesOneBit` | kernel/memory.c:85-88 | Setting bit j changes the test of bit j and of no other bit. |
| `Bitmap.BitsAreBinary` | kernel/memory.c:85-88 | Bit j is the one worth 2^j, and setting it adds that if it was clear. |
| `Bitmap.FirstFitKeepsPrefix` | kernel/memory.c:78-99 | Without free, after k allocations the flags set are 0..k-1, the next allocation is k, and exhaustion comes exactly at the end. |
| `Mapper.MapPageWalks` | kernel/memory.c:230-263 | With paging off, the translation of every virtual page after `map_page`, in terms of memory before it, shared and fresh tables included. |
| `Mapper.MapPageExact` | kernel/memory.c:239-262 | With paging off, `map_page` changes exactly the requested translation if and only if no other slot shares its table in a way that matters and a newly handed out table has no other present entry. |
| `Mapper.MapPageWords` | kernel/memory.c:239-262 | All of memory after `map_page` with paging off, word by word: one table entry is the physical address + 3, a missing directory entry is the new table + 3, and no other word changes. |
| `Mapper.MapPageTableEntry` | kernel/memory.c:256-262 | The entry written is the physical address with present and read/write set. |
| `Mapper.InstallTableEntry` | kernel/memory.c:242-254 | A present directory entry is kept; a missing one becomes the new table's address with the same bits. |
| `Mapper.TableAddresses` | kernel/memory.c:130-157 | The table handed out is the one of the lowest clear flag, at 0x00500000 plus 4096 times its number; there is none exactly when all 1024 flags are set. |
| `PagingRuns.NeverOutOfTables` | kernel/memory.c:148-151 | While a directory slot is missing a table is free, so the table-exhaustion panic is unreachable. |
| `PagingRuns.MapPageKeepsWellFormed` | kernel/memory.c:239-262 | `map_page` keeps: one owner per table, live tables marked, free tables clear. |
| `PagingRuns.UnmapPageExact` | kernel/memory.c:265-295 | With paging off and in any sound state, `unmap_page` succeeds exactly on aligned mapped addresses, panics over a missing directory entry or an unmapped page exactly where there is one, and removes exactly that translation if and only if no other present slot uses the same table. |
| `PagingRuns.UnmapPageWords` | kernel/memory.c:289-290 | `unmap_page` takes 1 off one word of memory and writes no other. |
| `PagingRuns.UnmapPageWalks` | kernel/memory.c:282-290 | Every translation after `unmap_page`: the pages that share the entry go, and the entry loses its present bit and nothing else. |
| `PagingRuns.StepRefinesPlainMap` | kernel/memory.c:230-295 | With paging off, where stores reach the words they name: in a well-formed state one call is one update of the plain map, and halts exactly where the plain map has no step. |
| `PagingRuns.RunRefinesPlainMap` | kernel/memory.c:230-295 | The same over every sequence of calls, with paging off. |
| `PagedMapper.PagedMapPageDirect` | kernel/memory.c:239-262 | With the directory and the slot's table mapped to themselves, `map_page` with paging on is `map_page` with paging off. |
| `PagedMapper.PagedUnmapPageDirect` | kernel/memory.c:271-290 | The same for `unmap_page`, which has no table to reach when the slot is empty. |
| `PagedMapper.WordStoreWalks` | kernel/memory.c:262 | Every translation after one word is stored anywhere in memory, in the directory and in shared tables included. |
| `PagedMapper.PagedMapPageExact` | kernel/memory.c:230-263 | With paging on, in any sound state and for any aligned call: `map_page` is the plain map's step if and only if its accesses do not fault and the page its store reaches shows the new translation and nothing else. |
| `PagedMapper.MapPageThroughTables` | kernel/memory.c:230-263 | In a well-formed state that is so if and only if the directory and the table stored through are mapped to themselves, or the store went astray harmlessly. |
| `PagedMapper.MapPageNeedsItsTable` | kernel/memory.c:256-262 | With the directory mapped to itself: unless the page was already mapped to that frame, or the table's address leads to the directory, `map_page` is the plain map's step exactly when its table is mapped to itself. |
| `PagedMapper.PagedUnmapPageExact` | kernel/memory.c:265-295 | With paging on, in any sound state: `unmap_page` does what the plain map does if and only if it halts on an unmapped page, or finds a present entry in the page's own, unshared table, or clears the directory entry of a slot with that one page. |
| `PagedMapper.UnmapPageNeedsItsTable` | kernel/memory.c:279-290 | For a mapped page with a table of its own, that is so exactly when the table is mapped to itself, unless its address leads to the directory. |
| `PagedMapper.NoDirectoryNoCall` | kernel/memory.c:239-272 | Once the directory is unmapped every aligned call ends in the page-fault handler. |
| `PagedRuns.PagedRunRefinesPlainMap` | kernel/memory.c:230-295 | With paging on, every run that leaves the directory, the tables in use and the table area mapped to themselves is a run of the plain map, the same as with paging off, and never faults or runs out of tables. |
| `PagedRuns.PagedRunUnderFilledSlots` | kernel/memory.c:230-295 | The same for runs that need no new table, whatever marks the bitmap has lost. |
| `PagedRuns.RunNeverOutOfTables` | kernel/memory.c:148-151 | Runs may unmap, move and share tables; while the directory's page is left alone and nothing is mapped onto a table, none stops for lack of a table. |
| `HeapLayout.MapHeapPage` | kernel/memory.c:101-103 | Mapping heap page k at frame k takes the layout of k pages to the layout of k+1, in both init orders, and writes only that page's entries. |
| `HeapLayout.WalkStable` | kernel/memory.c:223-263 | Translations depend only on memory below the last live table. |
| `Heap.ZeroHeapBytes` | lib/string/memset.c:3-8 | Zeroing mapped heap bytes through the page tables zeroes exactly their frame bytes and leaves every table alone. |
| `Heap.ZeroPastHeapFaults` | kernel/memory.c:198 | Zeroing that runs past the heap area ends in the page-fault handler. |
| `Heap.HeapPageFrame` | kernel/memory.c:72-108 | `page_frame_allocate` for the next heap page succeeds, zeroes that page and leaves earlier heap bytes alone. |
| `Heap.HeapPageThroughTables` | kernel/memory.c:101-103 | For the next heap page, reaching the tables through themselves makes no difference, in both init orders. |
| `Heap.GrowHeapCorrect` | kernel/memory.c:190-195 | The growth loop ends with `heap_mapped` the first page boundary that covers the request, all pages below it mapped and older bytes kept. |
| `Heap.HeapAllocateRefines` | kernel/memory.c:183-204 | `heap_allocate` returns the end of the bytes handed out so far and appends `size` zeros; it halts with heap overflow or a page fault exactly by the size of the request, never for frames or tables. |
| `Heap.ClientStoreRefines` | kernel/memory.c:183-204 | A client store into a block changes that byte of the sequence, no other, and no table. |
| `Heap.VirtualContents` | kernel/memory.c:163-204 | A load of a heap address through the page tables returns the byte of the sequence. |
| `HeapRuns.BlocksApart` | kernel/memory.c:197-203 | Blocks returned in any run are pairwise disjoint and lie in order from the start of the heap. |
| `HeapRuns.HeapRunRefinesClient` | kernel/memory.c:163-204 | Over any run of allocations and stores the kernel and the growing byte sequence return the same blocks and bytes and halt alike; below the frame area only entries of new heap pages change. |
| `Boot.IdentityMapRangeExact` | kernel/memory.c:223-228 | Every page of the range translates to itself and every other translation is kept. |
| `Boot.IdentityMapRangeSlot` | kernel/memory.c:223-228 | A range under one directory slot takes at most one table, and touches no other slot. |
| `Boot.ZeroedMemoryBoots` | kernel/includes/memory.h:24-26 | Zero memory meets the boot assumption, so the boot theorems are about real starts. |
| `Boot.IdentityMapRangeWords` | kernel/memory.c:223-228 | Memory after mapping a range under one slot, word by word: its entries, the slot if it was missing, and nothing else. |
| `Boot.BootMemory` | kernel/memory.c:302-327 | All of memory after boot in either order, word by word and in numbers: directory entries 0 to 2 are the two static tables and 0x00500000 plus 3, the other 1021 are 2, the kernel, the table area and the VGA page have identity entries plus 3, and every other word is what it was. |
| `Boot.BootInNumbers` | kernel/includes/memory.h:12-18 | After boot exactly pages 0x100-0x2FF, 0x500-0x8FF and 0xB8 are mapped, each to itself, no frame is taken, and the heap starts at 0x0F000000. |
| `Boot.InitPagingClearFirst` | kernel/memory.c:302-327 | With the bitmap cleared first, boot maps exactly the kernel, the table area and the VGA page, and the written order ends in the same memory with an empty table bitmap. |
| `Boot.InitPagingCorrect` | kernel/memory.c:114-119 | Both orders establish the heap invariant; live tables are all marked if and only if the bitmap is cleared first. |
| `BootThenHeap.BootThenRun` | kernel/memory.c:163-204 | From boot, in either order, every legal run of the heap is a run of the growing byte sequence. |
| `BootThenMap.BootThenMap` | kernel/memory.c:230-331 | From a boot that clears first, every run that leaves the directory, the two static tables and the table area mapped to themselves is a run of the plain map and halts only where that has no step. |
| `BootThenMap.UnmappedTableFaults` | kernel/memory.c:256-262 | Unmapping 0x00500000 and then mapping 0x00801000 faults, although slot, table and bitmap are in order and the plain map has both steps. |
| `BootThenMap.MovedTableIsMissed` | kernel/memory.c:256-262 | Mapping 0x00500000 elsewhere and then mapping 0x00801000 does not do what the plain map does. |
| `BootThenMap.WrittenOrderLowRun` | kernel/memory.c:114-119 | As written: every run from boot that maps only pages below 0xC00 and leaves the directory and its three tables mapped to themselves is a run of the plain map. |
| `BootThenMap.WrittenOrderNextTable` | kernel/memory.c:114-119 | As written, after any such run: mapping a page above is the plain map's step if and only if slot 2's part of the plain map is exactly the page with the same index, at the same frame. |
| `BootThenMap.BootNeverOutOfTables` | kernel/memory.c:114-151 | From boot in either order, no run that leaves the directory's page alone and maps nothing onto the directory or a table stops for lack of a table. |
| `BootThenHeap.FirstAllocation` | kernel/includes/memory.h:16-19 | The first allocation after boot in numbers: it succeeds up to 0x02000000 bytes, starts at 0x0F000000, and is mapped from physical 0x00900000; larger ones overflow, and from 0xF1000000 on fault. |
| `BootThenHeap.HeapAddresses` | kernel/memory.c:101-105 | In every reachable heap state an address below `heap_mapped` translates to itself minus 0x0E700000, and the mapped set is exactly the expected one. |
| `BootThenHeap.StructuresMapToThemselves` | kernel/memory.c:153-156 | The directory, every live table and the next table are mapped to themselves, so stores through their virtual addresses reach them. |
| `BootThenHeap.TableAreaIntact` | kernel/memory.c:114-119 | The table area stays identity mapped if and only if the bitmap was cleared first or the heap has no page yet. |
| `BootThenHeap.WrittenOrderReusesLiveTable` | kernel/memory.c:114-119 | As written, the next table handed out is 0x00500000, in use by slot 2, and the first heap page moves virtual 0x00800000 to physical 0x00900000. |
| `Vmm.MemoryManager.constructor` | kernel/memory.c:40-53 | The statics start as zero bitmaps and zero heap pointers over the given memory, with paging off. |
| `Vmm.MemoryManager.PageTableAllocate` | kernel/memory.c:130-157 | Takes exactly the step of the table allocator, or halts for its reason. |
| `Vmm.MemoryManager.LoadEntry` | kernel/memory.c:239-253 | The C read of a directory or table entry: of the word itself, or once paging is on of the word its address translates to, or a fault. |
| `Vmm.MemoryManager.StoreEntry` | kernel/memory.c:250-262 | The C write, likewise. |
| `Vmm.MemoryManager.MapPage` | kernel/memory.c:230-263 | Takes exactly the step of `MapPageExact` with paging off and of `PagedMapPageExact` with paging on. |
| `Vmm.MemoryManager.UnmapPage` | kernel/memory.c:265-295 | Takes exactly the step of `UnmapPageExact` with paging off and of `PagedUnmapPageExact` with paging on. |
| `Vmm.MemoryManager.IdentityMapRange` | kernel/memory.c:223-228 | The loop computes the range mapping of `IdentityMapRangeExact`. |
| `Vmm.MemoryManager.Memset` | lib/string/memset.c:3-8 | The byte loop computes the zeroing of `ZeroHeapBytes`, or faults where it faults. |
| `Vmm.MemoryManager.PageFrameAllocate` | kernel/memory.c:72-108 | Takes exactly the step of `HeapPageFrame`. |
| `Vmm.MemoryManager.HeapAllocate` | kernel/memory.c:183-204 | Takes exactly the step of `HeapAllocateRefines`, growth loop included. |
| `Vmm.MemoryManager.InitPageTableAllocator` | kernel/memory.c:114-128 | Maps the table area and then clears the bitmap, as written. |
| `Vmm.MemoryManager.InitPaging` | kernel/memory.c:302-331 | Ends with paging on, in the boot state of `InitPagingCorrect` for the written order. |
| `Tasks.ElapsedTimeExact` | kernel/timer.c:14-22 | Elapsed time is exact modulo 2^32 if and only if the counter has not wrapped, and one tick short otherwise. |
| `Tasks.FramePushed` | kernel/utility.asm:45-53 | The pushes leave a frame that resumes with the registers at the call, write only 24 bytes, and leave the argument where the stub reads it. |
| `Tasks.QueuesKept` | kernel/tasking.c:77-125 | Every step keeps both queues free of duplicates, disjoint, and together holding every task. |
| `Tasks.TasksKept` | kernel/tasking.c:148-176 | Every step keeps pids distinct, pid 0 live, and records and stacks in separate heap blocks. |
| `Tasks.OtherFramesKept` | kernel/tasking.c:137-142 | No step changes the saved frame of a task that is not running. |
| `TaskRuns.InvKept` | kernel/tasking.c:77-176 | The whole scheduler invariant is kept by every event. |
| `TaskRuns.RunsStayValid` | kernel/tasking.c:77-125 | Over every run: the invariant holds, terminated tasks stay terminated, in the order they ended and out of the ready list, and the switch to NULL is never taken. |
| `TaskRuns.NeverSwitchesToNull` | kernel/tasking.c:112-122 | A step panics exactly when the kernel task asks to be terminated, or when 4140 bytes of heap are not left for a new task. |
| `TaskRuns.RunningTaskUndisturbed` | kernel/timer.c:24-26 | Ticks, new tasks and a yield with no one to yield to leave the running task its registers, its record and its stack. |
| `TaskRuns.DeadStaysDead` | kernel/tasking.c:119-124 | The task that runs next was ready, so control never comes back to a terminated one. |
| `TaskRuns.YieldReturns` | kernel/tasking.c:77-89 | Whatever runs in between, a task that yields comes back with its ebx, esi, edi, ebp and esp and with its stack unchanged, at its return address. |
| `TaskRuns.StackKeptWhileAway` | kernel/tasking.c:137-142 | Over any run, the stack block of a task that is not running stays as it is, word for word. |
| `TaskRuns.ComputedThenYielded` | kernel/utility.asm:45-53 | What a task computed is what its frame and the stack above it hold once it has yielded. |
| `TaskRuns.SpawnedTaskEnters` | kernel/tasking.c:157-173 | The first time a new task runs it enters at `start_eip` on its own empty stack with zero registers. |
| `TaskRuns.BoundedWaiting` | kernel/tasking.c:77-122 | The task at place i of the ready list is at place i-n after n switches, so it runs after exactly i switches and not before. |
| `TaskRuns.YieldsRotate` | kernel/tasking.c:77-104 | With only yields, n switches rotate the list n places, and a full turn restores it. |
| `TaskTime.StepConservesTime` | kernel/tasking.c:128-133 | A switch charges the ticks since the last one to the task that ran, less one if the counter wrapped. |
| `TaskTime.RunConservesTime` | kernel/tasking.c:128-142 | Over every run the charged time differs from the last switch time by one tick per wrapped update, modulo 2^32. |
| `TaskTime.InitTaskingValid` | kernel/tasking.c:188-195 | The state in which the running code has become task 0 satisfies the invariant; the code keeps its registers and its stack, and only the 4140 bytes of the new task's blocks are written. |
| `TaskTime.RunCountsTicks` | kernel/timer.c:24-26 | Over every run the counter advances by the number of tick events, modulo 2^32, and by nothing else. |
| `TaskTime.LastTimeIsLastSwitch` | kernel/tasking.c:128-131 | `last_time` is the counter as it stood at the last switch of the run. |
| `TaskTime.TimeAddsUp` | kernel/tasking.c:128-142 | From `init_tasking` on, what all tasks were charged is the number of ticks that occurred up to the last switch, those before `init_tasking` included, less one for each wrapped update, modulo 2^32; so it is exact if and only if the number of wrapped updates is 0 modulo 2^32. |
| `TaskTime.TickLost` | kernel/timer.c:14-22 | A legal run from `init_tasking` on which the counter wraps between two switches: one tick is charged to nobody. |
| `Tasking.EnqueueTask` | kernel/tasking.c:92-104 | The new entry becomes the end of the head-to-tail segment; its link is cleared exactly when the list was not empty. |
| `Tasking.Scheduler.UpdateTime` | kernel/tasking.c:128-133 | The elapsed time goes to the current task and `last_time` becomes now. |
| `Tasking.Scheduler.SwitchToTaskStub` | kernel/utility.asm:45-74 | The pushes, the saved stack top, the load of the other task's stack and the pops amount to storing one frame and loading the other. |
| `Tasking.Scheduler.SwitchToTask` | kernel/tasking.c:137-142 | Time, pointers and stub together are the switch of the state machine. |
| `Tasking.Scheduler.Schedule` | kernel/tasking.c:77-89 | On the linked records, takes exactly the Yield step and keeps both lists well linked, disjoint and with the right state marks. |
| `Tasking.Scheduler.TerminateTask` | kernel/tasking.c:107-125 | On the linked records, takes exactly the Terminate step, or panics for its reason. |
| `Tasking.Scheduler.Spawn` | kernel/tasking.c:148-197 | Creating and enqueueing a task takes exactly the Spawn step, or panics for lack of heap. |
| `Tasking.Scheduler.CreateKernelTask` | kernel/tasking.c:148-176 | The record, the stack top and the entry address on a zeroed stack. |
| `TaskHeap.SpawnAllocates` | kernel/tasking.c:148-160 | The scheduler's flat heap is the kernel's: the two `halloc` calls return its two adjacent blocks, zeroed as read through the page tables, with older bytes kept, and overflow exactly when it has no room. |
| `Tasking.Scheduler.InitTasking` | kernel/tasking.c:188-195 | Ends in the start state of `InitTaskingValid`. |
| `Tasking.Scheduler.LegalMeansMaySwitch` | kernel/tasking.c:77-125 | In a reachable state a task that leaves room for a frame meets what `Schedule` and `TerminateTask` ask. |
| `Tasking.Scheduler.TimerCallback` | kernel/timer.c:24-26 | One tick, modulo 2^32, and nothing else: exactly the Tick step. |
| `Image.MakeInitrd` | initfs/make_initrd.py:8-16 | The loop writes the records of all files one after another and nothing else, byte for byte: four size bytes, lowest first, 128 name bytes padded with zeros, the contents. |
| `Machine.WordOfBytes` | initfs/make_initrd.py:13 | The four bytes of a word make it up again, the lowest first. |
| `Image.PackedFileParses` | kernel/filesystem.c:131-149 | A packed record parses to its file if the name has at most 127 bytes and the contents at most 256, and otherwise overruns the name or stops for lack of space. |
| `Image.ImageRoundTrip` | kernel/filesystem.c:127-151 | An image parses back to its files, in order and stopping at its end, if and only if every file fits. |
| `Files.StepRefinesPlain` | kernel/filesystem.c:201-269 | Each of seek, read and write does what a byte sequence with a cursor does, and stops exactly when that has no answer. |
| `Files.StepLeavesRest` | kernel/filesystem.c:201-269 | A call changes no byte of the buffer but those written, and each stop has the reason its panic gives. |
| `Files.OverrunExactly` | kernel/filesystem.c:208-247 | A call leaves its buffer exactly when the 32-bit sum of its bounds check wraps to an accepted value. |
| `Files.OverrunHappens` | kernel/filesystem.c:208-214 | A run that leaves the buffer: one byte written to a new file, then a read of 0xFFFFFFFF bytes. |
| `Files.RunRefinesPlain` | kernel/filesystem.c:33-61 | The same over every run; the size never shrinks and size and offset stay within the allocation. |
| `Files.WriteThenReadBack` | kernel/filesystem.c:173-187 | Write, seek back and read return the bytes written, and the rest of the file is untouched. |
| `Filesystem.Memcpy` | lib/string/memcpy.c:3-10 | Exactly the addressed stretch of the destination becomes the source's. |
| `Filesystem.Strcpy` | lib/string/strcpy.c:3-7 | Copies the string and its NUL, and stays inside both arrays exactly when the string ends and fits. |
| `Filesystem.FsNode.RamdiskRead` | kernel/filesystem.c:201-221 | Fills exactly the asked part of the destination and moves the offset, or stops as the file model does. |
| `Filesystem.FsNode.RamdiskWrite` | kernel/filesystem.c:226-253 | Changes buffer, size and offset as the file model does, or stops for the same reason. |
| `Filesystem.FsNode.RamdiskSeek` | kernel/filesystem.c:255-269 | Moves the offset within the allocation, or stops. |
| `Filesystem.FsRead` | kernel/filesystem.c:33-41 | Reads at the node's own offset and leaves the rest of the destination alone; a directory stops it. |
| `Filesystem.FsWrite` | kernel/filesystem.c:43-51 | Writes at the node's own offset; a directory stops it. |
| `Filesystem.FsSeek` | kernel/filesystem.c:53-61 | Seeks the node; a directory stops it. |
| `Filesystem.FsAddDirent` | kernel/filesystem.c:63-98 | The entry is appended at the end of the list and the size counts it; wrong node types stop it. |
| `Filesystem.FsConstructNode` | kernel/filesystem.c:100-125 | A node with the name found in memory and zeros behind it, which is an empty file of 256 zero bytes or an empty directory, or an overrun exactly when the name does not fit. |
| `Filesystem.ReadRamdisk` | kernel/filesystem.c:127-151 | The root lists exactly the parsed files, in order, each node as the write leaves it: padded name, contents and then zeros in 256 bytes, size and offset at the end of the contents. |
| `Decimal.Strlen` | lib/string/strlen.c:3-8 | The position of the first NUL. |
| `Decimal.Strrev` | lib/string/strrev.c:3-11 | The characters before the NUL are reversed in place and the rest is untouched. |
| `Decimal.NumeralUnique` | kernel/logger.c:94-119 | A number has one canonical numeral. |
| `Decimal.PrintSerialUnsignedDecimal` | kernel/logger.c:94-119 | For every 32-bit n the output is the canonical numeral of n in the characters 48 to 57, of at most ten digits; for 0 it is [48]. |

## Left out

- Vmm.MemoryManager.IdentityMapRange: asks for an end of at most 0xFFFFF000, because beyond it the 32-bit loop counter wraps and the loop does not end; both callers pass constants far below.
- Boot.InitPagingClearFirst: the exact mapped set assumes that page tables start with every present bit clear, since the code does not zero a table it hands out.
- Vmm.MemoryManager.ClearBitmap: clears the 32 words of the table bitmap; the code passes the size of the larger frame bitmap and so also zeroes the 7264 bytes behind it. The model assumes that nothing live lies there, which the source does not fix.
- Vmm.MemoryManager.InitPageTableAllocator: clears the table bitmap alone, for the same reason.
- Vmm.MemoryManager.PageFrameAllocate: asks for paging to be on, as its `memset` of a virtual address needs; what the heap does before `init_paging` is not modelled.
- Vmm.MemoryManager.HeapAllocate: asks for the same. `kmain` calls `init_filesystem`, which allocates, before `init_paging`, and stops there for now.
- Vmm.MemoryManager.Memset: models the value zero, the only one the kernel passes in memory.c.
- Filesystem.FsRead: does not return the count, which is always the size asked for; the same holds for `FsWrite`, and `FsSeek` and its position.
- Filesystem.Memcpy: takes two distinct arrays, as every caller passes a file's buffer and a buffer of its own.
- PagedMapper.PagedMapPageExact: the entry a call reads and writes is looked up in the tables each time; a translation still cached in the TLB is not modelled, nor are the kernel's code, stack and bitmaps becoming unmapped.
- Tasking.Scheduler.Halloc: takes the heap as the bump allocator that `HeapAllocateRefines` proves it to be, on a word-aligned heap top.
- Tasks.FramePushed: models word-aligned stacks.
- The page directory field of a task and the reload of CR3 in the stub: every task has the same directory, so the reload never happens.
- Task names, the blocked and waiting queues, and the parent pointer of a directory: nothing depends on them.
- The `read`, `write` and `seek` pointers of a node: `fs_construct_node` always sets them to the ramdisk functions.
- Exhaustion of the heap by file nodes: `kalloc` in the file system is taken to succeed.
- The self-test and dump in `init_filesystem`, `kmain`'s order of calls, and the demo tasks.
- Paging permissions, TLB invalidation, loading CR0 and CR3, and the body of the page-fault handler.
- Interrupt stubs, PIC, PIT, GDT, IDT, keyboard, serial port set-up and the terminal: hardware plumbing or bit packing that would only add easy members.
- All `logf` output except the decimal printer.
