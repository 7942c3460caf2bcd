# A verified model of the Learnix kernel's core

Learnix is a small 32-bit x86 teaching kernel. This project models the parts of it that hold state
and arithmetic worth proving things about, and proves what every run of them keeps.

`dafny verify dfyconfig.toml` checks everything.

## What is modelled

RAM is an array of 4 MB of bytes; words are little-endian; 32-bit arithmetic wraps where the code's
does. Each imperative part of the kernel is a class or a method over such arrays, proved equal to a
function on values, and the theorems are about those functions.

- **Heap** (`HeapList`, `HeapBytes`, `HeapModel`, `HeapRuns`, `Heap`). `heap.c` keeps 13-byte packed
  headers (`heap.h:11-16`) inside the memory it manages. `Rep` relates the bytes to a list of
  blocks; the class `Heap.Allocator` works on the bytes, the list gives the meaning.
- **Scheduler** (`Sched`, `SchedWait`, `SchedAccount`, `SchedFair`). The circular list is a sequence
  that starts at the current process: creation appends, and a switch to the process k places ahead
  rotates by k. Rings are unbounded.
- **Process table** (`Pcbs`, `Kernel`). PCBs are the 64 bytes of `process.h:24-34` in heap blocks,
  linked by their `next` words; `current_process`, `tick_count`, `scheduler_running`, `next_pid` and
  `heap_start_ptr` are words of kernel memory, wherever the linker has put them below the heap.
  `Stored` relates these bytes to the sequence; `Kernel.Table` loads and stores them.
- **Context switching** (`Frames`, `Processes`, `Capacity`, `Context`, `ContextRuns`, `MachineSched`,
  `System`, `Boot`). Process stacks are heap blocks, `irq0`'s pushes and pops are stores and loads on the bytes
  of RAM, and the machine is RAM and registers. Running code may write any byte except heap headers,
  PCBs, those five statics, a range for the kernel's instructions and descriptor tables, and the
  stacks of other processes, and must leave room on its own stack for the frame and the handlers.
- **FAT16 and ELF** (`FatSpec`, `FatNames`, `Fat16`, `Elf`). The disk gives for each logical block
  512 bytes or a read error.
- **Frame bitmap** (`Pmm`), **screen** (`Terminal`, `Vga`), **decimal text** (`DecimalText`, `Decimal`).

The first 37 rows of the table are the results. The rows after them are what the results rest on: the
value-level steps, and the code proved against them.

## Where the code departs from its comments

- `scheduler.c:58` writes READY over whatever state the process giving way had, so a process that
  called `process_exit` is scheduled again, against the comment at `process.c:96`.
  `Sched.DeadIsCurrent` shows that only the current process is ever DEAD, so `process_exit` lasts until
  the next switch and no longer; `Sched.DeadAfterTick` says exactly when a dead process stays dead through
  a tick, and `Sched.DeadRevives` is a two-process example in which it does not. A blocked process
  loses its state in the same way: `Sched.BlockedAfterTick`.
- The skip scan gives up after 16 places (`scheduler.c:47`) and then runs whoever is at the 17th,
  BLOCKED or not. `Sched.DispatchExact` says exactly when, for every state. A ring of more than 17 is
  not needed: the 17 places go round a small ring more than once, and the scan stops only at processes
  that can run, so it passes the current one if that is itself dead or blocked.
  `Sched.ExitAfterBlockOthers` follows this for a process that blocks the others and then exits, and
  `SchedFair.BlockedRunsFromBoot` is the kernel's own case: the shell calls `process_block_others`
  (`shell.c:106`) and on `exit` calls `process_exit` (`shell.c:220`); the next switch runs the blocked
  Task-A and makes the dead shell READY.
  (`Sched.ExitSwitches`: in every reachable state this happens unless the ring's size divides 17.)
  While the current process stays RUNNING it takes a ring of more than 17: `SchedWait.CaptureExact`,
  `SchedWait.CaptureBySize`.
- Rounding a request up to a multiple of 4 wraps above `0xFFFFFFFC` (`heap.c:31-32`), and the caller
  is handed a payload smaller than it asked for: `HeapModel.KmallocServesIff`, `HeapModel.KmallocHuge`.
- `fat16_read_file` never reads the FAT. `FatSpec.AgreeIffConsecutive` says when that is right: the
  sectors it reads are the file's if and only if every FAT entry it passes over links to the next
  cluster. `FatSpec.FragmentedRead` is a disk on which it goes wrong.
- The name converter undoes the lister exactly on well-formed 8.3 names: `FatNames.RoundTripIff`. A
  dot inside the name part is a whole family that cannot be typed (`FatNames.DotInName`,
  `FatNames.DotExample`).
- `int_to_str` of the smallest int is `"-"`, which reads back as 0: `DecimalText.RoundTrip` is an
  if-and-only-if.
- `PMM_FRAME_SIZE` is 262144 (`pmm.h:7`) although the comments say 4 KB; the model uses 262144.
- `char` is signed, so `vga_entry` of a byte above 127 sets all the colour bits: `Vga.VgaEntryCell`, `Terminal.CellColor`.

## Model

| member | source | states |
|---|---|---|
| `HeapRuns.RunGood` | heap.c:12-94 | every sequence of `kmalloc`, valid `kfree` and stores into live payloads keeps the heap well formed at byte level |
| `HeapRuns.RunKeepsPayload` | heap.c:27-94 | a payload that is neither freed nor stored to during a run keeps its place and every byte |
| `HeapRuns.AllFreedIsInitial` | heap.c:12-94 | after any run from `heap_init` in which everything was freed, in any order, the heap is again the one initial block, header bytes included |
| `HeapModel.KfreeKmalloc` | heap.c:27-94 | `kfree(kmalloc(n))` restores the block structure exactly and no other payload changes |
| `HeapList.MallocFirstFit` | heap.c:27-64 | when some free block is large enough, the one at the lowest address is used: it keeps its address and gets between n and n+16 bytes, every other block stays, and any remainder is a free block of at least 4 bytes |
| `ContextRuns.ReachableInv` | scheduler.c:71-93 | from any memory, after initialisation, any creations, the start and any run, memory represents the process table and every process but the current one has an intact frame in its own live stack block at the address its PCB holds |
| `ContextRuns.ResumesExactly` | isr.asm:37-66 | a preempted process resumes, after any run of others, with exactly the processor state it was preempted with |
| `ContextRuns.FirstTurn` | process.c:36-56 | a process created while others run begins, whenever it first becomes current, at its entry point with CS and segments 0x10, EFLAGS 0x202, zero general registers and its own empty stack |
| `Boot.KernelMain` | kernel.c:233-259 | initialisation, four creations, start and first timer interrupt, on any memory, end in exactly the state of that run of the machine, with its invariant |
| `Processes.CreateSucceeds` | process.c:16-81 | success appends one READY process with the next pid to what memory represents, with its name, two new live blocks that were not live before and an intact initial frame; of the old live payloads only the last PCB changes |
| `Capacity.HeapHolds63` | process.c:16-81 | of any n creations from boot exactly min(n, 63) succeed, leaving one free block of 1048563 - 16474 k bytes after them |
| `SchedWait.BoundedWaiting` | scheduler.c:31-65 | a process that stays READY at any ring distance becomes current within the current quantum's remainder plus the quanta strictly between, whatever is created, exits, blocks or unblocks meanwhile; asked of the state is only what every reachable state has |
| `MachineSched.ResumeFromBoot` | scheduler.c:31-65 | in every state of the machine reached from boot, each process that then waits READY becomes current within its waiting bound, counted in timer interrupts, whatever runs, is created, exits or is blocked meanwhile, and the processor then holds exactly the state it was parked with |
| `Sched.DeadIsCurrent` | process.c:87-98 | in every state reached from boot no process but the current one is DEAD, so an exit lasts until the next switch at most |
| `SchedFair.WeightedFairness` | scheduler.c:24-66 | after m times the sum of the quanta, the same process is current, states are the same, and each total has grown by exactly m times its quantum, as long as no total passes 2^32 on the way |
| `SchedFair.TurnsBalanced` | scheduler.c:24-66 | after any number of ticks the completed turns of any two processes differ by at most one, up to the round in which a total would pass 2^32 |
| `SchedAccount.ReachableAccounts` | scheduler.c:24-60 | from boot, in every state reached by fewer than 2^32 delivered ticks: tick count < current quantum, the current total is congruent to it modulo the quantum, every other total is a multiple of its quantum, and all totals sum to the ticks delivered since start |
| `SchedWait.CpuCapture` | process.c:200-228 | in a ring of at most 17, no run without creation, unblocking or exit takes the processor from the captor, and the active count stays 1 |
| `Sched.DispatchExact` | scheduler.c:46-60 | in any state, whoever is current: the end of a quantum switches to a BLOCKED process if and only if all of the next 16 places, counted round the ring, hold dead or blocked processes and the 17th is another process and blocked |
| `Sched.DeadAfterTick` | scheduler.c:57-60 | a dead process stays dead through a tick if and only if it is not the one giving way in a switch; if it does not, it becomes READY |
| `Sched.ExitAfterBlockOthers` | process.c:87-209 | after `process_block_others` and `process_exit` by the same process, when the tick switches in a ring of any size, to whom, and that it makes a BLOCKED process RUNNING and the DEAD one READY |
| `FatSpec.AgreeIffConsecutive` | fat16.c:159-174 | the chain has a sector for every piece of the file and the driver reads that sector, if and only if every FAT entry on the way is a link, and to the next cluster |
| `FatSpec.FileDataFollowsChain` | fat16.c:156-174 | what is delivered for a directory entry with a consecutive chain is what following the chain gives of its first min(file size, buffer size) bytes, up to the first unreadable sector, for every boot sector with at least one sector per cluster |
| `FatNames.RoundTripIff` | fat16.c:87-102 | converting the printed name of 11 directory bytes gives those 11 bytes back if and only if they are a well-formed 8.3 name |
| `FatNames.ListedIsFound` | fat16.c:69-153 | typing the printed name of a listed entry selects that entry if and only if its name is well formed and no live entry before it bears it |
| `FatNames.TypedIsFound` | shell.c:33-60 | typing the printed name of a listed, well-formed entry, first of its name, in upper or lower case selects that entry |
| `FatSpec.FileByte` | fat16.c:154-174 | byte j delivered for a directory entry is byte j mod 512 of sector FirstDataSector + (cluster - 2) * sectors per cluster + j div 512, with cluster and size from bytes 26-27 and 28-31 of the entry |
| `Elf.LoadedByte` | elf.c:113-145 | from the bytes of the file: an address holds, of the last PT_LOAD header to reach it, the file byte at p_offset plus the distance from p_vaddr below p_filesz, and zero from there to p_memsz |
| `Elf.OrderIrrelevant` | elf.c:113-145 | for disjoint segments every permutation of the headers gives the same memory |
| `Elf.LoadSegments` | elf.c:113-145 | the loops over headers and bytes leave memory equal at every address to the image that `Elf.LoadedByte` and `Elf.UnloadedByte` read off the file, and count the PT_LOAD headers |
| `Pmm.AllocCorrect` | pmm.c:70-84 | returns 0 exactly when no frame is free, which is exactly when the counter says so, and then changes nothing; otherwise the lowest free frame's address, below 2^31, with only that frame taken; bitmap and counter keep agreeing |
| `Pmm.RunAgrees` | pmm.c:22-98 | over every valid run, bitmap and counter agree, and the live frames are exactly those handed out and not given back |
| `Pmm.FramesAboveKernel` | pmm.c:22-84 | after `pmm_init` for a memory size and any valid run, every frame handed out lies at 2 MB or above and ends within that size |
| `Terminal.ScreenFromInit` | vga.c:21-85 | after `vga_init`, whatever the cells held, and any sequence of commands the screen is the window of the never-scrolling terminal given the same commands |
| `Terminal.PrintedOnScreen` | vga.c:75-79 | what printing shows, scrolling included: text on consecutive cells from the cursor, what stood before it kept, all moved up by the rows scrolled, the cursor just behind |
| `DecimalText.RoundTrip` | suma.c:57-105 | reading what was written gives n back if and only if n is not the smallest int |
| `DecimalText.ReadTyped` | suma.c:57-73 | what a user types is read right: blanks and tabs, an optional sign of which only minus negates, leading zeros, the digits of a number, and anything after them that is not a digit |
| `HeapList.RoundUp` | heap.c:30-32 | a multiple of 4 that is at least the size and less than size+4, except above 0xFFFFFFFC, where it wraps to 0 |
| `HeapList.MallocFailsIff` | heap.c:27-64 | allocation changes nothing if and only if no free block is large enough |
| `HeapList.CarveWellFormed` | heap.c:40-58 | allocation keeps the blocks tiling the heap exactly and no two neighbours both free |
| `HeapList.FreeWellFormed` | heap.c:71-94 | freeing any block in use keeps the blocks tiling the heap exactly and no two neighbours both free |
| `HeapList.FreeMalloc` | heap.c:27-94 | freeing what was just allocated gives back the same list of blocks, split or not |
| `HeapList.FreeAtMostUsedPlusOne` | heap.c:71-94 | with no two neighbours free there is at most one more free block than used ones, and no more than used ones if the last is used |
| `HeapList.NothingUsedIsInitial` | heap.c:12-94 | a well-formed heap with nothing in use is the initial single block |
| `HeapBytes.InitRep` | heap.c:12-20 | after `heap_init` the bytes represent one free block over the whole 1 MB, and only its header was written |
| `HeapBytes.CarveRep` | heap.c:40-58 | taking or splitting a block by patching header fields leaves bytes that represent the list with that block replaced by its pieces, every `next`/`prev` link right, and writes nothing outside headers |
| `HeapBytes.AbsorbRep` | heap.c:80-93 | unlinking a free block into its free left neighbour represents the merged list, links and all, and writes only headers |
| `HeapBytes.FreeRep` | heap.c:71-94 | the byte writes of `kfree`, reading `prev` after the first merge, represent the list operation and write only headers |
| `HeapBytes.HeaderFields` | heap.h:7-16 | in a represented heap each block has size at 0, used at 4, next at 5 and prev at 9 of its 13-byte header, next and prev by address, and the blocks tile 0x200000 to 0x300000 |
| `HeapModel.PayloadsDisjoint` | heap.c:27-64 | live payloads lie inside the heap, touch no header and do not overlap each other |
| `HeapModel.PayloadWrite` | heap.h:11-16 | writing inside one live payload keeps the heap well formed and every other payload's bytes |
| `HeapModel.KmallocCorrect` | heap.c:27-64 | `kmalloc` keeps the heap well formed; returns 0 exactly for size 0 or when nothing fits, and then changes no byte; otherwise a pointer that was not live, owning the rounded size up to 16 more; all live payloads keep their place and bytes, and nothing else becomes live |
| `HeapModel.KmallocServesIff` | heap.c:30-32 | a non-null result holds the size asked for if and only if that is at most 0xFFFFFFFC |
| `HeapModel.KfreeCorrect` | heap.c:71-94 | `kfree` of a live pointer makes exactly that pointer dead; every other payload keeps its place, size and bytes; the heap stays well formed |
| `HeapModel.KmallocHuge` | heap.c:30-32 | a request for 0xFFFFFFFF bytes on a fresh heap is granted, at the first payload |
| `HeapModel.KmallocInside` | heap.c:27-64 | `kmalloc` writes nothing outside the heap |
| `HeapModel.KfreeInside` | heap.c:71-94 | `kfree` writes nothing outside the heap |
| `HeapRuns.OutstandingIsLive` | heap.c:27-94 | the live pointers after any run are exactly those handed out and not given back |
| `HeapRuns.ReachableFragmentation` | heap.c:12-94 | in every reachable heap, free blocks number at most used blocks plus one |
| `Heap.Allocator.Init` | heap.c:12-20 | stores `heap_start_ptr` and brings the bytes to the initial heap state |
| `Heap.Allocator.Kmalloc` | heap.c:27-64 | the walk from `heap_start_ptr` over the headers' `next` words finds the first fit of the abstract list; new bytes and pointer are those of the model |
| `Heap.Allocator.Split` | heap.c:41-55 | the six field stores of a split, and the back link of the block after |
| `Heap.Allocator.Kfree` | heap.c:71-94 | null is ignored; a live pointer gives the model's freed heap |
| `Heap.Allocator.Absorb` | heap.c:80-93 | one merge: sizes added, the block unlinked from both sides |
| `Sched.PickNoFurther` | scheduler.c:41-51 | the skip scan never passes a process that could run within 17 places, and then stops at one that can |
| `Sched.TickSwitch` | scheduler.c:24-66 | a switch, position by position round the ring: who is current, every state, counter and saved stack pointer, and the pointer handed back |
| `Sched.TickStay` | scheduler.c:24-66 | a tick without a switch charges the current process and touches nobody else |
| `Sched.DispatchSafety` | scheduler.c:46-55 | a dead process is never switched to, and a blocked one only if every other process within 17 places is dead or blocked |
| `Sched.RunOneRunning` | scheduler.c:57-60 | in every run, no process but the current one is ever RUNNING |
| `Sched.DeadRevives` | process.c:87-98 | a concrete ring in which one tick turns a dead process READY |
| `Sched.PickExact` | scheduler.c:41-51 | whom the skip scan stops at, for every ring: the first of the 16 next places, counted round the ring, that holds a process it need not skip, or else whoever is at the 17th |
| `Sched.BlockedAfterTick` | scheduler.c:57-60 | a BLOCKED process stays BLOCKED through a tick if and only if it neither gives way in a switch, which makes it READY, nor is the one the scan stopped at, which makes it RUNNING |
| `Sched.PickBefore` | scheduler.c:41-51 | with nobody else dead, the skip scan stops no later than the first process that could run, at any distance |
| `Sched.ExitSwitches` | process.c:87-209 | in every reachable state, after `process_block_others` and `process_exit` the end of the quantum switches if and only if the ring's size does not divide 17 |
| `SchedWait.TickShortensWait` | scheduler.c:31-65 | each tick brings a process that waits READY, at any distance, strictly nearer to its turn |
| `SchedWait.BlockOthersCaptures` | process.c:200-209 | after `process_block_others` by a RUNNING process everyone else is blocked or dead and the caller is untouched |
| `SchedWait.CaptureExact` | scheduler.c:45-55 | while the current process is RUNNING and everyone else blocked or dead, the end of its quantum switches if and only if the ring exceeds 17 and the process 17 places ahead is blocked |
| `SchedWait.ReachableWaits` | scheduler.c:24-83 | in every state reached from boot only the current process can be DEAD, and once the scheduler runs the tick count is below the current quantum: what bounded waiting asks |
| `SchedWait.CaptureBySize` | scheduler.c:45-55 | in every reachable state with the current process RUNNING and everyone else blocked, the end of its quantum switches if and only if the ring exceeds 17 |
| `SchedAccount.TickAccounts` | scheduler.c:24-60 | one tick keeps the books: the tick count is below the current quantum, others have whole turns only, totals sum to ticks delivered |
| `SchedFair.FairRun` | scheduler.c:24-66 | with everyone active, every state of a run is the one a round-robin clock of rounds, turns and used ticks predicts |
| `SchedFair.BlockedRunsFromBoot` | shell.c:106-220 | the kernel's own run: four creations, start, 54 ticks, the shell blocks the others and exits; the next tick runs the blocked Task-A and makes the dead shell READY |
| `Pcbs.TickBytesStored` | scheduler.c:24-66 | the stores of a tick turn a memory that represents a process table into one that represents the table after the tick, and touch only PCBs of the ring and the statics |
| `Pcbs.ControlStored` | process.c:87-209 | the stores of exit, block, unblock, block_others and start turn a memory that represents a process table into one that represents the table after that call, and touch only PCBs of the ring and the statics |
| `Pcbs.InsertStored` | process.c:58-67 | storing the link words of a filled PCB appends it to the represented ring, all PCBs still on one cycle |
| `Pcbs.StoredSame` | process.h:24-34 | whoever leaves PCB bytes and statics alone leaves the represented table as it is |
| `Pcbs.InitStored` | process.c:9-14 | after initialisation memory represents the empty table |
| `Pcbs.PcbFields` | process.h:6-34 | where a represented process table has each field of a process, its state as 0 to 3, and the address of the process after it |
| `Kernel.Table.Scan` | scheduler.c:41-51 | the walk over `next` words stops at the process the sequence model picks |
| `Kernel.Table.SwitchTo` | scheduler.c:57-60 | both state words and `current_process`, as stores; memory then represents the rotated ring |
| `Kernel.Table.Tick` | scheduler.c:24-66 | `scheduler_tick`, loading and storing PCB words and statics, is the model's tick on what memory represents, returned stack pointer included; exactly which bytes it stores |
| `Kernel.Table.Start` | scheduler.c:71-83 | marks the current process RUNNING, turns the scheduler on, and yields that process's stack pointer; nothing if there is none; as stores and as what memory represents |
| `Kernel.Table.Exit` | process.c:87-89 | only the current process becomes DEAD; as stores and as what memory represents |
| `Kernel.Table.Block` | process.c:103-105 | only the named process becomes BLOCKED; null is ignored; as stores and as what memory represents |
| `Kernel.Table.Unblock` | process.c:107-109 | only the named process becomes READY; null is ignored; as stores and as what memory represents |
| `Kernel.Table.BlockOthers` | process.c:200-209 | the traversal terminates, having blocked exactly the others that are not dead; as stores and as what memory represents |
| `Kernel.Table.CountAlive` | process.c:182-193 | the size of the set of processes that are not dead |
| `Kernel.Table.CountActive` | process.c:216-228 | the size of the set of READY or RUNNING processes |
| `Kernel.Table.Insert` | process.c:58-67 | the tail search over `next` words terminates; the new PCB stands last, just behind the current one, on the same single cycle |
| `Kernel.Table.Init` | process.c:9-14 | `process_init` and `scheduler_init` leave memory representing the empty table, pid counter 1, scheduler off |
| `Kernel.Table.Fill` | process.c:25-33 | the stores into the new PCB and `next_pid`, name bytes included |
| `Frames.PopPush` | isr.asm:37-66 | popping what was pushed gives it back in reverse order |
| `Frames.RestoreSaved` | isr.asm:37-66 | the pops of `irq0` restore every register, EIP, CS, EFLAGS and the stack pointer that the interrupt and its pushes saved |
| `Frames.RestoreInitial` | process.c:35-56 | `irq0`'s pops on the frame `process_create` builds start the entry point with CS and segments 0x10, EFLAGS 0x202, zero registers and an empty stack |
| `Frames.SavedLayout` | isr.asm:37-42 | what lies where on the stack once the interrupt has been taken and the registers pushed |
| `Frames.RestoreLayout` | isr.asm:61-66 | at which offset the pops and `iret` find each register, and that the stack pointer ends 60 bytes on |
| `Processes.CreateFails` | process.c:16-81 | a failed creation leaves table, block list, every live payload and all memory outside the heap as they were, also through the null stack pointer stored in the PCB and the `kfree` rollback |
| `Processes.FilledBytes` | process.c:21-56 | before insertion the PCB holds all its fields and the name, the stack the initial frame, and nothing else but `next_pid` has been written |
| `Processes.TableWrite` | process.h:24-34 | stores into PCBs and statics leave the heap well formed and every stack as it is |
| `Processes.CreatedFields` | process.c:25-33 | a created process is READY with no ticks, quantum 5 times its priority, and its name whole up to 31 bytes at offset 20 with a NUL behind |
| `Capacity.CreateShape` | process.c:17-22 | with k processes made from boot, creation succeeds if and only if k < 63, and leaves the exact block list |
| `Context.InterruptCpu` | isr.asm:37-66 | the processor after an interrupt is what the process that is now current was saved with, or the interrupted state itself if there was no switch |
| `Context.InterruptMemory` | isr.asm:37-66 | pushing the frame, the handlers and the tick leave the heap well formed, the table the one after the tick, the frame intact and every other process's stack unchanged |
| `Context.NewProcessInv` | process.c:16-81 | creation keeps the machine invariant, before and after the scheduler starts |
| `Context.StepInv` | process.c:87-209 | execution that leaves headers, PCBs, statics, kernel code and other stacks alone, interrupts, creation, exit, blocking and unblocking all keep heap, process table in memory and every parked frame |
| `ContextRuns.RunInv` | isr.asm:37-66 | every run of execution, interrupts, creation and control keeps heap, process table in memory and every parked frame |
| `ContextRuns.StartInv` | scheduler.c:71-93 | `scheduler_start` on a memory of parked processes establishes the running invariant and loads the first process's initial state |
| `ContextRuns.FirstTurnFromStart` | scheduler.c:71-93 | a process created before the start begins, whether it is the first to run or runs later, in exactly its initial state |
| `ContextRuns.BootConsistent` | kernel.c:144-234 | initialisation of heap, process table and scheduler on any memory establishes the invariant |
| `System.PushInitialFrame` | process.c:36-56 | the fifteen stores through the decremented pointer write exactly the initial frame |
| `System.PushContext` | isr.asm:38-42 | the interrupt's and `irq0`'s pushes write exactly the saved frame |
| `System.PopContext` | isr.asm:61-66 | the pops and `iret` load exactly the processor state of the frame |
| `System.Machine.constructor` | kernel.c:144-234 | `heap_init`, `process_init` and `scheduler_init` reach the model's boot state, from which processes can be created |
| `System.Machine.AllocateBlocks` | process.c:18-22 | two allocations or none, the store of the stack pointer in between, with the rollback |
| `System.Machine.Build` | process.c:25-67 | filling, frame, saved stack pointer and insertion, as exactly the model's bytes |
| `System.Machine.Create` | process.c:16-81 | `process_create` on memory: heap, table and result are those of the model |
| `System.Machine.ProcessCreate` | process.c:16-81 | `process_create` is a step of the machine and keeps its invariant, before the start and afterwards |
| `System.Machine.SchedulerStart` | scheduler.c:71-93 | the start on memory and registers is the model's start and reaches the running invariant |
| `System.Machine.Irq0` | isr.asm:37-66 | the whole handler on memory and registers is one step of the machine, and keeps its invariant |
| `System.Machine.ProcessExit` | process.c:87-89 | `process_exit` is a step of the machine and keeps its invariant |
| `System.Machine.ProcessBlock` | process.c:103-105 | `process_block` of a process of the ring is a step of the machine and keeps its invariant |
| `System.Machine.ProcessUnblock` | process.c:107-109 | `process_unblock` of a process of the ring is a step of the machine and keeps its invariant |
| `System.Machine.ProcessBlockOthers` | process.c:200-209 | `process_block_others` is a step of the machine and keeps its invariant |
| `System.PushAd` | isr.asm:38 | `pushad` writes its eight words of the saved frame |
| `Boot.OneMore` | process.c:16-81 | as long as fewer than 63 processes exist, creation is allowed and succeeds |
| `Boot.CreateFour` | kernel.c:241-244 | the four calls, in order, are that run of the machine and leave quanta 20, 10, 5 and 20 |
| `MachineSched.RunEvents` | scheduler.c:24-66 | the process table of every run of the machine is that of the scheduler on the run's events, so the theorems on scheduler runs hold of machine runs |
| `MachineSched.BoundedResume` | scheduler.c:31-65 | a process that waits READY at any distance becomes current within the waiting bound, counted in timer interrupts, and the processor then holds exactly the state it was parked with |
| `MachineSched.ReachableMachine` | scheduler.c:24-93 | every state of the machine reached from initialisation, creations, start and any run has parked frames, a tick count below the current quantum and no DEAD process but the current one |
| `FatSpec.GeometrySpec` | fat16.c:34-38 | with 512-byte sectors, the data start and each cluster's first sector are the specification's FirstDataSector and FirstSectorofCluster ("FAT Data Structure" in Microsoft's FAT specification, fatgen103) |
| `FatSpec.LookupSpec` | fat16.c:128-153 | the entry selected is the first live one with those 11 bytes that can be read before the end marker; none is selected if and only if there is none |
| `FatSpec.ContiguousFollowsChain` | fat16.c:156-174 | if the file's chain is consecutive, reading on from any piece gives the bytes that following the FAT sector by sector gives, read errors included |
| `FatSpec.DriverSectorExact` | fat16.c:156-174 | for clusters from 2 the wrapping sector arithmetic gives the sector meant |
| `FatSpec.ContiguousByte` | fat16.c:163-174 | byte j of the file is byte j mod 512 of the (j div 512)-th sector from its start |
| `FatSpec.ContiguousFull` | fat16.c:163-174 | without read errors exactly the size asked for is read |
| `FatSpec.DeliveredByte` | fat16.c:156-174 | byte j delivered is byte j mod 512 of the sector the FAT gives for piece j div 512 |
| `FatSpec.FragmentedRead` | fat16.c:159-174 | a disk with a two-cluster fragmented file on which driver and chain give different bytes |
| `FatSpec.FileDataFull` | fat16.c:156-174 | the length delivered for a directory entry is min(file size, buffer size) when every sector of it can be read |
| `FatSpec.RootRegion` | fat16.c:34-38 | from the bytes of the boot sector: the FAT starts behind the reserved sectors, the directory scan reads from FirstRootDirSecNum up to FirstDataSector, and entry l is the 32 bytes the specification puts there |
| `FatSpec.FatEntryBytes` | fat16.c:34-38 | the FAT entry of cluster c is the two bytes at offset 2c of the table behind the reserved sectors |
| `FatNames.WellFormedRoundTrip` | shell.c:33-60 | the converter gives back the 11 bytes of every well-formed 8.3 name from its printed text |
| `FatNames.DotInName` | shell.c:40-48 | a dot printed from the name field is always taken for the separator |
| `FatNames.ListedIff` | fat16.c:69-111 | exactly the live files, neither volume label nor directory, before the end marker and the first unreadable sector are listed |
| `FatNames.DotExample` | shell.c:40-48 | the entry "A.B" without extension, which is looked up as name A, extension B |
| `FatNames.TypedInAnyCase` | shell.c:33-60 | a well-formed 8.3 name is converted to its 11 bytes however its letters are typed, in upper or lower case |
| `FatNames.ToFatBytes` | shell.c:33-60 | what the converter makes of every string, byte by byte: letters a to z capitalised by subtracting 32, the name cut at 8, the extension after the first dot cut at 3, spaces elsewhere |
| `FatNames.ListedBytes` | fat16.c:69-111 | the lines listed are those of the reachable 32-byte entries on disk that are neither deleted nor volume label nor directory, with name, size and cluster from bytes 0-10, 28-31 and 26-27 |
| `FatNames.CharsPrinted` | fat16.c:87-102 | printing a name field stops at its first space and shows nothing for a NUL |
| `Fat16.Volume.Init` | fat16.c:15-54 | mounts exactly when sector 0 can be read, with the positions that `FatSpec.RootRegion` and `FatSpec.GeometrySpec` tie to its bytes; otherwise changes nothing |
| `Fat16.Volume.ListRoot` | fat16.c:60-117 | the nested loops produce exactly the specified listing |
| `Fat16.Volume.ReadFile` | fat16.c:123-178 | -1 with the buffer untouched if no entry is selected; otherwise the number of bytes of file data, those bytes at the front of the buffer and the rest of it unchanged |
| `Fat16.Volume.FindEntry` | fat16.c:128-153 | the nested scan finds the selected entry or reports there is none |
| `Fat16.Volume.CopySectors` | fat16.c:163-174 | the copy loop delivers the contiguous data up to the first read error and leaves the rest of the buffer |
| `Fat16.ToFatName` | shell.c:33-60 | the loops write the converted name, byte by byte as in `FatNames.ToFatBytes`, and a NUL, and nothing beyond |
| `Fat16.ExtensionTo` | shell.c:51-58 | the extension loop puts up to three characters, letters capitalised, into the three extension bytes and touches nothing else |
| `Elf.UncoveredStays` | elf.c:113-145 | an address in no PT_LOAD segment keeps its byte |
| `Elf.LastCoverDecides` | elf.c:113-145 | an address holds what the last segment covering it says: the file's byte below `p_filesz`, zero up to `p_memsz` ("Program Header" in the TIS ELF specification) |
| `Elf.LoadKeepsHeap` | user.ld:5 | segments linked at or above 0x300000 keep the heap well formed and every live payload's bytes |
| `Elf.Verify` | elf.c:15-55 | accepts exactly the files that start with 7F E L F, class 1, data 1, e_type 2 and e_machine 3 |
| `Elf.CopySegment` | elf.c:134-142 | the copy and zero loops: what the segment says where it covers, the old byte elsewhere |
| `Elf.Load` | elf.c:93-145 | fails with memory untouched when the file is missing or its header is refused; otherwise memory is the image of the file just read, byte by byte as in `Elf.LoadedByte` |
| `Elf.LoadAllowed` | user.ld:5 | loading a program linked at or above 0x300000 is an allowed action of running code, so it keeps the process table, every parked frame and the heap |
| `Elf.UnloadedByte` | elf.c:113-145 | an address no PT_LOAD header of the file reaches keeps its byte |
| `Pmm.SetFrameFree` | pmm.c:79 | setting a bit removes exactly that frame from the free set |
| `Pmm.ClearFrameFree` | pmm.c:94 | clearing a bit adds exactly that frame |
| `Pmm.ReleaseCorrect` | pmm.c:90-98 | freeing a live address adds exactly its frame to the free set and keeps bitmap and counter agreeing |
| `Pmm.ReleaseAlloc` | pmm.c:70-98 | freeing the frame just allocated restores bitmap and counter exactly |
| `Pmm.Allocator.Init` | pmm.c:22-44 | leaves free exactly the frames from 8 to the end of memory, below 8192, with the counter agreeing |
| `Pmm.Allocator.FindFree` | pmm.c:51-63 | the word and bit loops find the lowest free frame, or -1 |
| `Pmm.Allocator.AllocFrame` | pmm.c:70-84 | on words and counter in place, the model's allocation |
| `Pmm.Allocator.FreeFrame` | pmm.c:90-98 | on words and counter in place, the model's release |
| `Pmm.Allocator.FreeFrames` | pmm.c:104-106 | the counter difference is the number of free frames |
| `Pmm.FirstFrame` | pmm.c:22-84 | the first frame handed out after `pmm_init` is the one at 0x200000, if memory reaches beyond it |
| `Terminal.TypeWindow` | vga.c:39-73 | one character on the screen is one character on a tape that never scrolls, seen through its last 50 rows |
| `Terminal.ObeyWindow` | vga.c:26-85 | one command (character, colour, clear, cursor move) on the screen is the same command on a tape that never scrolls, seen through its last 50 rows |
| `Terminal.ScreenIsWindow` | vga.c:26-85 | from any tape, after any sequence of commands each cell equals the tape's cell offset by the scroll count, with the cursor in 80x50 |
| `Terminal.ScrolledIsFinal` | vga.c:39-50 | rows that scrolled away never change and never return |
| `Terminal.TypePlain` | vga.c:52-73 | a printing character writes exactly the cell at the cursor, as `vga_entry` makes it, and moves one cell on, over line ends |
| `Terminal.TypeControl` | vga.c:52-59 | newline, return and tab write no cell; where each moves the cursor |
| `Terminal.PrintedText` | vga.c:75-79 | printed text stands on consecutive cells from the cursor, and what was before it stays |
| `Terminal.TapeOfWindow` | vga.c:39-50 | every screen with its cursor in range is the window of a tape |
| `Terminal.CellColor` | vga.c:12-14 | a cell shows its character in the current colour if and only if the character is ASCII or that colour is 0xFF |
| `Terminal.ClearedCells` | vga.c:26-32 | after clearing each of the 4000 cells is 0x20 plus 256 times the colour and the cursor is home |
| `Terminal.PrintedCell` | vga.c:39-73 | a printing character goes to cell 80 y + x, the cursor to the next column or row of 80 by 50, and from the last cell everything moves up by 80 cells above a blank row |
| `Vga.Display.Init` | vga.c:21-24 | a blank light-green screen with the cursor home |
| `Vga.Display.ClearAll` | vga.c:26-32 | blanks in the current colour, cursor home |
| `Vga.Display.SetColor` | vga.c:34-36 | the colour byte is `vga_color` of the two, for 4-bit colours foreground plus 16 times background, and nothing else changes |
| `Vga.Display.ScrollUp` | vga.c:39-50 | the in-place copy drops the first row and appends a blank one |
| `Vga.Display.PutChar` | vga.c:52-73 | on the cell array, the model's character step |
| `Vga.Display.Print` | vga.c:75-79 | one character step per byte, in order |
| `Vga.Display.PrintAt` | vga.c:81-85 | a cursor move, then one character step per byte, in order |
| `Vga.VgaColorHalves` | vga.c:17-19 | shifting and or-ing two 4-bit colours is foreground plus 16 times background |
| `Vga.VgaEntryCell` | vga.c:12-14 | sign extension, shift and or of `vga_entry` give character plus 256 times colour for ASCII, and 0xFF00 plus the byte above 127 |
| `DecimalText.ValueDigits` | suma.c:87-94 | the digits written for n have value n |
| `DecimalText.NoOverflow` | suma.c:68-71 | reading those digits, no intermediate value exceeds n, so nothing wraps |
| `DecimalText.TextFits` | suma.c:79-105 | the text has 1 to 11 characters, so 12 bytes hold it with its NUL |
| `DecimalText.TextInjective` | suma.c:79-105 | different ints, the smallest aside, have different texts |
| `DecimalText.TextCharacters` | suma.c:79-105 | the characters written: digits from 48, the units last, a leading 45 for negative numbers, 48 alone for zero |
| `Decimal.StrToInt` | suma.c:57-73 | the loops compute the value of the blanks, sign and digits prefix, which `DecimalText.ReadTyped` states for what users type |
| `Decimal.IntToStr` | suma.c:79-105 | the buffer ends up holding the text and a NUL, untouched beyond 12 bytes |
| `Decimal.ReverseInPlace` | suma.c:99-104 | the swaps reverse the prefix and leave the rest |
| `Decimal.WriteThenRead` | suma.c:57-105 | `str_to_int` of the buffer `int_to_str` filled is the number |
| `Decimal.PrintInt` | vga.c:88-107 | what `vga_print_int` shows is the text `int_to_str` writes |
| `Decimal.WriteBackwards` | suma.c:89-97 | digits, sign and NUL: the text of the number, last character first |

## Left out

- Heap.Allocator.Kfree: freeing a pointer that is not live is outside the contract (`heap.c` would read a header that is not there).
- HeapRuns.RunGood: runs store only into live payloads; a program writing over a header is outside the contract.
- Context.StepInv: running code that writes over the process table, the statics or another stack is outside the contract; the kernel has no memory protection against it.
- System.Machine.ProcessCreate: one step with respect to ticks, although `process.c:65-66` links the new PCB before setting its `next`; the pid counter does not pass 2^32. The name is a C string given as a value.
- System.Machine.Irq0: what the handlers called by `irq0` leave below the frame is arbitrary bytes; the end-of-interrupt port write and the count in `timer.c` are dropped. Segment registers are pushed zero-extended.
- ContextRuns.ReachableInv: interrupts before `scheduler_start`, on the boot stack, return to where they were and are not part of the run.
- Kernel.Table.Exit: `process_exit` up to its halt loop, which is running code like any other.
- SchedAccount.ReachableAccounts: assumes priorities of at least 1 and fewer than 2^32 ticks; the counters wrap after that.
- SchedFair.TurnsBalanced: ends with the round in which some `ticks_total` would pass 2^32.
- System.Machine.ProcessBlockOthers: one step with respect to ticks, although `shell.c:106` calls it with interrupts enabled.
- Fat16.Volume.ReadFile: `max_size` below 2^31, since the count is returned as a signed int; a sector reads the same each time.
- Fat16.Volume.ListRoot: gives the listing as a value; the size is the unsigned field, not its signed decimal text.
- FatSpec.FileDataFollowsChain: first clusters from 2 on and at least one sector per cluster, as the FAT specification demands.
- Elf.LoadSegments: `elf_buffer` is an array apart from RAM, so segments are assumed not to overlap it.
- Elf.Load: ends at `elf.c:145`. Jumping into the program (`elf.c:147`) and the process made for it afterwards run foreign code. Offsets that reach outside the file buffer or RAM are outside the contract, since the code checks none; `e_phentsize` is ignored as in the code.
- Pmm.Allocator.FreeFrame: freeing an address that is not allocated, in particular 0, is outside the contract.
- Vga.Display.PrintAt: positions outside 80x50 are outside the contract, as the code would write outside the screen.
- Loops that stand inline in one C function are methods of their own here, so that each has its own contract; local C buffers are values where nothing points into them.
- Messages that modelled functions print on the way are dropped.
- ATA ports, PIT, PIC, IDT, keyboard: device input and output.
- The shell loop, syscall dispatch, the rest of `kernel_main` and the report printers: user interface.
- `context_switch.asm`: not on the path of `irq0`.
- `paging.c`, `memory.c`, `boot.asm`, `memory_map.asm`: straight-line hardware set-up.
