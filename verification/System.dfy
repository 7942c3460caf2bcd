/** The code that joins heap, process table and processor: process_create, scheduler_start and irq0,
    as they run on one physical memory. */
module System {
  import opened Bytes
  import opened HeapList
  import opened HeapBytes
  import HeapModel
  import opened Frames
  import Sched
  import opened Pcbs
  import opened Processes
  import Context
  import ContextRuns
  import Heap
  import opened Kernel

  /** The push of word i of an instruction sequence that pushes ws. */
  method Push(mem: array<byte>, sp: uint32, v: uint32, ghost ws: seq<uint32>, ghost i: nat) returns (sp': uint32)
    requires 4 <= sp <= mem.Length && i < |ws| && ws[i] == v
    modifies mem
    ensures sp' == sp - 4
    ensures PushAll(mem[..], sp', ws[i + 1..]) == PushAll(old(mem[..]), sp, ws[i..])
  {
    hide PutWord;
    assert ws[i..][1..] == ws[i + 1..];
    sp' := sp - 4;
    Store32(mem, sp', v);
  }

  /** Lines 36 to 56 of process.c: the initial frame, word by word from the top of the stack. */
  method PushInitialFrame(mem: array<byte>, top: uint32, entry: uint32) returns (sp: uint32)
    requires FRAME_BYTES <= top <= mem.Length
    modifies mem
    ensures sp == top - FRAME_BYTES
    ensures mem[..] == PushAll(old(mem[..]), top, InitialWords(entry))
  {
    hide PushAll, PutWord;
    ghost var ws := InitialWords(entry);
    assert ws[0..] == ws;
    sp := Push(mem, top, 0x202, ws, 0);
    sp := Push(mem, sp, 0x10, ws, 1);
    sp := Push(mem, sp, entry, ws, 2);
    for i := 0 to 8
      invariant sp == top - 12 - 4 * i
      invariant PushAll(mem[..], sp, ws[3 + i..]) == PushAll(old(mem[..]), top, ws)
    {
      sp := Push(mem, sp, 0, ws, 3 + i);
    }
    for i := 0 to 4
      invariant sp == top - 44 - 4 * i
      invariant PushAll(mem[..], sp, ws[11 + i..]) == PushAll(old(mem[..]), top, ws)
    {
      sp := Push(mem, sp, 0x10, ws, 11 + i);
    }
    PushNothing(mem[..], sp, ws[15..]);
  }

  lemma PushNothing(m: Mem, sp: int, ws: seq<uint32>)
    requires ws == []
    ensures PushAll(m, sp, ws) == m
  {
  }

  lemma SavedAt(c: Cpu)
    ensures var ws := SavedWords(c);
      && ws[0] == c.eflags && ws[1] == c.cs && ws[2] == c.eip
      && ws[3] == c.eax && ws[4] == c.ecx && ws[5] == c.edx && ws[6] == c.ebx && ws[7] == Wrap32(c.esp - 12)
      && ws[8] == c.ebp && ws[9] == c.esi && ws[10] == c.edi
      && ws[11] == c.ds && ws[12] == c.es && ws[13] == c.fs && ws[14] == c.gs
  {
  }

  /** pushad, whose stack-pointer word is the pointer it found. */
  method PushAd(mem: array<byte>, found: uint32, c: Cpu) returns (sp: uint32)
    requires 32 <= found <= mem.Length && found == c.esp - 12
    modifies mem
    ensures sp == found - 32
    ensures PushAll(mem[..], sp, SavedWords(c)[11..]) == PushAll(old(mem[..]), found, SavedWords(c)[3..])
  {
    hide PushAll, PutWord, SavedWords;
    ghost var ws := SavedWords(c);
    SavedAt(c);
    sp := Push(mem, found, c.eax, ws, 3);
    sp := Push(mem, sp, c.ecx, ws, 4);
    sp := Push(mem, sp, c.edx, ws, 5);
    sp := Push(mem, sp, c.ebx, ws, 6);
    sp := Push(mem, sp, found, ws, 7);
    sp := Push(mem, sp, c.ebp, ws, 8);
    sp := Push(mem, sp, c.esi, ws, 9);
    sp := Push(mem, sp, c.edi, ws, 10);
  }

  /** The pushes of a timer interrupt: by the processor, by pushad and by irq0, in that order. */
  method PushContext(mem: array<byte>, c: Cpu) returns (sp: uint32)
    requires FRAME_BYTES <= c.esp <= mem.Length
    modifies mem
    ensures sp == c.esp - FRAME_BYTES
    ensures mem[..] == PushAll(old(mem[..]), c.esp, SavedWords(c))
  {
    hide PushAll, PutWord, SavedWords;
    ghost var ws := SavedWords(c);
    SavedAt(c);
    assert ws[0..] == ws;
    sp := Push(mem, c.esp, c.eflags, ws, 0);
    sp := Push(mem, sp, c.cs, ws, 1);
    sp := Push(mem, sp, c.eip, ws, 2);
    sp := PushAd(mem, sp, c);
    sp := Push(mem, sp, c.ds, ws, 11);
    sp := Push(mem, sp, c.es, ws, 12);
    sp := Push(mem, sp, c.fs, ws, 13);
    sp := Push(mem, sp, c.gs, ws, 14);
    PushNothing(mem[..], sp, ws[15..]);
  }

  /** pop gs, fs, es, ds; popad; iret. The same sequence ends irq0 and scheduler_start. */
  method PopContext(mem: array<byte>, esp: uint32) returns (c: Cpu)
    requires esp + FRAME_BYTES <= mem.Length && mem.Length < 0x1_0000_0000
    ensures c == Restore(mem[..], esp)
  {
    hide PopAll, Word;
    forall i | 0 <= i < FRAME_WORDS ensures PopAll(mem[..], esp, FRAME_WORDS)[i] == Word(mem[..], esp + 4 * i) {
      PopAllAt(mem[..], esp, FRAME_WORDS, i);
    }
    var gs := Load32(mem, esp);
    var fs := Load32(mem, esp + 4);
    var es := Load32(mem, esp + 8);
    var ds := Load32(mem, esp + 12);
    var edi := Load32(mem, esp + 16);
    var esi := Load32(mem, esp + 20);
    var ebp := Load32(mem, esp + 24);
    var ebx := Load32(mem, esp + 32);
    var edx := Load32(mem, esp + 36);
    var ecx := Load32(mem, esp + 40);
    var eax := Load32(mem, esp + 44);
    var eip := Load32(mem, esp + 48);
    var cs := Load32(mem, esp + 52);
    var eflags := Load32(mem, esp + 56);
    c := Cpu(eax, ecx, edx, ebx, esp + FRAME_BYTES, ebp, esi, edi, eip, eflags,
             cs % 0x1_0000, ds % 0x1_0000, es % 0x1_0000, fs % 0x1_0000, gs % 0x1_0000);
  }

  /** The stack bytes that the handlers called by irq0 leave behind, given as scratch. */
  method LeaveScratch(mem: array<byte>, a: int, scratch: seq<byte>)
    requires 0 <= a && a + |scratch| <= mem.Length
    modifies mem
    ensures mem[..] == PutBytes(old(mem[..]), a, scratch)
  {
    for i := 0 to |scratch|
      invariant PutBytes(mem[..], a + i, scratch[i..]) == PutBytes(old(mem[..]), a, scratch)
    {
      assert scratch[i..][1..] == scratch[i + 1..];
      Store8(mem, a + i, scratch[i]);
    }
  }

  class Machine {
    const mem: array<byte>
    const at: Statics
    const heap: Heap.Allocator
    const table: Table
    var cpu: Cpu
    /** History: what each process is to resume with. */
    ghost var saved: map<uint32, Cpu>

    /** All parts work on the same memory. */
    ghost predicate Wired()
    {
      && mem.Length == RAM_SIZE
      && heap.mem == mem && table.mem == mem && table.at == at && heap.heapStart == at.heapStart
    }

    ghost predicate Valid()
      reads this, mem, heap, table
    {
      Wired() && heap.Valid() && table.Valid()
    }

    /** Whatever has run in between, a memory that meets the invariant is valid. */
    lemma StillValid()
      requires Wired() && Context.Base(State())
      ensures Valid()
    {
      hide HeapModel.Good, Stored, Word;
      BaseParts(State());
    }

    ghost function State(): Context.Machine
      reads this, mem, heap, table
    {
      Context.Machine(at, HeapModel.HeapState(mem[..], heap.blocks), table.sys, cpu, saved)
    }

    /** heap_init, process_init and scheduler_init. */
    constructor (mem: array<byte>, at: Statics, cpu: Cpu)
      requires mem.Length == RAM_SIZE
      modifies mem
      ensures Valid() && Context.PreStart(State()) && this.mem == mem && fresh(heap) && fresh(table)
      ensures State() == ContextRuns.Fresh(at, old(mem[..]), cpu)
    {
      hide HeapModel.Good, Stored, InitTable, Word, OwnBlocks, PutWord, Context.PreStart, InitBytes;
      ContextRuns.FreshPreStart(at, mem[..], cpu);
      var h := new Heap.Allocator(mem, at.heapStart);
      h.Init();
      var t := new Table(mem, at);
      t.Init();
      this.mem, this.at, heap, table, this.cpu, saved := mem, at, h, t, cpu, map[];
      new;
      PreStartParts(State());
      StillValid();
    }

    /** irq0: save the interrupted context, let the scheduler choose a stack, restore from it. */
    method Irq0(scratch: seq<byte>)
      requires Valid() && Context.Inv(State()) && Context.Allowed(State(), Context.Interrupt(scratch))
      modifies this, mem, table
      ensures Valid() && Context.Inv(State())
      ensures State() == Context.Step(old(State()), Context.Interrupt(scratch))
    {
      hide PushAll, PopAll, Restore, HeapModel.Good, Context.Inv, Context.Allowed, Sched.Tick, PutBytes, Sched.Switches,
        Stored, TickBytes, Consistent, Word;
      ghost var mc := State();
      InterruptBounds(mc, scratch);
      Context.PushedMemory(mc, scratch);
      Context.InterruptInv(mc, scratch);
      if Sched.Switches(table.sys) {
        saved := saved[table.sys.ring[0].pid := cpu];
      }
      var sp := PushContext(mem, cpu);
      LeaveScratch(mem, sp - |scratch|, scratch);
      assert mem[..] == Context.Interrupted(mc.heap.mem, mc.cpu, scratch);
      ConsistentParts(at, HeapModel.HeapState(mem[..], heap.blocks), table.sys) by { assert Consistent(at, HeapModel.HeapState(mem[..], heap.blocks), table.sys); }
      var esp := table.Tick(sp);
      cpu := PopContext(mem, esp);
      assert State() == Context.Step(mc, Context.Interrupt(scratch));
      InvParts(State());
      StillValid();
    }

    /** scheduler_start, which never returns to its caller: it loads the first process's frame. */
    method SchedulerStart()
      requires Valid() && Context.PreStart(State()) && table.sys.ring != []
      modifies this, mem, table
      ensures Valid() && Context.Inv(State())
      ensures State() == ContextRuns.Started(old(State()))
    {
      hide PopAll, Restore, HeapModel.Good, Context.Inv, Context.PreStart, Stored, ControlBytes, Word;
      ghost var mc := State();
      ContextRuns.StartInv(mc);
      StartBounds(mc);
      var esp := table.Start();
      cpu := PopContext(mem, esp);
      InvParts(State());
      StillValid();
    }

    /** process_exit, process_block, process_unblock and process_block_others, called by the current
        process; null pointers are ignored by the calls themselves. */
    method ProcessExit()
      requires Valid() && Context.Inv(State())
      modifies mem, table
      ensures Valid() && Context.Inv(State())
      ensures State() == Context.Controlled(old(State()), Sched.Exit)
    {
      hide HeapModel.Good, Context.Inv, Stored, Word, ControlBytes;
      Context.ControlInv(State(), Sched.Exit);
      table.Exit();
      InvParts(State());
      StillValid();
    }

    method ProcessBlockOthers()
      requires Valid() && Context.Inv(State())
      modifies mem, table
      ensures Valid() && Context.Inv(State())
      ensures State() == Context.Controlled(old(State()), Sched.BlockOthers)
    {
      hide HeapModel.Good, Context.Inv, Stored, Word, ControlBytes;
      Context.ControlInv(State(), Sched.BlockOthers);
      table.BlockOthers();
      InvParts(State());
      StillValid();
    }

    method ProcessBlock(p: uint32, ghost i: nat)
      requires Valid() && Context.Inv(State()) && i < |table.sys.ring| && p == table.sys.ring[i].addr
      modifies mem, table
      ensures Valid() && Context.Inv(State())
      ensures State() == Context.Controlled(old(State()), Sched.Block(i))
    {
      hide HeapModel.Good, Context.Inv, Stored, Word, ControlBytes;
      Context.ControlInv(State(), Sched.Block(i));
      BaseParts(State()) by { InvParts(State()); }
      table.Block(p, i);
      InvParts(State());
      StillValid();
    }

    method ProcessUnblock(p: uint32, ghost i: nat)
      requires Valid() && Context.Inv(State()) && i < |table.sys.ring| && p == table.sys.ring[i].addr
      modifies mem, table
      ensures Valid() && Context.Inv(State())
      ensures State() == Context.Controlled(old(State()), Sched.Unblock(i))
    {
      hide HeapModel.Good, Context.Inv, Stored, Word, ControlBytes;
      Context.ControlInv(State(), Sched.Unblock(i));
      BaseParts(State()) by { InvParts(State()); }
      table.Unblock(p, i);
      InvParts(State());
      StillValid();
    }

    /** process_create, as an action of the machine, before scheduler_start and afterwards. */
    method ProcessCreate(entry: uint32, name: seq<byte>, priority: uint32) returns (proc: uint32)
      requires Valid() && Context.Base(State()) && 0 in name
      requires Context.Allowed(State(), Context.NewProcess(entry, CString(name), priority))
      modifies this, mem, heap, table
      ensures Valid() && Context.Base(State())
      ensures State() == Context.Step(old(State()), Context.NewProcess(entry, CString(name), priority))
      ensures proc == CreateProcess(at, old(heap.State()), old(table.sys), entry, CString(name), priority).2
      ensures old(Context.PreStart(State())) ==> Context.PreStart(State())
      ensures old(Context.Inv(State())) ==> Context.Inv(State())
    {
      hide HeapModel.Good, Stored, CreateProcess, Context.PreStart, Context.Inv, Word, OwnBlocks, Context.Parked;
      ghost var mc := State();
      Context.NewProcessInv(mc, entry, CString(name), priority);
      Context.NewProcessKeeps(mc, entry, CString(name), priority);
      proc := Create(entry, name, priority);
      if proc != 0 {
        ghost var p := table.sys.ring[|table.sys.ring| - 1];
        saved := saved[p.pid := InitialCpu(entry, Wrap32(p.stack + STACK_SIZE))];
      }
    }

    /** process_create. Both blocks are allocated before the table is touched; if the second
        allocation fails the first is undone. */
    method Create(entry: uint32, name: seq<byte>, priority: uint32) returns (proc: uint32)
      requires Valid() && Consistent(at, heap.State(), table.sys) && 0 in name
      modifies mem, heap, table
      ensures Valid()
      ensures (heap.State(), table.sys, proc) ==
        CreateProcess(at, old(heap.State()), old(table.sys), entry, CString(name), priority)
      ensures if proc == 0 then table.sys == old(table.sys) else table.sys.ring != []
    {
      hide HeapModel.Good, Stored, CreateProcess, Word, OwnBlocks, PutWord, NewBlocks, BuildBytes;
      ghost var h, s := heap.State(), table.sys;
      CreateParts(at, h, s, entry, CString(name), priority);
      CreateConsistent(at, h, s, entry, CString(name), priority);
      var pcb, stack := AllocateBlocks();
      if pcb != 0 {
        Build(h, pcb, stack, entry, name, priority);
      }
      proc := pcb;
      ConsistentParts(at, heap.State(), table.sys);
    }

    /** Lines 18 to 22 of process.c: both blocks, or neither. */
    method AllocateBlocks() returns (pcb: uint32, stack: uint32)
      requires heap.mem == mem && heap.Valid()
      modifies mem, heap
      ensures heap.Valid()
      ensures (heap.State(), pcb, stack) == NewBlocks(old(heap.State()))
    {
      hide HeapModel.Kmalloc, HeapModel.Good, HeapModel.Live, HeapModel.Kfree, Word, PutWord, HeapModel.OwnsBetween;
      PcbLive(heap.State());
      pcb := heap.Kmalloc(PCB_SIZE);
      if pcb == 0 {
        return 0, 0;
      }
      PcbOwned(old(heap.State()));
      stack := heap.Kmalloc(STACK_SIZE);
      PutWordOwned(heap.State(), pcb, pcb + STACK, stack);
      BlockInside(heap.State(), pcb, PCB_SIZE);
      WordSame(mem[..], PutWord(mem[..], pcb + STACK, stack), heap.heapStart);
      Store32(mem, pcb + STACK, stack);
      if stack == 0 {
        heap.Kfree(pcb);
        return 0, 0;
      }
    }

    /** Lines 25 to 67 of process.c; h is the heap before the allocations. */
    method Build(ghost h: HeapModel.HeapState, pcb: uint32, stack: uint32, entry: uint32, name: seq<byte>, priority: uint32)
      requires table.mem == mem && table.at == at && 0 in name
      requires Consistent(at, h, table.sys) && (heap.State(), pcb, stack) == NewBlocks(h) && pcb != 0 && heap.mem == mem
      modifies mem, table
      ensures mem[..] == BuildBytes(at, old(mem[..]), old(table.sys), pcb, stack, entry, CString(name), priority)
      ensures table.Valid()
      ensures table.sys == Sched.Apply(old(table.sys),
        Sched.Create(pcb, priority, Wrap32(stack + STACK_SIZE - FRAME_BYTES), stack))
    {
      hide HeapModel.Good, Stored, Word, OwnBlocks, PutWord, NewBlocks, FillBytes, PushAll, InsertBytes, FreshStack, Named,
        Holds, Spaced, KeepsPayloads, CreateProcess;
      ghost var s := table.sys;
      CreateParts(at, h, s, entry, CString(name), priority);
      ghost var h2, p := CreateReady(at, h, s, entry, CString(name), priority);
      ReadyBounds(at, h2, s, p);
      table.Fill(pcb, name, priority);
      var esp := PushInitialFrame(mem, stack + STACK_SIZE, entry);
      Store32(mem, pcb + ESP, esp);
      table.sys := s.(nextPid := Wrap32(s.nextPid + 1));
      SameInsert(at, mem[..], s, table.sys, pcb);
      table.Insert(pcb, p);
    }
  }

  lemma CreateParts(at: Statics, h: HeapModel.HeapState, s: Sched.Sys, entry: uint32, name: seq<byte>, priority: uint32)
    requires HeapModel.Good(h)
    ensures var (h1, pcb, stack) := NewBlocks(h);
      CreateProcess(at, h, s, entry, name, priority) ==
        if pcb == 0 then (h1, s, 0)
        else (HeapModel.HeapState(BuildBytes(at, h1.mem, s, pcb, stack, entry, name, priority), h1.blocks),
              Sched.Apply(s, Sched.Create(pcb, priority, Wrap32(stack + STACK_SIZE - FRAME_BYTES), stack)), pcb)
  {
    hide HeapModel.Good, NewBlocks, BuildBytes;
  }

  /** What the parts of the machine need of a consistent state. */
  lemma ConsistentParts(at: Statics, h: HeapModel.HeapState, s: Sched.Sys)
    requires Consistent(at, h, s)
    ensures |h.mem| == RAM_SIZE && Stored(at, h.mem, s) && Word(h.mem, at.heapStart) == HEAP_START
  {
    hide OwnBlocks, Word, Linked;
  }

  lemma ReadyBounds(at: Statics, h2: HeapModel.HeapState, s: Sched.Sys, p: Sched.Pcb)
    requires Consistent(at, h2, s) && OwnBlocks(h2.blocks, s.ring + [p])
    ensures p.addr + PCB_SIZE <= |h2.mem| == RAM_SIZE && HEAP_START <= p.addr && HEAP_START <= p.stack
    ensures p.stack + STACK_SIZE <= HEAP_END
    ensures Word(PutWord(h2.mem, p.addr + STACK, p.stack), at.nextPid) == s.nextPid
  {
    hide OwnBlocks, Word, Linked, HeapModel.Good, PutWord, Spaced;
    NewBlocksClear(h2, s, p);
    GoodTiles(h2);
    PutWordAt(h2.mem, p.addr + STACK, p.stack);
  }

  lemma PcbOwned(h: HeapModel.HeapState)
    requires HeapModel.Good(h)
    ensures var (h1, pcb) := HeapModel.Kmalloc(h, PCB_SIZE);
      && HeapModel.Good(h1)
      && (pcb != 0 ==> HeapModel.OwnsBetween(HeapModel.Kmalloc(h1, STACK_SIZE).0.blocks, pcb, PCB_SIZE, PCB_SIZE + 16))
  {
    hide HeapModel.Kmalloc, HeapModel.Live, HeapModel.Owns, HeapModel.Good, HeapModel.OwnsBetween;
    HeapModel.KmallocCorrect(h, PCB_SIZE);
    var (h1, pcb) := HeapModel.Kmalloc(h, PCB_SIZE);
    HeapModel.KmallocCorrect(h1, STACK_SIZE);
    assert RoundUp(PCB_SIZE) == PCB_SIZE;
    if pcb != 0 {
      OwnedStaysBetween(h1, HeapModel.Kmalloc(h1, STACK_SIZE).0, pcb, PCB_SIZE, PCB_SIZE + 16);
    }
  }

  lemma InterruptBounds(mc: Context.Machine, scratch: seq<byte>)
    requires Context.Inv(mc) && Context.Allowed(mc, Context.Interrupt(scratch))
    ensures FRAME_BYTES + |scratch| <= mc.cpu.esp <= RAM_SIZE && mc.sys.ring != [] && |mc.heap.mem| == RAM_SIZE
    ensures Sched.Tick(mc.sys, mc.cpu.esp - FRAME_BYTES).1 + FRAME_BYTES <= RAM_SIZE
  {
    hide HeapModel.Good, Sched.Tick, Restore, HeapModel.Owns, Sched.Pick, Stored;
    var h, ring := mc.heap, mc.sys.ring;
    GoodTiles(h);
    StackTop(h, ring[0].stack);
    if Sched.Switches(mc.sys) {
      Sched.TickSwitch(mc.sys, mc.cpu.esp - FRAME_BYTES, 0);
      var p := ring[Sched.Pick(ring)];
      assert Context.Parked(mc, p);
      StackTop(h, p.stack);
    } else {
      Sched.TickStay(mc.sys, mc.cpu.esp - FRAME_BYTES);
    }
  }

  lemma StartBounds(mc: Context.Machine)
    requires Context.PreStart(mc) && mc.sys.ring != []
    ensures mc.sys.ring[0].esp + FRAME_BYTES <= RAM_SIZE && |mc.heap.mem| == RAM_SIZE
  {
    hide HeapModel.Good, Restore, HeapModel.Owns, Stored;
    GoodTiles(mc.heap);
    assert Context.Parked(mc, mc.sys.ring[0]);
    StackTop(mc.heap, mc.sys.ring[0].stack);
  }

  /** What a machine in a good state has in its memory. */
  lemma BaseParts(mc: Context.Machine)
    requires Context.Base(mc)
    ensures |mc.heap.mem| == RAM_SIZE && HeapModel.Good(mc.heap) && Stored(mc.at, mc.heap.mem, mc.sys)
    ensures Word(mc.heap.mem, mc.at.heapStart) == HEAP_START
    ensures forall i :: 0 <= i < |mc.sys.ring| ==> mc.sys.ring[i].addr != 0
  {
    hide OwnBlocks, Word, Holds, OneCycle;
  }

  lemma InvParts(mc: Context.Machine)
    requires Context.Inv(mc)
    ensures Context.Base(mc) && mc.sys.ring != []
  {
    hide Context.Base, Context.Parked;
  }

  lemma PreStartParts(mc: Context.Machine)
    requires Context.PreStart(mc)
    ensures Context.Base(mc)
  {
    hide Context.Base, Context.Parked;
  }
}
