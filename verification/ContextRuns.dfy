/** Context isolation over every run of the machine. */
module ContextRuns {
  import opened Bytes
  import opened HeapList
  import opened HeapBytes
  import opened HeapModel
  import opened Frames
  import opened Sched
  import opened Pcbs
  import opened Processes
  import opened Context

  ghost predicate AllowedRun(mc: Machine, acts: seq<Action>)
    decreases |acts|
  {
    acts == [] || (Allowed(mc, acts[0]) && AllowedRun(Step(mc, acts[0]), acts[1..]))
  }

  ghost function RunAll(mc: Machine, acts: seq<Action>): Machine
    requires AllowedRun(mc, acts)
    decreases |acts|
  {
    if acts == [] then mc else RunAll(Step(mc, acts[0]), acts[1..])
  }

  lemma {:induction false} RunInv(mc: Machine, acts: seq<Action>)
    requires Inv(mc) && AllowedRun(mc, acts)
    ensures Inv(RunAll(mc, acts))
    decreases |acts|
  {
    hide Inv, Allowed, Step;
    if acts != [] {
      StepInv(mc, acts[0]);
      RunInv(Step(mc, acts[0]), acts[1..]);
    }
  }

  // ---------- From boot to the first process ----------

  /** scheduler_start: the current process is marked RUNNING and its frame is loaded. */
  function Started(mc: Machine): Machine
    requires mc.sys.ring != []
  {
    var m := ControlBytes(mc.at, mc.heap.mem, mc.sys, Start);
    mc.(heap := HeapState(m, mc.heap.blocks), sys := Apply(mc.sys, Start), cpu := Restore(m, mc.sys.ring[0].esp))
  }

  lemma StartInv(mc: Machine)
    requires PreStart(mc) && mc.sys.ring != []
    ensures Inv(Started(mc))
    ensures mc.sys.ring[0].pid in mc.saved && Started(mc).cpu == mc.saved[mc.sys.ring[0].pid]
  {
    hide Restore, Good, OwnBlocks, DistinctPids, Stored, ControlBytes, SameOffTable;
    var mc' := Started(mc);
    var r, r' := mc.sys.ring, mc'.sys.ring;
    ControlStored(mc.at, mc.heap.mem, mc.sys, Start);
    TableWrite(mc.at, mc.heap, mc'.heap.mem, r);
    assert forall x :: 0 <= x < |r| ==> SameIdentity(r'[x], r[Source(0, |r|, x)]) && r'[x].esp == r[x].esp;
    TurnedOwnBlocks(mc.heap.blocks, r, r', 0);
    TurnedPids(mc.sys, mc'.sys, 0);
    forall i | 0 <= i < |r'| ensures Intact(mc'.heap.mem, r[i], mc.saved[r[i].pid]) {
      assert Parked(mc, r[i]);
      IntactSame(mc.heap.mem, mc'.heap.mem, r[i], mc.saved[r[i].pid]);
    }
    assert Parked(mc, r[0]);
    forall i | 1 <= i < |r'| ensures Parked(mc', r'[i]) {
      assert Parked(mc, r[i]);
    }
  }

  /** Memory after heap_init, process_init and scheduler_init. */
  function BootBytes(at: Statics, m: Mem): Mem {
    InitTable(at, HeapInit(PutWord(m, at.heapStart, HEAP_START)).mem)
  }

  function Fresh(at: Statics, m: Mem, cpu: Cpu): Machine {
    Machine(at, HeapState(BootBytes(at, m), INITIAL), BOOT, cpu, map[])
  }

  predicate Creations(acts: seq<Action>) {
    forall i :: 0 <= i < |acts| ==> acts[i].NewProcess?
  }

  lemma {:induction false} CreationsPreStart(mc: Machine, acts: seq<Action>)
    requires PreStart(mc) && AllowedRun(mc, acts) && Creations(acts)
    ensures PreStart(RunAll(mc, acts))
    decreases |acts|
  {
    hide PreStart, Allowed, Step;
    if acts != [] {
      assert acts[0].NewProcess?;
      NewProcessInv(mc, acts[0].entry, acts[0].name, acts[0].priority);
      CreationsPreStart(Step(mc, acts[0]), acts[1..]);
    }
  }

  lemma BootConsistent(at: Statics, m: Mem)
    requires |m| == RAM_SIZE
    ensures Consistent(at, HeapState(BootBytes(at, m), INITIAL), BOOT)
  {
    hide Hdr, Rep, Tiles, Word, PutWord, Addr, InitBytes;
    var m1 := PutWord(m, at.heapStart, HEAP_START);
    var h := HeapInit(m1);
    PutWordAt(m, at.heapStart, HEAP_START);
    InitRep(m1);
    InitialWellFormed();
    HeadersInside(m1, h.mem, INITIAL);
    WordSame(m1, h.mem, at.heapStart);
    InitStored(at, h.mem);
    TableWrite(at, h, InitTable(at, h.mem), []);
  }

  lemma FreshPreStart(at: Statics, m: Mem, cpu: Cpu)
    requires |m| == RAM_SIZE
    ensures PreStart(Fresh(at, m, cpu))
  {
    hide Consistent, BootBytes;
    BootConsistent(at, m);
  }

  /** From a fresh heap: any creations, scheduler_start, then anything the contract allows. In every
      state reached, each process but the current one has an intact frame in its own stack. */
  lemma ReachableInv(at: Statics, m: Mem, cpu: Cpu, creations: seq<Action>, acts: seq<Action>)
    requires |m| == RAM_SIZE
    requires Creations(creations) && AllowedRun(Fresh(at, m, cpu), creations)
    requires RunAll(Fresh(at, m, cpu), creations).sys.ring != []
    requires AllowedRun(Started(RunAll(Fresh(at, m, cpu), creations)), acts)
    ensures Inv(RunAll(Started(RunAll(Fresh(at, m, cpu), creations)), acts))
  {
    hide PreStart, Inv, Started;
    FreshPreStart(at, m, cpu);
    CreationsPreStart(Fresh(at, m, cpu), creations);
    StartInv(RunAll(Fresh(at, m, cpu), creations));
    RunInv(Started(RunAll(Fresh(at, m, cpu), creations)), acts);
  }

  // ---------- What a process resumes with ----------

  predicate IsCurrent(mc: Machine, pid: uint32) {
    mc.sys.ring != [] && mc.sys.ring[0].pid == pid
  }

  /** pid is not current in any state of the run. */
  ghost predicate Away(mc: Machine, acts: seq<Action>, pid: uint32)
    requires AllowedRun(mc, acts)
    decreases |acts|
  {
    !IsCurrent(mc, pid) && (acts != [] ==> Away(Step(mc, acts[0]), acts[1..], pid))
  }

  lemma SavedKept(mc: Machine, a: Action, pid: uint32)
    requires Inv(mc) && Allowed(mc, a) && !IsCurrent(mc, pid)
    requires pid in mc.saved && pid < mc.sys.nextPid
    ensures var mc' := Step(mc, a);
      pid in mc'.saved && mc'.saved[pid] == mc.saved[pid] && pid < mc'.sys.nextPid
  {
    hide Restore, Good, OwnBlocks, Tick, CreateProcess, Interrupted, Parked, OwnsBetween, Owns, Live,
      Stored, TickBytes, ControlBytes, FreshStack, Named, SamePayload;
    match a
    case NewProcess(entry, name, priority) =>
      if CreateProcess(mc.at, mc.heap, mc.sys, entry, name, priority).2 == 0 {
        CreateFails(mc.at, mc.heap, mc.sys, entry, name, priority);
      } else {
        var p := CreateSucceeds(mc.at, mc.heap, mc.sys, entry, name, priority);
      }
    case Interrupt(scratch) =>
      var k := TickTurns(mc.sys, mc.cpu.esp - FRAME_BYTES) by { EspRoom(mc, scratch); }
    case _ =>
  }

  lemma EspRoom(mc: Machine, scratch: seq<byte>)
    requires Allowed(mc, Interrupt(scratch))
    ensures mc.cpu.esp >= FRAME_BYTES
  {
  }

  lemma {:induction false} AwayKeepsSaved(mc: Machine, acts: seq<Action>, pid: uint32)
    requires Inv(mc) && AllowedRun(mc, acts) && Away(mc, acts, pid)
    requires pid in mc.saved && pid < mc.sys.nextPid
    ensures var mc' := RunAll(mc, acts);
      pid in mc'.saved && mc'.saved[pid] == mc.saved[pid] && !IsCurrent(mc', pid)
    decreases |acts|
  {
    hide Inv, Allowed, Step;
    if acts != [] {
      StepInv(mc, acts[0]);
      SavedKept(mc, acts[0], pid);
      AwayKeepsSaved(Step(mc, acts[0]), acts[1..], pid);
    }
  }

  /** A process becomes current only through an interrupt, and then with its saved state. */
  lemma BecomesCurrent(mc: Machine, a: Action, pid: uint32)
    requires Inv(mc) && Allowed(mc, a) && !IsCurrent(mc, pid) && IsCurrent(Step(mc, a), pid)
    ensures a.Interrupt? && pid in mc.saved && Step(mc, a).cpu == mc.saved[pid]
  {
    hide Restore, Good, OwnBlocks, Tick, CreateProcess, Interrupted, Parked, OwnsBetween, Owns, Live,
      Stored, TickBytes, ControlBytes, FreshStack, Named, SamePayload;
    match a
    case NewProcess(entry, name, priority) =>
      if CreateProcess(mc.at, mc.heap, mc.sys, entry, name, priority).2 == 0 {
        CreateFails(mc.at, mc.heap, mc.sys, entry, name, priority);
      } else {
        var p := CreateSucceeds(mc.at, mc.heap, mc.sys, entry, name, priority);
      }
    case Interrupt(scratch) => InterruptCpu(mc, scratch);
    case _ =>
  }

  /** Context isolation. A process preempted in state mc, away for any run of other processes'
      actions, resumes with exactly the registers, stack pointer, EIP, CS, segments and EFLAGS it was
      preempted with. */
  lemma ResumesExactly(mc: Machine, scratch: seq<byte>, acts: seq<Action>, last: Action)
    requires Inv(mc) && Allowed(mc, Interrupt(scratch)) && Switches(mc.sys)
    requires AllowedRun(Step(mc, Interrupt(scratch)), acts)
    requires Away(Step(mc, Interrupt(scratch)), acts, mc.sys.ring[0].pid)
    requires Allowed(RunAll(Step(mc, Interrupt(scratch)), acts), last)
    requires IsCurrent(Step(RunAll(Step(mc, Interrupt(scratch)), acts), last), mc.sys.ring[0].pid)
    ensures Step(RunAll(Step(mc, Interrupt(scratch)), acts), last).cpu == mc.cpu
  {
    hide Good, OwnBlocks, Step, Parked,
      Stored, TickBytes, ControlBytes, FreshStack, Named, SamePayload;
    var pid := mc.sys.ring[0].pid;
    var mc1 := Step(mc, Interrupt(scratch));
    StepInv(mc, Interrupt(scratch));
    PreemptedSaved(mc, scratch);
    RunInv(mc1, acts);
    AwayKeepsSaved(mc1, acts, pid);
    BecomesCurrent(RunAll(mc1, acts), last, pid);
  }

  lemma PreemptedSaved(mc: Machine, scratch: seq<byte>)
    requires Inv(mc) && Allowed(mc, Interrupt(scratch)) && Switches(mc.sys)
    ensures var mc', pid := Step(mc, Interrupt(scratch)), mc.sys.ring[0].pid;
      pid in mc'.saved && mc'.saved[pid] == mc.cpu && pid < mc'.sys.nextPid
  {
    hide Restore, Good, OwnBlocks, Tick, Interrupted, Parked,
      Stored, TickBytes, ControlBytes, FreshStack, Named, SamePayload;
    EspRoom(mc, scratch);
    var k := TickTurns(mc.sys, mc.cpu.esp - FRAME_BYTES);
  }

  /** Creation puts the new process at the end of the ring. */
  function NewestProcess(mc: Machine): Pcb {
    if mc.sys.ring == [] then NewPcb(0, 0, 0, 0, 0) else mc.sys.ring[|mc.sys.ring| - 1]
  }

  /** On its first turn a process starts at its entry point with CS and segments 0x10, EFLAGS 0x202,
      zero general registers and the stack of its own block empty. */
  lemma FirstTurn(mc: Machine, entry: uint32, name: seq<byte>, priority: uint32, acts: seq<Action>, last: Action)
    requires Inv(mc) && Allowed(mc, NewProcess(entry, name, priority))
    requires CreateProcess(mc.at, mc.heap, mc.sys, entry, name, priority).2 != 0
    requires AllowedRun(Step(mc, NewProcess(entry, name, priority)), acts)
    requires Away(Step(mc, NewProcess(entry, name, priority)), acts, mc.sys.nextPid)
    requires Allowed(RunAll(Step(mc, NewProcess(entry, name, priority)), acts), last)
    requires IsCurrent(Step(RunAll(Step(mc, NewProcess(entry, name, priority)), acts), last), mc.sys.nextPid)
    ensures var p := NewestProcess(Step(mc, NewProcess(entry, name, priority)));
      var c := Step(RunAll(Step(mc, NewProcess(entry, name, priority)), acts), last).cpu;
      && c == InitialCpu(entry, Wrap32(p.stack + STACK_SIZE))
      && c.eip == entry && c.esp == Wrap32(p.stack + 16384) && c.eflags == 0x202
      && c.cs == c.ds == c.es == c.fs == c.gs == 0x10
      && c.eax == c.ecx == c.edx == c.ebx == c.ebp == c.esi == c.edi == 0
  {
    hide Good, OwnBlocks, Parked, CreateProcess, Restore, Step, Away, AllowedRun, RunAll, IsCurrent, Allowed,
      Stored, TickBytes, ControlBytes, FreshStack, Named, SamePayload;
    var mc1 := Step(mc, NewProcess(entry, name, priority));
    StepInv(mc, NewProcess(entry, name, priority));
    CreatedSaved(mc, entry, name, priority);
    RunInv(mc1, acts);
    AwayKeepsSaved(mc1, acts, mc.sys.nextPid);
    BecomesCurrent(RunAll(mc1, acts), last, mc.sys.nextPid);
  }

  lemma CreatedSaved(mc: Machine, entry: uint32, name: seq<byte>, priority: uint32)
    requires Base(mc) && Allowed(mc, NewProcess(entry, name, priority))
    requires CreateProcess(mc.at, mc.heap, mc.sys, entry, name, priority).2 != 0
    ensures var mc', pid := Step(mc, NewProcess(entry, name, priority)), mc.sys.nextPid;
      && mc'.sys.ring != [] && NewestProcess(mc').pid == pid && pid in mc'.saved && pid < mc'.sys.nextPid
      && mc'.saved[pid] == InitialCpu(entry, Wrap32(NewestProcess(mc').stack + STACK_SIZE))
  {
    hide Good, OwnBlocks, Parked, CreateProcess, Restore, OwnsBetween, Live, Owns,
      Stored, TickBytes, ControlBytes, FreshStack, Named, SamePayload;
    var p := CreateSucceeds(mc.at, mc.heap, mc.sys, entry, name, priority);
  }

  // ---------- Processes created before scheduler_start ----------

  /** After the creation of a process and any further creations, its saved state is its initial one. */
  lemma {:induction false} CreationsKeepSaved(mc: Machine, acts: seq<Action>, pid: uint32)
    requires PreStart(mc) && AllowedRun(mc, acts) && Creations(acts)
    requires pid in mc.saved && pid < mc.sys.nextPid
    ensures var mc' := RunAll(mc, acts);
      && PreStart(mc') && |mc'.sys.ring| >= |mc.sys.ring|
      && pid in mc'.saved && mc'.saved[pid] == mc.saved[pid] && pid < mc'.sys.nextPid
    decreases |acts|
  {
    hide PreStart, Allowed, Step;
    if acts != [] {
      assert acts[0].NewProcess?;
      NewProcessInv(mc, acts[0].entry, acts[0].name, acts[0].priority);
      CreationKeepsSaved(mc, acts[0].entry, acts[0].name, acts[0].priority, pid);
      CreationsKeepSaved(Step(mc, acts[0]), acts[1..], pid);
    }
  }

  lemma CreationKeepsSaved(mc: Machine, entry: uint32, name: seq<byte>, priority: uint32, pid: uint32)
    requires PreStart(mc) && Allowed(mc, NewProcess(entry, name, priority))
    requires pid in mc.saved && pid < mc.sys.nextPid
    ensures var mc' := Step(mc, NewProcess(entry, name, priority));
      && pid in mc'.saved && mc'.saved[pid] == mc.saved[pid] && pid < mc'.sys.nextPid
      && |mc'.sys.ring| >= |mc.sys.ring|
  {
    hide Restore, Good, OwnBlocks, CreateProcess, OwnsBetween, Owns, Live,
      Stored, TickBytes, ControlBytes, FreshStack, Named, SamePayload;
    if CreateProcess(mc.at, mc.heap, mc.sys, entry, name, priority).2 == 0 {
      CreateFails(mc.at, mc.heap, mc.sys, entry, name, priority);
    } else {
      var p := CreateSucceeds(mc.at, mc.heap, mc.sys, entry, name, priority);
    }
  }

  /** The same for a process created before scheduler_start: the first time it is current, at the
      start itself or after any run in which others were, the processor is in its initial state. */
  lemma FirstTurnFromStart(mc: Machine, entry: uint32, name: seq<byte>, priority: uint32, creations: seq<Action>)
    requires PreStart(mc) && Allowed(mc, NewProcess(entry, name, priority))
    requires CreateProcess(mc.at, mc.heap, mc.sys, entry, name, priority).2 != 0
    requires Creations(creations) && AllowedRun(Step(mc, NewProcess(entry, name, priority)), creations)
    ensures RunAll(Step(mc, NewProcess(entry, name, priority)), creations).sys.ring != []
    ensures var mc0 := RunAll(Step(mc, NewProcess(entry, name, priority)), creations);
      var p := NewestProcess(Step(mc, NewProcess(entry, name, priority)));
      var initial := InitialCpu(entry, Wrap32(p.stack + STACK_SIZE));
      && (IsCurrent(Started(mc0), p.pid) ==> Started(mc0).cpu == initial)
      && forall acts, last ::
           && AllowedRun(Started(mc0), acts) && Away(Started(mc0), acts, p.pid)
           && Allowed(RunAll(Started(mc0), acts), last)
           && IsCurrent(Step(RunAll(Started(mc0), acts), last), p.pid) ==>
           Step(RunAll(Started(mc0), acts), last).cpu == initial
  {
    hide Good, OwnBlocks, Parked, CreateProcess, Restore, Step, Away, AllowedRun, RunAll, Allowed,
      Stored, TickBytes, ControlBytes, FreshStack, Named, SamePayload;
    var mc1 := Step(mc, NewProcess(entry, name, priority));
    NewProcessInv(mc, entry, name, priority);
    CreatedSaved(mc, entry, name, priority);
    CreationsKeepSaved(mc1, creations, mc.sys.nextPid);
    var mc0 := RunAll(mc1, creations);
    StartInv(mc0);
    var p := NewestProcess(mc1);
    forall acts, last |
      && AllowedRun(Started(mc0), acts) && Away(Started(mc0), acts, p.pid)
      && Allowed(RunAll(Started(mc0), acts), last)
      && IsCurrent(Step(RunAll(Started(mc0), acts), last), p.pid)
      ensures Step(RunAll(Started(mc0), acts), last).cpu == mc0.saved[p.pid]
    {
      RunInv(Started(mc0), acts);
      AwayKeepsSaved(Started(mc0), acts, p.pid);
      BecomesCurrent(RunAll(Started(mc0), acts), last, p.pid);
    }
  }
}
